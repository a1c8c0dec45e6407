# kedro `AbstractConfigLoader` store — a verified Dafny model

`AbstractConfigLoader` (kedro/config/abstract_config.py) is the base class of
every kedro configuration loader. Its only behaviour is a dict-like store,
`mapping`, from configuration section names to values. The constructor
fills it with the four mandatory sections `catalog`, `parameters`,
`credentials` and `logging`, and remembers `conf_source`, `env` and
`runtime_params`. Through Python's mutable-mapping interface the store
offers lookup, membership, assignment, deletion, `pop`, iteration and
length.

Two operations do more than a plain dict:

- Deleting a key removes it and then pops the value it held. `pop` deletes
  that value too if it is a present key. The deletion therefore runs along
  the chain `k, m[k], m[m[k]], …` and stops at the first value that is no
  longer a key.
- Assigning to a present key first deletes the entry whose *key* is the old
  value, with the same cascade, and only then stores the new value. If the
  old value is not a key, the lookup inside that deletion raises the
  missing-key error, and the table is left unchanged.

The class itself is abstract in Python because of the abstract `get`, so it cannot be created directly. `ConfigLoader.constructor` models `__init__` as a concrete subclass runs it.

Files:

- `wrappers.dfy` — `Option`, `Result` and `Outcome`. They model "absent" and "raised".
- `ordering.dfy` — insertion order of a dict's keys. `Filter` keeps the
  survivors of a deletion in their order; the lemmas cover repetition-freedom,
  counting and successive deletions.
- `cascade.dfy` — the deletion cascade as pure functions over `map<K, K>`:
  `CascadeDelete`, the removal chain `Chain`, and the independent
  characterisation `IsCascade`, with the lemmas that connect them.
- `abstract_config.dfy` — the class `ConfigLoader` with the fields `mapping`
  and `order`, and the error type `ConfigError`. Its methods are proved
  against `Cascade` and `Ordering`.

Keys and values of the store are both `string`. Values have to share the
keys' type because the source uses them as keys. Python dicts iterate in
insertion order, so the model keeps a real `order` field. `Valid()` ties it
to the keys of `mapping`.

Pattern registries, file discovery, merging, environment overlays and
runtime overrides belong to concrete loaders; this class is only the store,
and lookup here is a plain table lookup. Assignment to a present key raises
when the old value is not itself a key, and `ConfigLoader.SetItem` states
it.

## Model

| member | source | states |
|---|---|---|
| `AbstractConfig.ConfigLoader.constructor` | kedro/config/abstract_config.py:16-36 | the table holds exactly the four mandatory sections, each mapped to its argument, in that order; `conf_source`, `env` and `runtime_params` are kept unchanged |
| `AbstractConfig.ConfigLoader.GetItem` | kedro/config/abstract_config.py:38-39 | succeeds exactly when the key is present, returning its stored value; otherwise raises the missing-key error naming that key; reads only |
| `AbstractConfig.ConfigLoader.Contains` | kedro/config/abstract_config.py:47 | membership holds exactly when lookup does not raise, i.e. when the key is stored |
| `AbstractConfig.ConfigLoader.DelItem` | kedro/config/abstract_config.py:41-44 | absent key: raises the missing-key error and changes nothing; present key: the new table is the cascade deletion from that key; the iteration order keeps the survivors in their old relative order |
| `AbstractConfig.ConfigLoader.Pop` | kedro/config/abstract_config.py:44 | `pop(key, None)`: returns the old value of a present key and None for an absent one; the table becomes the cascade deletion from the key, which is no change for an absent key |
| `AbstractConfig.ConfigLoader.SetItem` | kedro/config/abstract_config.py:46-49 | absent key: key→value is added at the end of the order and nothing else changes; present key whose old value is not a key: raises the missing-key error naming the old value and changes nothing; otherwise the cascade from the old value runs first and then key→value is stored; on success a following lookup returns the new value and the old value is no longer a key (unless it was the key itself) |
| `AbstractConfig.ConfigLoader.Store` | kedro/config/abstract_config.py:49 | dict item assignment: the value is stored under the key; a new key goes last in the order, an existing key keeps its place |
| `AbstractConfig.ConfigLoader.Remove` | kedro/config/abstract_config.py:43 | dict item deletion: exactly that key disappears; the other keys keep their relative order |
| `AbstractConfig.ConfigLoader.Iter` | kedro/config/abstract_config.py:51-52 | iteration yields every stored key exactly once and nothing else |
| `AbstractConfig.ConfigLoader.Len` | kedro/config/abstract_config.py:54-55 | the length equals the number of keys iteration yields |
| `Cascade.CascadeDelete` | kedro/config/abstract_config.py:41-44 | the cascade terminates; it never adds a key; no surviving key's value changes; the start key is gone; the table strictly shrinks when the start key was present and is unchanged when it was absent |
| `Cascade.ChainIsCascade` | kedro/config/abstract_config.py:41-44 | the removal chain starts at the key, visits present keys once each, each next key is the value stored under the previous one, and it stops at the first value that is absent or already removed |
| `Cascade.CascadeUnique` | kedro/config/abstract_config.py:41-44 | any sequence with the properties above is the removal chain, so that description determines the cascade |
| `Cascade.CascadeDeleteRemovesChain` | kedro/config/abstract_config.py:41-44 | deletion removes exactly the keys on the chain and keeps every other key; together with `Cascade.CascadeDelete` every kept key also keeps its value |
| `Cascade.CascadeDeleteSize` | kedro/config/abstract_config.py:41-44 | the table shrinks by exactly the number of keys on the chain |
| `Ordering.FilterFilter` | kedro/config/abstract_config.py:43-44 | a deletion followed by a further deletion leaves the same iteration order as one deletion of all those keys |
| `Ordering.FilterDistinct` | kedro/config/abstract_config.py:43 | deleting keys never makes a key appear twice in iteration |
| `Ordering.DistinctCard` | kedro/config/abstract_config.py:51-55 | a repetition-free key sequence has as many elements as the set of its keys; so length and iteration agree |

## Left out

- The abstract `get` method (kedro/config/abstract_config.py:57-60) has no body, so there is nothing to model.
- `BadConfigException` and `MissingConfigException` (kedro/config/abstract_config.py:63-74) appear only as the `BadConfig` and `MissingConfig` constructors of `ConfigError`. Nothing in this class raises them.
- `**kwargs` of the constructor is accepted and ignored by the source, so it is not a parameter of the model.
- Values of any other Python type are not modelled. A value that is never a key behaves like a string that is not a key. An unhashable value (such as a dict) makes `pop`/`del` raise `TypeError`; this is not modelled.
- DelItem, Pop and SetItem: an exception raised in the middle of the cascade is not modelled. Examples are `RecursionError` on a chain longer than Python's recursion limit allows (two frames per removed key) and `TypeError` on an unhashable value. In the source, the keys removed before the exception stay deleted. The model always completes the whole cascade and returns `Pass`.
- `runtime_params` is modelled with string values, and `None` (also the default of `env` and `runtime_params`) is modelled as `Option.None`. The store never reads it.
- `confSource`, `env` and `runtimeParams` are constants. Python would allow them to be reassigned, but nothing in this class does that.
- `Pop` models only `pop(key, None)`, the form the source calls. The form with no default, which raises on an absent key, is not used here.
- The other mutable-mapping mixins (`update`, `setdefault`, `clear`, `popitem`, `keys`, `items`, `values`, `==`) are not modelled. The source neither overrides nor calls them. The mixin `get` with a default is replaced by the abstract `get` of the first bullet.
- Changing the table while an iteration is in progress (Python raises `RuntimeError`) is not modelled. Iteration returns the whole key sequence at once.
- Pattern registries, file discovery, parsing, merging, environment overlays and runtime overrides are done by concrete loaders. That code is not part of this model.
