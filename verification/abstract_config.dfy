/** The dict-like store at the base of every configuration loader: a table
    from configuration section names to their values, created with the four
    mandatory sections, and read, overwritten, deleted, iterated and counted
    through the mutable-mapping interface. Values may equal keys, and both
    deletion and overwriting then reach further entries (see `Cascade`). */
module AbstractConfig {
  import opened Wrappers
  import opened Ordering
  import opened Cascade

  /** The exceptions the store can raise. `MissingKey` is the missing-key
      error of a dict lookup and carries the key looked up. `BadConfig` and
      `MissingConfig` are the two exception types declared beside the store
      for concrete loaders (a file that cannot be loaded; no configuration
      file found); nothing in the store raises them. */
  datatype ConfigError =
    | MissingKey(key: string)
    | BadConfig(message: string)
    | MissingConfig(message: string)

  class ConfigLoader {
    /** Where the configuration lives, the environment and the runtime
        overrides, kept exactly as given to the constructor. */
    const confSource: string
    const env: Option<string>
    const runtimeParams: Option<map<string, string>>

    /** The table: section name to value. */
    var mapping: map<string, string>
    /** The keys of `mapping` in insertion order, the order a dict iterates
        in. */
    var order: seq<string>

    ghost predicate Valid()
      reads this
    {
      Distinct(order) && forall k :: k in order <==> k in mapping
    }

    constructor (catalog: string, parameters: string, credentials: string, logging: string,
                 confSource: string, env: Option<string> := None,
                 runtimeParams: Option<map<string, string>> := None)
      ensures Valid()
      ensures mapping == map["catalog" := catalog, "parameters" := parameters,
                             "credentials" := credentials, "logging" := logging]
      ensures order == ["catalog", "parameters", "credentials", "logging"]
      ensures this.confSource == confSource && this.env == env && this.runtimeParams == runtimeParams
    {
      this.confSource := confSource;
      this.env := env;
      this.runtimeParams := runtimeParams;
      mapping := map["catalog" := catalog, "parameters" := parameters,
                     "credentials" := credentials, "logging" := logging];
      order := ["catalog", "parameters", "credentials", "logging"];
    }

    /** Item assignment on the underlying dict: an existing key keeps its
        place in the iteration order, a new key goes last. */
    method Store(key: string, value: string)
      requires Valid()
      modifies this
      ensures Valid()
      ensures mapping == old(mapping)[key := value]
      ensures order == if key in old(mapping) then old(order) else old(order) + [key]
    {
      if key !in mapping {
        DistinctAppend(order, key);
        order := order + [key];
      }
      mapping := mapping[key := value];
    }

    /** Item deletion on the underlying dict: the survivors keep their
        relative order. */
    method Remove(key: string)
      requires Valid() && key in mapping
      modifies this
      ensures Valid()
      ensures mapping == old(mapping) - {key}
      ensures order == Filter(old(order), mapping.Keys)
    {
      mapping := mapping - {key};
      FilterDistinct(order, mapping.Keys);
      order := Filter(order, mapping.Keys);
    }

    /** Item lookup: the stored value, or the missing-key error. */
    function GetItem(key: string): (r: Result<string, ConfigError>)
      reads this
      ensures r.Ok? <==> key in mapping
      ensures r.Ok? ==> r.value == mapping[key]
      ensures r.Err? ==> r.error == MissingKey(key)
    {
      if key in mapping then Ok(mapping[key]) else Err(MissingKey(key))
    }

    /** Membership as the mapping interface defines it: a key is in the
        store when looking it up does not raise. */
    function Contains(key: string): (b: bool)
      reads this
      ensures b <==> key in mapping
    {
      GetItem(key).Ok?
    }

    /** Deletion: raises on an absent key; otherwise removes the key and
        then pops the value it held, which cascades along the chain of
        values that are themselves keys. */
    method DelItem(key: string) returns (r: Outcome<ConfigError>)
      requires Valid()
      modifies this
      decreases |mapping|, 0
      ensures Valid()
      ensures key !in old(mapping) ==>
                r == Fail(MissingKey(key)) && mapping == old(mapping) && order == old(order)
      ensures key in old(mapping) ==> r == Pass && mapping == CascadeDelete(old(mapping), key)
      ensures order == Filter(old(order), mapping.Keys)
    {
      var value := GetItem(key);
      if value.Err? {
        FilterKeepsAll(order, mapping.Keys);
        return Fail(value.error);
      }
      ghost var before := order;
      Remove(key);
      ghost var between := mapping.Keys;
      var _ := Pop(value.value);
      FilterFilter(before, between, mapping.Keys);
      r := Pass;
    }

    /** The mapping interface's `pop` with default `None`: an absent key
        changes nothing; a present key is deleted through `DelItem`, and its
        old value is returned. */
    method Pop(key: string) returns (r: Option<string>)
      requires Valid()
      modifies this
      decreases |mapping|, 1
      ensures Valid()
      ensures r == if key in old(mapping) then Some(old(mapping)[key]) else None
      ensures mapping == CascadeDelete(old(mapping), key)
      ensures order == Filter(old(order), mapping.Keys)
    {
      var value := GetItem(key);
      if value.Err? {
        FilterKeepsAll(order, mapping.Keys);
        return None;
      }
      var _ := DelItem(key);
      r := Some(value.value);
    }

    /** Assignment: on a present key, first deletes the entry whose KEY is
        the key's old value (raising, with nothing changed, when that value
        is not a key), then stores the new value. */
    method SetItem(key: string, value: string) returns (r: Outcome<ConfigError>)
      requires Valid()
      modifies this
      ensures Valid()
      ensures key !in old(mapping) ==>
                r == Pass && mapping == old(mapping)[key := value] && order == old(order) + [key]
      ensures key in old(mapping) && old(mapping)[key] !in old(mapping) ==>
                r == Fail(MissingKey(old(mapping)[key])) && mapping == old(mapping) && order == old(order)
      ensures key in old(mapping) && old(mapping)[key] in old(mapping) ==>
                var cleared := CascadeDelete(old(mapping), old(mapping)[key]);
                && r == Pass
                && mapping == cleared[key := value]
                && order == Filter(old(order), cleared.Keys) + (if key in cleared then [] else [key])
      ensures r == Pass ==> GetItem(key) == Ok(value)
      ensures r == Pass && key in old(mapping) && old(mapping)[key] != key ==>
                old(mapping)[key] !in mapping
    {
      if Contains(key) {
        var current := GetItem(key);
        r := DelItem(current.value);
        if r.Fail? {
          return;
        }
      }
      Store(key, value);
      r := Pass;
    }

    /** Iteration: the stored keys, each once, in insertion order. */
    function Iter(): (ks: seq<string>)
      reads this
      requires Valid()
      ensures Distinct(ks)
      ensures forall k :: k in ks <==> k in mapping
    {
      order
    }

    /** Length: the number of stored keys, which is the number of keys
        iteration yields. */
    function Len(): (n: nat)
      reads this
      requires Valid()
      ensures n == |Iter()|
    {
      DistinctCard(order);
      assert (set k | k in order) == mapping.Keys;
      |mapping|
    }
  }
}
