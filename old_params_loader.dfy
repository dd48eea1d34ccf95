/**
 * `old/old_ParamsLoader.py`: the earlier settings manager, which loads the
 * settings once into a field and reads dotted keys from that field.
 */
module OldParamsLoader {
  import opened Wrappers
  import opened PyValues
  import opened Text
  import ParamsLoader

  /**
   * The walk the old `get` performs: descend on a hit; on a miss return a
   * truthy default at once, otherwise log and go on to the next key from
   * the same value; at the end return the value reached.
   */
  function OldWalk(value: Value, keys: seq<string>, default: Value): Value
    decreases |keys|
  {
    if |keys| == 0 then value
    else if value.VDict? && keys[0] in value.entries then OldWalk(value.entries[keys[0]], keys[1..], default)
    else if Truthy(default) then default
    else OldWalk(value, keys[1..], default)
  }

  /** `ConfigManager`: the settings loaded from `settings.json`. */
  class ConfigManager {
    var settings: Value

    /** `__init__`: the settings file is found and loaded; its JSON value is given here. */
    constructor (loaded: Value)
      ensures settings == loaded
    {
      settings := loaded;
    }

    /** `refresh_config`: reload the settings file. */
    method RefreshConfig(loaded: Value)
      modifies this
      ensures settings == loaded
    {
      settings := loaded;
    }

    /**
     * `get(key, default_value)`: the dotted walk over the loaded settings.
     * It reads the field and changes nothing.
     */
    method Get(key: string, default: Value) returns (r: Value)
      ensures r == OldWalk(settings, Split(key, '.'), default)
    {
      var keys := Split(key, '.');
      var value := settings;
      var i := 0;
      while i < |keys|
        invariant i <= |keys|
        invariant OldWalk(settings, keys, default) == OldWalk(value, keys[i..], default)
      {
        var k := keys[i];
        assert keys[i..][0] == k && keys[i..][1..] == keys[i + 1..];
        if value.VDict? && k in value.entries {
          value := value.entries[k];
        } else if Truthy(default) {
          return default;
        }
        i := i + 1;
      }
      assert keys[i..] == [];
      return value;
    }
  }

  /** On a path that exists the old walk finds what the strict lookup finds. */
  lemma {:induction false} OldWalkHit(value: Value, keys: seq<string>, default: Value)
    requires Lookup(value, keys).Some?
    ensures OldWalk(value, keys, default) == Lookup(value, keys).value
    decreases |keys|
  {
    if |keys| > 0 {
      OldWalkHit(value.entries[keys[0]], keys[1..], default);
    }
  }

  /** On a miss with a truthy default, the old walk returns that default. */
  lemma {:induction false} OldWalkTruthyMiss(value: Value, keys: seq<string>, default: Value)
    requires Lookup(value, keys).None? && Truthy(default)
    ensures OldWalk(value, keys, default) == default
    decreases |keys|
  {
    if value.VDict? && keys[0] in value.entries {
      OldWalkTruthyMiss(value.entries[keys[0]], keys[1..], default);
    }
  }

  /**
   * So the old `get` and the current one agree except on a miss with a
   * falsy default, where the current one returns `None`.
   */
  lemma OldAgreesWithCurrent(settings: Value, keys: seq<string>, default: Value)
    requires Lookup(settings, keys).Some? || Truthy(default)
    ensures OldWalk(settings, keys, default) ==
      if Lookup(settings, keys).Some? then Lookup(settings, keys).value else ParamsLoader.MissValue(default)
  {
    if Lookup(settings, keys).Some? {
      OldWalkHit(settings, keys, default);
    } else {
      OldWalkTruthyMiss(settings, keys, default);
    }
  }

  /**
   * As written, a miss without a truthy default does not give `None`: the
   * missing key is skipped and the value reached so far comes back. Reading
   * `b` from `{"a": 1}` returns the whole settings, and reading `a.b.c` from
   * `{"a": {"c": 1}}` skips `b` and returns 1.
   */
  lemma OldWalkMissReturnsLastValue()
    ensures var settings := VDict(map["a" := VInt(1)]);
      && Lookup(settings, ["b"]) == None
      && OldWalk(settings, ["b"], VNone) == settings
    ensures var settings := VDict(map["a" := VDict(map["c" := VInt(1)])]);
      && Lookup(settings, ["a", "b", "c"]) == None
      && OldWalk(settings, ["a", "b", "c"], VNone) == VInt(1)
  {
    var s1 := VDict(map["a" := VInt(1)]);
    assert ["b"][1..] == [];
    var inner := VDict(map["c" := VInt(1)]);
    var s2 := VDict(map["a" := inner]);
    var ks := ["a", "b", "c"];
    assert ks[1..] == ["b", "c"] && ks[1..][1..] == ["c"] && ks[1..][1..][1..] == [];
    assert OldWalk(inner, ["c"], VNone) == VInt(1);
    assert OldWalk(inner, ["b", "c"], VNone) == VInt(1);
    assert Lookup(inner, ["b", "c"]) == None;
  }
}
