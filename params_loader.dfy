/**
 * `src/Utils/ParamsLoader.py`: dotted-key reads and writes of the settings
 * file. Every call reloads `settings.json`; here the JSON value it loads is
 * a parameter, and the write works on that freshly loaded copy.
 */
module ParamsLoader {
  import opened Wrappers
  import opened PyValues
  import opened Text

  /** What `ConfigManager.get` returns when the walk misses: a truthy default, else `None`. */
  function MissValue(default: Value): (r: Value)
    ensures Truthy(default) ==> r == default
    ensures !Truthy(default) ==> r == VNone
  {
    if Truthy(default) then default else VNone
  }

  /**
   * `ConfigManager.get(key, default_value)`: split the key on `.` and descend
   * one dict per piece. A hit returns the value found, falsy or not; a miss
   * (a missing key or a value that is not a dict) returns the default when
   * it is truthy and `None` otherwise.
   */
  method Get(settings: Value, key: string, default: Value) returns (r: Value)
    ensures Lookup(settings, Split(key, '.')).Some? ==> r == Lookup(settings, Split(key, '.')).value
    ensures Lookup(settings, Split(key, '.')).None? ==> r == MissValue(default)
  {
    var keys := Split(key, '.');
    var value := settings;
    var i := 0;
    while i < |keys|
      invariant i <= |keys|
      invariant Lookup(settings, keys) == Lookup(value, keys[i..])
    {
      var k := keys[i];
      assert keys[i..][0] == k && keys[i..][1..] == keys[i + 1..];
      if value.VDict? && k in value.entries {
        value := value.entries[k];
      } else {
        return MissValue(default);
      }
      i := i + 1;
    }
    assert keys[i..] == [];
    return value;
  }

  // ---------------------------------------------------------------------------
  // `ConfigManager.set`
  // ---------------------------------------------------------------------------

  /** The exceptions `set` can raise: item assignment on a non-dict, or a missing intermediate key. */
  datatype SetError = TypeError | KeyError

  /**
   * Replaces the value at `path` (every step but the last through a dict
   * that holds the key; the last into a dict), as an in-place item
   * assignment through aliases of the nested dicts does.
   */
  function SetAt(root: Value, path: seq<string>, v: Value): Value
    decreases |path|
  {
    if |path| == 0 then v
    else if root.VDict? then
      var child := if path[0] in root.entries then root.entries[path[0]] else VNone;
      VDict(root.entries[path[0] := SetAt(child, path[1..], v)])
    else root
  }

  /**
   * What `set` does to the loaded copy, in closed form. Its guard
   * `not isinstance(cur, dict) or k in cur` replaces an existing
   * intermediate dict with `{}` and leaves a missing one missing, so:
   * a one-piece key is assigned into the top-level dict; a two-piece key
   * needs its first piece present, and replaces that entry by a dict holding
   * only the second piece; a key of three or more pieces always raises
   * KeyError, because the second piece is looked up in the fresh `{}`.
   * Item assignment on a value that is not a dict raises TypeError.
   */
  function SetOutcome(settings: Value, keys: seq<string>, value: Value): Result<Value, SetError>
    requires |keys| >= 1
  {
    if !settings.VDict? then Err(TypeError)
    else if |keys| == 1 then Ok(VDict(settings.entries[keys[0] := value]))
    else if keys[0] !in settings.entries then Err(KeyError)
    else if |keys| == 2 then Ok(VDict(settings.entries[keys[0] := VDict(map[keys[1] := value])]))
    else Err(KeyError)
  }

  /**
   * `ConfigManager.set(key, value)`: the loaded copy after the assignment,
   * or the exception raised. The copy is never written back, so the
   * settings a later `Get` reloads are the ones given here.
   */
  method Set(settings: Value, key: string, value: Value) returns (r: Result<Value, SetError>)
    ensures r == SetOutcome(settings, Split(key, '.'), value)
  {
    var keys := Split(key, '.');
    var root := settings;
    var cur := settings;
    var path: seq<string> := [];
    var i := 0;
    while i < |keys| - 1
      invariant i <= |keys| - 1 && i <= 1
      invariant i == 0 ==> root == settings && cur == settings && path == []
      invariant i == 1 ==>
        && settings.VDict? && keys[0] in settings.entries
        && path == [keys[0]] && cur == VDict(map[])
        && root == VDict(settings.entries[keys[0] := VDict(map[])])
    {
      var k := keys[i];
      if !cur.VDict? {
        return Err(TypeError);
      }
      if k in cur.entries {
        assert path + [k] == [k] && [k][1..] == [];
        assert SetAt(cur.entries[k], [], VDict(map[])) == VDict(map[]);
        root := SetAt(root, path + [k], VDict(map[]));
        assert root == VDict(settings.entries[k := VDict(map[])]);
        cur := VDict(cur.entries[k := VDict(map[])]);
      }
      if k !in cur.entries {
        return Err(KeyError);
      }
      cur := cur.entries[k];
      path := path + [k];
      i := i + 1;
    }
    if !cur.VDict? {
      return Err(TypeError);
    }
    var last := keys[|keys| - 1];
    assert [last][1..] == [];
    if i == 1 {
      assert path + [last] == [keys[0], last] && [keys[0], last][1..] == [last];
      assert SetAt(VDict(map[]), [last], value) == VDict(map[last := value]) by {
        assert SetAt(VNone, [], value) == value;
        assert map[][last := value] == map[last := value];
      }
      assert root.entries[keys[0] := VDict(map[last := value])] == settings.entries[keys[0] := VDict(map[last := value])];
      assert root.entries[keys[0]] == VDict(map[]);
      root := SetAt(root, path + [last], value);
      assert root == VDict(settings.entries[keys[0] := VDict(map[last := value])]);
    } else {
      assert path + [last] == [last] && |keys| == 1;
      var child := if last in root.entries then root.entries[last] else VNone;
      assert SetAt(child, [], value) == value;
      root := SetAt(root, path + [last], value);
      assert root == VDict(settings.entries[last := value]);
    }
    return Ok(root);
  }

  /** A key of three or more pieces can never be set: it always raises. */
  lemma SetDeepKeyRaises(settings: Value, keys: seq<string>, value: Value)
    requires |keys| >= 3
    ensures SetOutcome(settings, keys, value).Err?
  {
  }

  /** Whatever `set` manages to assign is what `get` then finds in that copy. */
  lemma SetThenLookup(settings: Value, keys: seq<string>, value: Value)
    requires |keys| >= 1 && SetOutcome(settings, keys, value).Ok?
    ensures Lookup(SetOutcome(settings, keys, value).value, keys) == Some(value)
  {
    if |keys| == 2 {
      assert keys[1..] == [keys[1]] && keys[1..][1..] == [];
    } else {
      assert keys[1..] == [];
    }
  }

  /**
   * Setting `a.b` throws away every other entry under `a`: an existing
   * sibling `a.c` is no longer found in the copy.
   */
  lemma SetTwoPiecesDropsSiblings(settings: Value, keys: seq<string>, value: Value, sibling: string)
    requires |keys| == 2 && sibling != keys[1]
    requires Lookup(settings, [keys[0], sibling]).Some?
    ensures SetOutcome(settings, keys, value).Ok?
    ensures Lookup(SetOutcome(settings, keys, value).value, [keys[0], sibling]) == None
  {
    assert [keys[0], sibling][1..] == [sibling];
  }

  /** Top-level entries other than the first piece are left as they were. */
  lemma SetKeepsOtherEntries(settings: Value, keys: seq<string>, value: Value, other: string)
    requires |keys| >= 1 && SetOutcome(settings, keys, value).Ok? && other != keys[0]
    ensures settings.VDict? && SetOutcome(settings, keys, value).value.VDict?
    ensures other in settings.entries <==> other in SetOutcome(settings, keys, value).value.entries
    ensures other in settings.entries ==> SetOutcome(settings, keys, value).value.entries[other] == settings.entries[other]
  {
  }

  // ---------------------------------------------------------------------------
  // What `set` evidently means to do
  // ---------------------------------------------------------------------------

  /**
   * The assignment the guard evidently intends: descend through existing
   * dicts, create a missing intermediate as `{}`, keep everything else, and
   * raise TypeError where an existing value on the path is not a dict.
   */
  function SetIntended(settings: Value, keys: seq<string>, value: Value): Result<Value, SetError>
    requires |keys| >= 1
    decreases |keys|
  {
    if !settings.VDict? then Err(TypeError)
    else if |keys| == 1 then Ok(VDict(settings.entries[keys[0] := value]))
    else
      var child := if keys[0] in settings.entries then settings.entries[keys[0]] else VDict(map[]);
      match SetIntended(child, keys[1..], value)
      case Err(e) => Err(e)
      case Ok(c) => Ok(VDict(settings.entries[keys[0] := c]))
  }

  /** The intended assignment is found again by the dotted lookup, at any depth. */
  lemma {:induction false} SetIntendedThenLookup(settings: Value, keys: seq<string>, value: Value)
    requires |keys| >= 1 && SetIntended(settings, keys, value).Ok?
    ensures Lookup(SetIntended(settings, keys, value).value, keys) == Some(value)
    decreases |keys|
  {
    if |keys| > 1 {
      var child := if keys[0] in settings.entries then settings.entries[keys[0]] else VDict(map[]);
      SetIntendedThenLookup(child, keys[1..], value);
    }
  }

  /**
   * The intended assignment leaves every sibling on the path alone: a key
   * next to any piece of the path is found exactly as before.
   */
  lemma {:induction false} SetIntendedKeepsSiblings(settings: Value, keys: seq<string>, value: Value, j: nat, sibling: string)
    requires |keys| >= 1 && SetIntended(settings, keys, value).Ok?
    requires j < |keys| && sibling != keys[j] && Lookup(settings, keys[..j]).Some?
    ensures Lookup(SetIntended(settings, keys, value).value, keys[..j] + [sibling]) == Lookup(settings, keys[..j] + [sibling])
    decreases |keys|
  {
    var r := SetIntended(settings, keys, value).value;
    if j == 0 {
      assert keys[..0] + [sibling] == [sibling];
      assert [sibling][1..] == [];
    } else {
      var child := if keys[0] in settings.entries then settings.entries[keys[0]] else VDict(map[]);
      assert keys[0] in settings.entries;
      assert keys[..j][1..] == keys[1..][..j - 1];
      assert (keys[..j] + [sibling])[0] == keys[0];
      assert (keys[..j] + [sibling])[1..] == keys[1..][..j - 1] + [sibling];
      SetIntendedKeepsSiblings(child, keys[1..], value, j - 1, sibling);
    }
  }

  /** The two agree on a one-piece key. */
  lemma SetOneKeyAgrees(settings: Value, key: string, value: Value)
    ensures SetOutcome(settings, [key], value) == SetIntended(settings, [key], value)
  {
  }

  /**
   * As written, setting `a.b` where `a` holds `{"b": 1, "c": 2}` leaves `a`
   * holding `{"b": 5}` only, where the intended assignment keeps `"c"`; and
   * `a.b.c` raises KeyError even though the path exists.
   */
  lemma SetAsWrittenLosesData()
    ensures var inner := VDict(map["b" := VInt(1), "c" := VInt(2)]);
      var settings := VDict(map["a" := inner]);
      && SetOutcome(settings, ["a", "b"], VInt(5)) == Ok(VDict(map["a" := VDict(map["b" := VInt(5)])]))
      && SetIntended(settings, ["a", "b"], VInt(5)) == Ok(VDict(map["a" := VDict(map["b" := VInt(5), "c" := VInt(2)])]))
      && SetOutcome(VDict(map["a" := VDict(map["b" := inner])]), ["a", "b", "c"], VInt(5)) == Err(KeyError)
  {
    var inner := VDict(map["b" := VInt(1), "c" := VInt(2)]);
    var settings := VDict(map["a" := inner]);
    assert ["a", "b"][1..] == ["b"];
    var updated := VDict(map["b" := VInt(5), "c" := VInt(2)]);
    assert inner.entries["b" := VInt(5)] == updated.entries;
    assert SetIntended(inner, ["b"], VInt(5)) == Ok(updated);
    assert settings.entries["a" := updated] == map["a" := updated];
    assert settings.entries["a" := VDict(map["b" := VInt(5)])] == map["a" := VDict(map["b" := VInt(5)])];
  }
}
