/**
 * `parse_params`: the map from parameter key to the stripped text of the
 * line that declares it, built over the lines of one `player_variables.scr`.
 */
module ParamSet {
  import opened Wrappers
  import opened Text
  import opened ParamLine

  type ParamMap = map<string, string>

  /** Line `i` of `lines` declares `key`. */
  predicate KeyedAt(lines: seq<string>, i: int, key: string) {
    0 <= i < |lines| && GetParamKey(lines[i]) == Some(key)
  }

  /** The parameter set of `lines`, read one line after the other. */
  function ParamsOf(lines: seq<string>): ParamMap
    decreases |lines|
  {
    if lines == [] then map[]
    else
      var last := lines[|lines| - 1];
      var prev := ParamsOf(lines[..|lines| - 1]);
      match GetParamKey(last)
      case None => prev
      case Some(key) => prev[key := Strip(last)]
  }

  /** The loop of `parse_params`: later lines overwrite earlier ones with the same key. */
  method ParseParams(lines: seq<string>) returns (params: ParamMap)
    ensures params == ParamsOf(lines)
  {
    params := map[];
    for i := 0 to |lines|
      invariant params == ParamsOf(lines[..i])
    {
      assert lines[..i + 1][..i] == lines[..i];
      var key := GetParamKey(lines[i]);
      if key.Some? {
        params := params[key.value := Strip(lines[i])];
      }
    }
    assert lines[..|lines|] == lines;
  }

  /** Line `i` is the last line of `lines` that declares `key`. */
  predicate LastKeyedAt(lines: seq<string>, i: int, key: string) {
    KeyedAt(lines, i, key) && forall j :: i < j < |lines| ==> !KeyedAt(lines, j, key)
  }

  /** Exactly the keys that some line declares are in the parameter set. */
  lemma {:induction false} ParamsOfKeys(lines: seq<string>, key: string)
    ensures key in ParamsOf(lines) <==> exists i :: KeyedAt(lines, i, key)
    decreases |lines|
  {
    if lines != [] {
      var n := |lines| - 1;
      var init := lines[..n];
      ParamsOfKeys(init, key);
      if GetParamKey(lines[n]) == Some(key) {
        assert KeyedAt(lines, n, key);
      } else {
        if exists i :: KeyedAt(init, i, key) {
          var i :| KeyedAt(init, i, key);
          assert KeyedAt(lines, i, key);
        }
        if exists i :: KeyedAt(lines, i, key) {
          var i :| KeyedAt(lines, i, key);
          assert KeyedAt(init, i, key);
        }
      }
    }
  }

  /** A key's value is the stripped text of the last line that declares it. */
  lemma {:induction false} ParamsOfLastWins(lines: seq<string>, i: int, key: string)
    requires LastKeyedAt(lines, i, key)
    ensures key in ParamsOf(lines) && ParamsOf(lines)[key] == Strip(lines[i])
    decreases |lines|
  {
    var n := |lines| - 1;
    if i < n {
      var init := lines[..n];
      assert KeyedAt(init, i, key);
      forall j | i < j < |init| ensures !KeyedAt(init, j, key) {
        assert !KeyedAt(lines, j, key);
      }
      ParamsOfLastWins(init, i, key);
      assert !KeyedAt(lines, n, key);
    }
  }

  /** Every key in the set has a last declaring line, and its value is that line stripped. */
  lemma {:induction false} ParamsOfValues(lines: seq<string>, key: string)
    requires key in ParamsOf(lines)
    ensures exists i :: LastKeyedAt(lines, i, key) && ParamsOf(lines)[key] == Strip(lines[i])
    decreases |lines|
  {
    var n := |lines| - 1;
    if GetParamKey(lines[n]) == Some(key) {
      assert LastKeyedAt(lines, n, key);
    } else {
      var init := lines[..n];
      assert key in ParamsOf(init) && ParamsOf(lines)[key] == ParamsOf(init)[key];
      ParamsOfValues(init, key);
      var i :| LastKeyedAt(init, i, key) && ParamsOf(init)[key] == Strip(init[i]);
      LastKeyedExtend(lines, i, key);
    }
  }

  /** A last declaration of `key` stays the last when a line not declaring it follows. */
  lemma LastKeyedExtend(lines: seq<string>, i: int, key: string)
    requires lines != [] && GetParamKey(lines[|lines| - 1]) != Some(key)
    requires LastKeyedAt(lines[..|lines| - 1], i, key)
    ensures LastKeyedAt(lines, i, key) && lines[i] == lines[..|lines| - 1][i]
  {
    var init := lines[..|lines| - 1];
    assert init[i] == lines[i];
    forall j | i < j < |lines| ensures !KeyedAt(lines, j, key) {
      if j < |init| {
        assert init[j] == lines[j];
        assert !KeyedAt(init, j, key);
      }
    }
  }
}
