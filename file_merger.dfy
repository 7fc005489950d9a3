/**
 * The line-patching part of `apply_changes_and_archive`: overwrite the base
 * lines of changed keys, then insert the lines of new keys before the last
 * line (other than the first) that contains a closing brace, or append them.
 */
module FileMerger {
  import opened Wrappers
  import opened Records
  import opened ParamLine
  import opened ParamSet

  /** The text written for a chosen value: four spaces of indentation and a newline. */
  function Indented(v: string): string {
    "    " + v + "\n"
  }

  /** Each value as an indented line. */
  function IndentAll(vs: seq<string>): (r: seq<string>)
    ensures |r| == |vs| && forall t :: 0 <= t < |vs| ==> r[t] == Indented(vs[t])
  {
    seq(|vs|, t requires 0 <= t < |vs| => Indented(vs[t]))
  }

  /** `base_params_map`: each declared key to the index of its line; a later line overwrites an earlier one. */
  function KeyIndex(lines: seq<string>): (r: map<string, int>)
    ensures forall k :: k in r ==> LastKeyedAt(lines, r[k], k)
    ensures forall k, i :: k !in r && 0 <= i < |lines| ==> !KeyedAt(lines, i, k)
    decreases |lines|
  {
    if lines == [] then map[]
    else
      var n := |lines| - 1;
      var prev := KeyIndex(lines[..n]);
      assert forall i, k :: 0 <= i < n ==> (KeyedAt(lines[..n], i, k) <==> KeyedAt(lines, i, k));
      match GetParamKey(lines[n])
      case None => prev
      case Some(k) => prev[k := n]
  }

  /** The value of the last entry for `k`, as the sequence of assignments leaves it. */
  function Lookup(changes: seq<Entry>, k: string): Option<string>
    decreases |changes|
  {
    if changes == [] then None
    else
      var last := changes[|changes| - 1];
      if last.key == k then Some(last.value) else Lookup(changes[..|changes| - 1], k)
  }

  /** Line `i` after the replacement loop: overwritten if it is the indexed line of a changed key. */
  function ReplacedAt(base: seq<string>, idx: map<string, int>, changes: seq<Entry>, i: nat): string
    requires i < |base|
  {
    match GetParamKey(base[i])
    case None => base[i]
    case Some(k) =>
      if k in idx && idx[k] == i && Lookup(changes, k).Some? then Indented(Lookup(changes, k).value) else base[i]
  }

  /** The lines after the replacement loop. */
  function Replaced(base: seq<string>, changes: seq<Entry>): (r: seq<string>)
    ensures |r| == |base|
  {
    seq(|base|, i requires 0 <= i < |base| => ReplacedAt(base, KeyIndex(base), changes, i))
  }

  /** `new_params`: the values of entries whose key the base does not declare, in entry order. */
  function NewValues(changes: seq<Entry>, idx: map<string, int>): seq<string>
    decreases |changes|
  {
    if changes == [] then []
    else
      var last := changes[|changes| - 1];
      NewValues(changes[..|changes| - 1], idx) + (if last.key in idx then [] else [last.value])
  }

  /** The positions, in ascending order, of the entries whose key the base does not declare. */
  function NewPositions(changes: seq<Entry>, idx: map<string, int>): (r: seq<nat>)
    ensures forall t :: 0 <= t < |r| ==> r[t] < |changes| && changes[r[t]].key !in idx
    ensures forall s, t :: 0 <= s < t < |r| ==> r[s] < r[t]
    ensures forall j :: 0 <= j < |changes| && changes[j].key !in idx ==> j in r
    decreases |changes|
  {
    if changes == [] then []
    else
      var n := |changes| - 1;
      var prev := NewPositions(changes[..n], idx);
      prev + (if changes[n].key in idx then [] else [n])
  }

  /** The backwards scan from line `i` down to line 1 for a line containing `}`. */
  function Scan(lines: seq<string>, i: int): (r: Option<nat>)
    requires i < |lines|
    ensures r.Some? ==> 1 <= r.value <= i && '}' in lines[r.value]
    ensures r.Some? ==> forall q :: r.value < q <= i ==> '}' !in lines[q]
    ensures r.None? ==> forall q :: 1 <= q <= i ==> '}' !in lines[q]
    decreases i
  {
    if i <= 0 then None
    else if '}' in lines[i] then Some(i)
    else Scan(lines, i - 1)
  }

  /** `insertion_point`: the last line at index 1 or more containing `}`; line 0 is never examined. */
  function InsertionPoint(lines: seq<string>): (r: Option<nat>)
    ensures r.Some? ==> 1 <= r.value < |lines| && '}' in lines[r.value]
    ensures r.Some? ==> forall q :: r.value < q < |lines| ==> '}' !in lines[q]
    ensures r.None? ==> forall q :: 1 <= q < |lines| ==> '}' !in lines[q]
  {
    Scan(lines, |lines| - 1)
  }

  /** The patched lines. */
  function MergeLines(base: seq<string>, changes: seq<Entry>): seq<string> {
    var r := Replaced(base, changes);
    var nv := IndentAll(NewValues(changes, KeyIndex(base)));
    if nv == [] then r
    else match InsertionPoint(r)
      case Some(p) => r[..p] + nv + r[p..]
      case None => r + nv
  }

  /** Lines 16-48 of `apply_changes_and_archive`, on the lines of the base file. */
  method ApplyChanges(base: seq<string>, changes: seq<Entry>) returns (out: seq<string>)
    ensures out == MergeLines(base, changes)
  {
    var newParams;
    out, newParams := ReplaceExisting(base, changes);
    if newParams != [] {
      var point := FindInsertionPoint(out);
      match point
      case Some(p) =>
        out := InsertBefore(out, p, newParams);
      case None =>
        out := AppendAll(out, newParams);
    }
  }

  /** Step 1: overwrite the indexed line of each changed key, and collect the values of new keys. */
  method ReplaceExisting(base: seq<string>, changes: seq<Entry>) returns (out: seq<string>, newParams: seq<string>)
    ensures out == Replaced(base, changes)
    ensures newParams == NewValues(changes, KeyIndex(base))
  {
    out := base;
    var idx := KeyIndex(base);
    newParams := [];
    for j := 0 to |changes|
      invariant |out| == |base|
      invariant forall i :: 0 <= i < |base| ==> out[i] == ReplacedAt(base, idx, changes[..j], i)
      invariant newParams == NewValues(changes[..j], idx)
    {
      var e := changes[j];
      forall i | 0 <= i < |base|
        ensures ReplacedAt(base, idx, changes[..j + 1], i) ==
          if e.key in idx && idx[e.key] == i then Indented(e.value) else ReplacedAt(base, idx, changes[..j], i)
      {
        ReplaceStepAt(base, idx, changes, j, i);
      }
      NewValuesStep(changes, idx, j);
      if e.key in idx {
        out := out[idx[e.key] := Indented(e.value)];
      } else {
        newParams := newParams + [e.value];
      }
    }
    assert changes[..|changes|] == changes;
  }

  /** The backwards scan over lines `len - 1` down to 1, stopping at the first line containing `}`. */
  method FindInsertionPoint(lines: seq<string>) returns (point: Option<nat>)
    ensures point == InsertionPoint(lines)
  {
    point := None;
    var i := |lines| - 1;
    while i > 0
      invariant i < |lines|
      invariant InsertionPoint(lines) == Scan(lines, i)
      decreases i
    {
      if '}' in lines[i] {
        point := Some(i);
        break;
      }
      i := i - 1;
    }
  }

  /** Inserts the new lines at `p`, last value first, so that they end up in their own order. */
  method InsertBefore(lines: seq<string>, p: nat, newParams: seq<string>) returns (out: seq<string>)
    requires p <= |lines|
    ensures out == lines[..p] + IndentAll(newParams) + lines[p..]
  {
    out := lines;
    var t := |newParams|;
    assert newParams[t..] == [];
    while t > 0
      invariant 0 <= t <= |newParams|
      invariant out == lines[..p] + IndentAll(newParams[t..]) + lines[p..]
      decreases t
    {
      t := t - 1;
      assert IndentAll(newParams[t..]) == [Indented(newParams[t])] + IndentAll(newParams[t + 1..]);
      out := out[..p] + [Indented(newParams[t])] + out[p..];
    }
    assert newParams[0..] == newParams;
  }

  /** The fallback when no line qualifies: the new lines go after the last line. */
  method AppendAll(lines: seq<string>, newParams: seq<string>) returns (out: seq<string>)
    ensures out == lines + IndentAll(newParams)
  {
    out := lines;
    for t := 0 to |newParams|
      invariant out == lines + IndentAll(newParams[..t])
    {
      assert IndentAll(newParams[..t + 1]) == IndentAll(newParams[..t]) + [Indented(newParams[t])];
      out := out + [Indented(newParams[t])];
    }
    assert newParams[..|newParams|] == newParams;
  }

  /** The last entry of a longer prefix decides `Lookup` for its own key only. */
  lemma LookupStep(changes: seq<Entry>, j: nat, k: string)
    requires j < |changes|
    ensures Lookup(changes[..j + 1], k) == if changes[j].key == k then Some(changes[j].value) else Lookup(changes[..j], k)
  {
    assert changes[..j + 1][..j] == changes[..j];
  }

  /** One iteration of the replacement loop, on line `i`. */
  lemma ReplaceStepAt(base: seq<string>, idx: map<string, int>, changes: seq<Entry>, j: nat, i: nat)
    requires idx == KeyIndex(base) && j < |changes| && i < |base|
    ensures ReplacedAt(base, idx, changes[..j + 1], i) ==
      if changes[j].key in idx && idx[changes[j].key] == i then Indented(changes[j].value)
      else ReplacedAt(base, idx, changes[..j], i)
  {
    var e := changes[j];
    LookupStep(changes, j, e.key);
    if e.key in idx && idx[e.key] == i {
      assert KeyedAt(base, i, e.key);
    }
    if GetParamKey(base[i]).Some? {
      LookupStep(changes, j, GetParamKey(base[i]).value);
    }
  }

  /** One iteration of the replacement loop, on the collected new values. */
  lemma NewValuesStep(changes: seq<Entry>, idx: map<string, int>, j: nat)
    requires j < |changes|
    ensures NewValues(changes[..j + 1], idx) ==
      NewValues(changes[..j], idx) + (if changes[j].key in idx then [] else [changes[j].value])
  {
    assert changes[..j + 1][..j] == changes[..j];
  }

  // ---------------------------------------------------------------------------
  // What the patching promises.

  /** The key index and the parameter set of the same lines have the same keys. */
  lemma KeyIndexKeys(lines: seq<string>, k: string)
    ensures k in KeyIndex(lines) <==> k in ParamsOf(lines)
  {
    ParamsOfKeys(lines, k);
    if k in ParamsOf(lines) {
      var i :| KeyedAt(lines, i, k);
    }
  }

  /** The index of a key is its last declaring line, and no other line. */
  lemma KeyIndexLast(lines: seq<string>, i: int, k: string)
    ensures LastKeyedAt(lines, i, k) <==> k in KeyIndex(lines) && KeyIndex(lines)[k] == i
  {
    var idx := KeyIndex(lines);
    if LastKeyedAt(lines, i, k) && k in idx {
      var l := idx[k];
      assert LastKeyedAt(lines, l, k);
      assert !(i < l) && !(l < i);
    }
  }

  /** `Lookup` finds a key exactly when some entry has it; with distinct keys it finds that entry's value. */
  lemma {:induction false} LookupSpec(changes: seq<Entry>, k: string)
    ensures Lookup(changes, k).Some? <==> HasKey(changes, k)
    ensures DistinctKeys(changes) ==> forall j :: 0 <= j < |changes| && changes[j].key == k ==>
      Lookup(changes, k) == Some(changes[j].value)
    decreases |changes|
  {
    if changes != [] {
      var n := |changes| - 1;
      var init := changes[..n];
      LookupSpec(init, k);
      assert forall j :: 0 <= j < n ==> init[j] == changes[j];
      if HasKey(init, k) {
        var j :| 0 <= j < n && init[j].key == k;
        assert changes[j].key == k;
      }
      if HasKey(changes, k) && changes[n].key != k {
        var j :| 0 <= j < |changes| && changes[j].key == k;
        assert init[j].key == k;
      }
    }
  }

  /** Patching with no changes gives back the base lines. */
  lemma MergeLinesEmpty(base: seq<string>)
    ensures MergeLines(base, []) == base
  {
    var r := Replaced(base, []);
    assert NewValues([], KeyIndex(base)) == [];
    forall i | 0 <= i < |base| ensures r[i] == base[i] { }
  }

  /**
   * With distinct keys, the replacement overwrites the last base line that
   * declares a changed key with that key's indented value, and keeps every
   * other base line as it is.
   */
  lemma ReplacedSpec(base: seq<string>, changes: seq<Entry>)
    requires DistinctKeys(changes)
    ensures forall i, j :: 0 <= i < |base| && 0 <= j < |changes| && LastKeyedAt(base, i, changes[j].key) ==>
      Replaced(base, changes)[i] == Indented(changes[j].value)
    ensures forall i :: 0 <= i < |base| && (forall j :: 0 <= j < |changes| ==> !LastKeyedAt(base, i, changes[j].key)) ==>
      Replaced(base, changes)[i] == base[i]
  {
    var idx := KeyIndex(base);
    forall i, j | 0 <= i < |base| && 0 <= j < |changes| && LastKeyedAt(base, i, changes[j].key)
      ensures Replaced(base, changes)[i] == Indented(changes[j].value)
    {
      var k := changes[j].key;
      KeyIndexLast(base, i, k);
      LookupSpec(changes, k);
    }
    forall i | 0 <= i < |base| && (forall j :: 0 <= j < |changes| ==> !LastKeyedAt(base, i, changes[j].key))
      ensures Replaced(base, changes)[i] == base[i]
    {
      if GetParamKey(base[i]).Some? {
        var k := GetParamKey(base[i]).value;
        if k in idx && idx[k] == i && Lookup(changes, k).Some? {
          KeyIndexLast(base, i, k);
          LookupSpec(changes, k);
          assert false;
        }
      }
    }
  }

  /** The collected new values are the values at the new positions, in that order. */
  lemma {:induction false} NewValuesAt(changes: seq<Entry>, idx: map<string, int>)
    ensures |NewValues(changes, idx)| == |NewPositions(changes, idx)|
    ensures forall t :: 0 <= t < |NewValues(changes, idx)| ==>
      NewValues(changes, idx)[t] == changes[NewPositions(changes, idx)[t]].value
    decreases |changes|
  {
    if changes != [] {
      var n := |changes| - 1;
      var init := changes[..n];
      NewValuesAt(init, idx);
      var vs, ps := NewValues(init, idx), NewPositions(init, idx);
      var added := changes[n].key !in idx;
      assert NewValues(changes, idx) == vs + (if added then [changes[n].value] else []);
      assert NewPositions(changes, idx) == ps + (if added then [n] else []);
      forall t | 0 <= t < |NewValues(changes, idx)|
        ensures NewValues(changes, idx)[t] == changes[NewPositions(changes, idx)[t]].value
      {
        if t < |vs| {
          assert changes[ps[t]] == init[ps[t]];
        }
      }
    }
  }

  /**
   * The patched file has one more line per entry whose key the base does not
   * declare; those lines form one block, in entry order, placed just before the
   * last line at index 1 or more of the replaced file that contains `}`, which
   * follows the block unchanged; if there is no such line the block is appended.
   */
  lemma MergeLinesShape(base: seq<string>, changes: seq<Entry>)
    ensures var r := Replaced(base, changes);
      var nv := IndentAll(NewValues(changes, KeyIndex(base)));
      && |MergeLines(base, changes)| == |base| + |NewPositions(changes, KeyIndex(base))|
      && (forall t :: 0 <= t < |nv| ==> nv[t] == Indented(changes[NewPositions(changes, KeyIndex(base))[t]].value))
      && (nv != [] && InsertionPoint(r).Some? ==>
            var p := InsertionPoint(r).value;
            && 1 <= p < |r| && '}' in r[p] && (forall q :: p < q < |r| ==> '}' !in r[q])
            && MergeLines(base, changes)[..p] == r[..p]
            && MergeLines(base, changes)[p..p + |nv|] == nv
            && MergeLines(base, changes)[p + |nv|..] == r[p..])
      && (nv != [] && InsertionPoint(r).None? ==>
            && (forall q :: 1 <= q < |r| ==> '}' !in r[q])
            && MergeLines(base, changes) == r + nv)
  {
    var r := Replaced(base, changes);
    var nv := IndentAll(NewValues(changes, KeyIndex(base)));
    NewValuesAt(changes, KeyIndex(base));
    if nv != [] && InsertionPoint(r).Some? {
      var p := InsertionPoint(r).value;
      var m := r[..p] + nv + r[p..];
      assert m[..p] == r[..p];
      assert m[p..p + |nv|] == nv;
      assert m[p + |nv|..] == r[p..];
    }
  }

  /** With distinct keys, every chosen value ends up as an indented line of the patched file. */
  lemma MergeLinesContainsAll(base: seq<string>, changes: seq<Entry>)
    requires DistinctKeys(changes)
    ensures forall j :: 0 <= j < |changes| ==> Indented(changes[j].value) in MergeLines(base, changes)
  {
    var idx := KeyIndex(base);
    var r := Replaced(base, changes);
    var nv := IndentAll(NewValues(changes, idx));
    var m := MergeLines(base, changes);
    assert forall x :: x in r || x in nv ==> x in m;
    NewValuesAt(changes, idx);
    forall j | 0 <= j < |changes| ensures Indented(changes[j].value) in m {
      var k := changes[j].key;
      if k in idx {
        var i := idx[k];
        ReplacedSpec(base, changes);
        assert r[i] == Indented(changes[j].value);
      } else {
        var ps := NewPositions(changes, idx);
        var t :| 0 <= t < |ps| && ps[t] == j;
        assert nv[t] == Indented(changes[j].value);
      }
    }
  }

  /** A closing brace on the first line is never seen: a new parameter then goes at the end. */
  lemma BraceOnFirstLineIgnored()
    ensures MergeLines(["}\n"], [Entry("k", "Param(\"k\", 1);")]) == ["}\n", "    Param(\"k\", 1);\n"]
  {
    var base := ["}\n"];
    var changes := [Entry("k", "Param(\"k\", 1);")];
    assert GetParamKey(base[0]) == None;
    assert KeyIndex(base) == map[];
    assert NewValues(changes, map[]) == ["Param(\"k\", 1);"];
    assert Replaced(base, changes) == base;
    var v := "Param(\"k\", 1);";
    assert IndentAll([v]) == [Indented(v)];
    assert Indented(v) == "    Param(\"k\", 1);\n";
    assert InsertionPoint(base) == None;
  }
}
