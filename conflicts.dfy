/**
 * Conflict aggregation in `analyze_and_resolve_player_vars`: for every key a
 * mod changes, the distinct values the mods propose that differ from the
 * base, each tagged with the first mod that proposed it.
 */
module Conflicts {
  import opened ParamSet
  import opened Records

  /** One mod's `player_variables.scr`: its display name and its lines. */
  datatype ModFile = ModFile(source: string, lines: seq<string>)

  /** One mod after `parse_params`: its display name and its parameter set. */
  datatype ModParams = ModParams(source: string, params: ParamMap)

  /** Every mod's parameter set, in the order the mods are given. */
  function Parsed(mods: seq<ModFile>): (r: seq<ModParams>)
    ensures |r| == |mods|
    ensures forall i :: 0 <= i < |mods| ==> r[i] == ModParams(mods[i].source, ParamsOf(mods[i].lines))
  {
    seq(|mods|, i requires 0 <= i < |mods| => ModParams(mods[i].source, ParamsOf(mods[i].lines)))
  }

  /** `changes_map`: key to its candidate list. */
  type Changes = map<string, seq<Candidate>>

  /** `base_params.get(key) != mod_value`: a key absent from the base always differs. */
  predicate Differs(base: ParamMap, key: string, value: string) {
    key !in base || base[key] != value
  }

  /** The candidates recorded for `key` so far, none if the key has no list yet. */
  function CandidatesOf(changes: Changes, key: string): seq<Candidate> {
    if key in changes then changes[key] else []
  }

  /** Appends `c` unless a candidate with the same value is already listed. */
  function AddNew(cs: seq<Candidate>, c: Candidate): seq<Candidate> {
    if HasPayload(cs, c.payload) then cs else cs + [c]
  }

  /** The keys among `done` whose value in `params` differs from the base. */
  function ChangedKeys(base: ParamMap, params: ParamMap, done: set<string>): set<string> {
    set k | k in done && k in params && Differs(base, k, params[k])
  }

  /** `changes_map` after visiting the keys `done` of one mod's parameter set. */
  function StepOn(changes: Changes, base: ParamMap, source: string, params: ParamMap, done: set<string>): Changes {
    map key | key in changes.Keys + ChangedKeys(base, params, done) ::
      if key in ChangedKeys(base, params, done) then AddNew(CandidatesOf(changes, key), Candidate(source, params[key]))
      else changes[key]
  }

  /** `changes_map` after the loop over `mods`, in the order the mods are given. */
  function Aggregate(base: ParamMap, mods: seq<ModParams>): Changes
    decreases |mods|
  {
    if mods == [] then map[]
    else
      var last := mods[|mods| - 1];
      StepOn(Aggregate(base, mods[..|mods| - 1]), base, last.source, last.params, last.params.Keys)
  }

  /** Visiting one more key of a mod's parameter set changes at most that key's list. */
  lemma StepOnVisit(changes: Changes, base: ParamMap, source: string, params: ParamMap, done: set<string>, key: string)
    requires key in params && key !in done
    ensures Differs(base, key, params[key]) ==>
      StepOn(changes, base, source, params, done + {key})
        == StepOn(changes, base, source, params, done)[key :=
             AddNew(CandidatesOf(StepOn(changes, base, source, params, done), key), Candidate(source, params[key]))]
    ensures !Differs(base, key, params[key]) ==>
      StepOn(changes, base, source, params, done + {key}) == StepOn(changes, base, source, params, done)
  {
    if Differs(base, key, params[key]) {
      assert ChangedKeys(base, params, done + {key}) == ChangedKeys(base, params, done) + {key};
    } else {
      assert ChangedKeys(base, params, done + {key}) == ChangedKeys(base, params, done);
    }
  }

  /** The inner loop: one mod's parameters merged into `changes_map`, key by key. */
  method MergeModParams(changes0: Changes, base: ParamMap, source: string, params: ParamMap)
    returns (changes: Changes)
    ensures changes == StepOn(changes0, base, source, params, params.Keys)
  {
    changes := changes0;
    var todo := params.Keys;
    ghost var done: set<string> := {};
    while todo != {}
      invariant todo <= params.Keys && done == params.Keys - todo
      invariant changes == StepOn(changes0, base, source, params, done)
      decreases todo
    {
      var key :| key in todo;
      changes := MergeKey(changes, changes0, base, source, params, done, key);
      MoveKey(params.Keys, todo, done, key);
      done := done + {key};
      todo := todo - {key};
    }
    MoveKey(params.Keys, todo, done, "");
  }

  /** Moving `key` from the keys to visit to the keys visited keeps them a partition of `all`. */
  lemma MoveKey(all: set<string>, todo: set<string>, done: set<string>, key: string)
    requires todo <= all && done == all - todo
    ensures key in todo ==> todo - {key} <= all && done + {key} == all - (todo - {key})
    ensures todo == {} ==> done == all
  {
  }

  /** One iteration of the inner loop: the mod's value for `key` merged into the map built so far. */
  method MergeKey(changes1: Changes, changes0: Changes, base: ParamMap, source: string, params: ParamMap,
                  ghost done: set<string>, key: string)
    returns (changes: Changes)
    requires key in params && key !in done
    requires changes1 == StepOn(changes0, base, source, params, done)
    ensures changes == StepOn(changes0, base, source, params, done + {key})
  {
    MergeStep(changes1, changes0, base, source, params, done, key);
    changes := MergeValue(changes1, base, source, key, params[key]);
  }

  /** The body of the inner loop for one key and the mod's value for it. */
  method MergeValue(changes0: Changes, base: ParamMap, source: string, key: string, modValue: string)
    returns (changes: Changes)
    ensures changes == if Differs(base, key, modValue)
      then changes0[key := AddNew(CandidatesOf(changes0, key), Candidate(source, modValue))]
      else changes0
  {
    changes := changes0;
    if key !in base || base[key] != modValue {
      // the list is created empty for a new key, then extended unless the value is listed
      var list := if key in changes then changes[key] else [];
      if !HasPayload(list, modValue) {
        list := list + [Candidate(source, modValue)];
      }
      changes := changes[key := list];
    }
  }

  /** One iteration of the inner loop, on the function that describes the loop. */
  lemma MergeStep(changes: Changes, changes0: Changes, base: ParamMap, source: string, params: ParamMap,
                  done: set<string>, key: string)
    requires key in params && key !in done
    requires changes == StepOn(changes0, base, source, params, done)
    ensures StepOn(changes0, base, source, params, done + {key}) ==
      if Differs(base, key, params[key])
      then changes[key := AddNew(CandidatesOf(changes, key), Candidate(source, params[key]))]
      else changes
  {
    StepOnVisit(changes0, base, source, params, done, key);
  }

  /** The aggregation loop over the mods, in the order they are given. */
  method AggregateChanges(base: ParamMap, mods: seq<ModFile>) returns (changes: Changes)
    ensures changes == Aggregate(base, Parsed(mods))
  {
    changes := map[];
    for m := 0 to |mods|
      invariant changes == Aggregate(base, Parsed(mods[..m]))
    {
      var params := ParseParams(mods[m].lines);
      AggregateStep(base, mods, m);
      changes := MergeModParams(changes, base, mods[m].source, params);
    }
    assert mods[..|mods|] == mods;
  }

  /** One iteration of the loop over the mods, on the function that describes it. */
  lemma AggregateStep(base: ParamMap, mods: seq<ModFile>, m: nat)
    requires m < |mods|
    ensures var params := ParamsOf(mods[m].lines);
      Aggregate(base, Parsed(mods[..m + 1]))
        == StepOn(Aggregate(base, Parsed(mods[..m])), base, mods[m].source, params, params.Keys)
  {
    var parsed := Parsed(mods[..m + 1]);
    assert parsed[..m] == Parsed(mods[..m]);
    assert parsed[m] == ModParams(mods[m].source, ParamsOf(mods[m].lines));
  }

  // ---------------------------------------------------------------------------
  // A reference description: list every proposal in mod order, then keep the
  // first proposal of each value.

  /** The mod's proposal for `key` when it changes it: source and stripped line. */
  function Proposals(base: ParamMap, mods: seq<ModParams>, key: string): seq<Candidate>
    decreases |mods|
  {
    if mods == [] then []
    else
      var last := mods[|mods| - 1];
      Proposals(base, mods[..|mods| - 1], key) + ProposalOf(base, last, key)
  }

  /** The mod's proposal for `key`, if its value differs from the base. */
  function ProposalOf(base: ParamMap, mod: ModParams, key: string): seq<Candidate> {
    if key in mod.params && Differs(base, key, mod.params[key]) then [Candidate(mod.source, mod.params[key])] else []
  }

  /** Mod `i` declares `key` with a value that differs from the base. */
  predicate ModChanges(base: ParamMap, mods: seq<ModParams>, i: int, key: string) {
    0 <= i < |mods| && key in mods[i].params && Differs(base, key, mods[i].params[key])
  }

  /** The elements of `cs` whose value does not occur earlier in `cs`. */
  function FirstOccurrences(cs: seq<Candidate>): seq<Candidate>
    decreases |cs|
  {
    if cs == [] then []
    else
      var init := cs[..|cs| - 1];
      var last := cs[|cs| - 1];
      FirstOccurrences(init) + (if HasPayload(init, last.payload) then [] else [last])
  }

  /** The index of the first candidate in `cs` with value `v`. */
  function FirstIndex(cs: seq<Candidate>, v: string): (r: nat)
    requires HasPayload(cs, v)
    ensures r < |cs| && cs[r].payload == v
    ensures forall l :: 0 <= l < r ==> cs[l].payload != v
    decreases |cs|
  {
    if cs[0].payload == v then 0
    else
      assert HasPayload(cs[1..], v) by {
        var i :| 0 <= i < |cs| && cs[i].payload == v;
        assert cs[1..][i - 1] == cs[i];
      }
      1 + FirstIndex(cs[1..], v)
  }

  lemma FirstIndexIs(cs: seq<Candidate>, v: string, j: nat)
    requires j < |cs| && cs[j].payload == v
    requires forall l :: 0 <= l < j ==> cs[l].payload != v
    ensures HasPayload(cs, v) && FirstIndex(cs, v) == j
  {
    assert HasPayload(cs, v);
  }

  lemma FirstIndexExtend(cs: seq<Candidate>, x: Candidate, v: string)
    requires HasPayload(cs, v)
    ensures HasPayload(cs + [x], v) && FirstIndex(cs + [x], v) == FirstIndex(cs, v)
  {
    var r := FirstIndex(cs, v);
    assert (cs + [x])[r] == cs[r];
    FirstIndexIs(cs + [x], v, r);
  }

  lemma HasPayloadExtend(cs: seq<Candidate>, x: Candidate, v: string)
    ensures HasPayload(cs + [x], v) <==> HasPayload(cs, v) || x.payload == v
  {
    if HasPayload(cs, v) {
      var i :| 0 <= i < |cs| && cs[i].payload == v;
      assert (cs + [x])[i] == cs[i];
    }
    if x.payload == v { assert (cs + [x])[|cs|] == x; }
    if HasPayload(cs + [x], v) {
      var i :| 0 <= i < |cs| + 1 && (cs + [x])[i].payload == v;
      if i < |cs| { assert cs[i] == (cs + [x])[i]; }
    }
  }

  /** Keeping first occurrences keeps every value once. */
  lemma {:induction false} FirstOccurrencesValues(cs: seq<Candidate>)
    ensures forall v :: HasPayload(FirstOccurrences(cs), v) <==> HasPayload(cs, v)
    ensures forall i, j :: 0 <= i < j < |FirstOccurrences(cs)| ==>
      FirstOccurrences(cs)[i].payload != FirstOccurrences(cs)[j].payload
    decreases |cs|
  {
    if cs != [] {
      var init := cs[..|cs| - 1];
      var x := cs[|cs| - 1];
      assert cs == init + [x];
      FirstOccurrencesValues(init);
      var f0 := FirstOccurrences(init);
      var f := FirstOccurrences(cs);
      forall v ensures HasPayload(cs, v) <==> HasPayload(init, v) || x.payload == v {
        HasPayloadExtend(init, x, v);
      }
      if HasPayload(init, x.payload) {
        assert f == f0;
      } else {
        assert f == f0 + [x];
        forall v ensures HasPayload(f, v) <==> HasPayload(f0, v) || x.payload == v {
          HasPayloadExtend(f0, x, v);
        }
        forall i | 0 <= i < |f0| ensures f0[i].payload != x.payload {
          assert HasPayload(f0, f0[i].payload);
        }
      }
    }
  }

  /**
   * Each kept candidate is the first one in `cs` with its value, and the kept
   * candidates are in the order of their first appearance.
   */
  lemma {:induction false} FirstOccurrencesFirst(cs: seq<Candidate>)
    ensures forall i :: 0 <= i < |FirstOccurrences(cs)| ==>
      HasPayload(cs, FirstOccurrences(cs)[i].payload)
      && FirstOccurrences(cs)[i] == cs[FirstIndex(cs, FirstOccurrences(cs)[i].payload)]
    ensures forall i, j :: 0 <= i < j < |FirstOccurrences(cs)| ==>
      HasPayload(cs, FirstOccurrences(cs)[i].payload) && HasPayload(cs, FirstOccurrences(cs)[j].payload)
      && FirstIndex(cs, FirstOccurrences(cs)[i].payload) < FirstIndex(cs, FirstOccurrences(cs)[j].payload)
    decreases |cs|
  {
    if cs != [] {
      var init := cs[..|cs| - 1];
      var x := cs[|cs| - 1];
      assert cs == init + [x];
      FirstOccurrencesFirst(init);
      var f0 := FirstOccurrences(init);
      var f := FirstOccurrences(cs);
      forall i | 0 <= i < |f0|
        ensures HasPayload(cs, f0[i].payload) && FirstIndex(cs, f0[i].payload) == FirstIndex(init, f0[i].payload)
      {
        FirstIndexExtend(init, x, f0[i].payload);
      }
      if HasPayload(init, x.payload) {
        assert f == f0;
      } else {
        assert f == f0 + [x];
        FirstIndexIs(cs, x.payload, |init|);
      }
    }
  }

  /** The properties of first occurrences together. */
  lemma FirstOccurrencesSpec(cs: seq<Candidate>)
    ensures forall v :: HasPayload(FirstOccurrences(cs), v) <==> HasPayload(cs, v)
    ensures forall i, j :: 0 <= i < j < |FirstOccurrences(cs)| ==>
      FirstOccurrences(cs)[i].payload != FirstOccurrences(cs)[j].payload
    ensures forall i :: 0 <= i < |FirstOccurrences(cs)| ==>
      HasPayload(cs, FirstOccurrences(cs)[i].payload)
      && FirstOccurrences(cs)[i] == cs[FirstIndex(cs, FirstOccurrences(cs)[i].payload)]
    ensures forall i, j :: 0 <= i < j < |FirstOccurrences(cs)| ==>
      HasPayload(cs, FirstOccurrences(cs)[i].payload) && HasPayload(cs, FirstOccurrences(cs)[j].payload)
      && FirstIndex(cs, FirstOccurrences(cs)[i].payload) < FirstIndex(cs, FirstOccurrences(cs)[j].payload)
  {
    FirstOccurrencesValues(cs);
    FirstOccurrencesFirst(cs);
  }

  /**
   * The aggregation loop records for each key exactly the first occurrences of
   * the proposals the mods make for it, and records the key exactly when some
   * mod proposes a change to it.
   */
  lemma {:induction false} AggregateIsFirstProposals(base: ParamMap, mods: seq<ModParams>, key: string)
    ensures key in Aggregate(base, mods) <==> Proposals(base, mods, key) != []
    ensures key in Aggregate(base, mods) ==>
      Aggregate(base, mods)[key] == FirstOccurrences(Proposals(base, mods, key))
    decreases |mods|
  {
    if mods != [] {
      var init := mods[..|mods| - 1];
      var last := mods[|mods| - 1];
      AggregateIsFirstProposals(base, init, key);
      var p0 := Proposals(base, init, key);
      var a0 := Aggregate(base, init);
      assert CandidatesOf(a0, key) == FirstOccurrences(p0);
      var ps := Proposals(base, mods, key);
      assert ps == p0 + ProposalOf(base, last, key);
      if key in last.params && Differs(base, key, last.params[key]) {
        var c := Candidate(last.source, last.params[key]);
        assert key in ChangedKeys(base, last.params, last.params.Keys);
        FirstOccurrencesSpec(p0);
        assert ps == p0 + [c];
        assert ps[..|ps| - 1] == p0;
        assert FirstOccurrences(ps) == FirstOccurrences(p0) + (if HasPayload(p0, c.payload) then [] else [c]);
        assert HasPayload(FirstOccurrences(p0), c.payload) == HasPayload(p0, c.payload);
      } else {
        assert key !in ChangedKeys(base, last.params, last.params.Keys);
        assert ps == p0;
      }
    }
  }

  /** Every proposal differs from the base and is the value some mod's parameter set gives the key. */
  lemma {:induction false} ProposalsSpec(base: ParamMap, mods: seq<ModParams>, key: string)
    ensures forall c :: c in Proposals(base, mods, key) ==>
      Differs(base, key, c.payload)
      && (exists i :: ModChanges(base, mods, i, key) && mods[i].source == c.source && mods[i].params[key] == c.payload)
    ensures Proposals(base, mods, key) != [] <==> (exists i :: ModChanges(base, mods, i, key))
    decreases |mods|
  {
    if mods != [] {
      var n := |mods| - 1;
      var init := mods[..n];
      ProposalsSpec(base, init, key);
      assert Proposals(base, mods, key) == Proposals(base, init, key) + ProposalOf(base, mods[n], key);
      forall i | ModChanges(base, init, i, key) ensures ModChanges(base, mods, i, key) {
        assert mods[i] == init[i];
      }
      if ModChanges(base, mods, n, key) {
        assert Proposals(base, mods, key)[|Proposals(base, mods, key)| - 1] == Candidate(mods[n].source, mods[n].params[key]);
      } else {
        forall i | ModChanges(base, mods, i, key) ensures ModChanges(base, init, i, key) {
          assert mods[i] == init[i];
        }
      }
    }
  }

  /** A mod that changes a key has its value among the proposals for that key. */
  lemma {:induction false} ProposalIncluded(base: ParamMap, mods: seq<ModParams>, key: string, i: int)
    requires ModChanges(base, mods, i, key)
    ensures HasPayload(Proposals(base, mods, key), mods[i].params[key])
    decreases |mods|
  {
    var n := |mods| - 1;
    var init := mods[..n];
    var p0 := Proposals(base, init, key);
    var tail := ProposalOf(base, mods[n], key);
    assert Proposals(base, mods, key) == p0 + tail;
    if i < n {
      assert init[i] == mods[i];
      ProposalIncluded(base, init, key, i);
      var j :| 0 <= j < |p0| && p0[j].payload == mods[i].params[key];
      assert (p0 + tail)[j] == p0[j];
    } else {
      assert (p0 + tail)[|p0|].payload == mods[i].params[key];
    }
  }

  /**
   * Which keys the aggregation records: exactly those for which some mod's
   * value differs from the base, so a key the base lacks is recorded as soon
   * as any mod declares it.
   */
  lemma AggregateKeys(base: ParamMap, mods: seq<ModParams>, key: string)
    ensures key in Aggregate(base, mods) <==> exists i :: ModChanges(base, mods, i, key)
    ensures key !in base && (exists i :: 0 <= i < |mods| && key in mods[i].params) ==>
      key in Aggregate(base, mods)
  {
    AggregateIsFirstProposals(base, mods, key);
    ProposalsSpec(base, mods, key);
    if key !in base && (exists i :: 0 <= i < |mods| && key in mods[i].params) {
      var i :| 0 <= i < |mods| && key in mods[i].params;
      assert ModChanges(base, mods, i, key);
    }
  }

  /**
   * A recorded key's candidate list is non-empty, its values are pairwise
   * distinct, none equals the base value, and every value a mod proposes for
   * the key is in it.
   */
  lemma AggregateLists(base: ParamMap, mods: seq<ModParams>, key: string)
    requires key in Aggregate(base, mods)
    ensures Aggregate(base, mods)[key] != []
    ensures forall i, j :: 0 <= i < j < |Aggregate(base, mods)[key]| ==>
      Aggregate(base, mods)[key][i].payload != Aggregate(base, mods)[key][j].payload
    ensures forall c :: c in Aggregate(base, mods)[key] ==> Differs(base, key, c.payload)
    ensures forall i :: ModChanges(base, mods, i, key) ==> HasPayload(Aggregate(base, mods)[key], mods[i].params[key])
  {
    AggregateIsFirstProposals(base, mods, key);
    ProposalsSpec(base, mods, key);
    var ps := Proposals(base, mods, key);
    var f := FirstOccurrences(ps);
    assert Aggregate(base, mods)[key] == f;
    FirstOccurrencesSpec(ps);
    assert HasPayload(ps, ps[0].payload);
    forall c | c in f ensures Differs(base, key, c.payload) {
      var i :| 0 <= i < |f| && f[i] == c;
      assert c == ps[FirstIndex(ps, c.payload)];
    }
    forall i | ModChanges(base, mods, i, key) ensures HasPayload(f, mods[i].params[key]) {
      ProposalIncluded(base, mods, key, i);
    }
  }
}
