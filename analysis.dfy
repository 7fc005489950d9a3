/**
 * Step 2 of the merger: parse the base file, gather the differing values the
 * mods propose, and resolve them key by key into the final parameter changes.
 */
module Analysis {
  import opened Wrappers
  import opened Records
  import opened KeyOrder
  import opened ParamSet
  import opened Conflicts
  import opened Resolution

  /** The changes map the aggregation loop builds from the base lines and the mods' files. */
  ghost function ChangesOf(baseLines: seq<string>, mods: seq<ModFile>): Changes {
    Aggregate(ParamsOf(baseLines), Parsed(mods))
  }

  /** Mod `j` gives `key` the value `value`, which differs from the base. */
  predicate Proposed(base: ParamMap, mods: seq<ModParams>, key: string, value: string) {
    exists j :: 0 <= j < |mods| && ModChanges(base, mods, j, key) && mods[j].params[key] == value
  }

  /** `analyze_and_resolve_player_vars`: parse, aggregate, then resolve in ascending key order. */
  method AnalyzeAndResolve(baseLines: seq<string>, mods: seq<ModFile>, replies: seq<Input>) returns (r: Outcome)
    ensures r == ResolveFrom(SortedOf(ChangesOf(baseLines, mods).Keys), ChangesOf(baseLines, mods), replies)
  {
    var base := ParseParams(baseLines);
    var changes := AggregateChanges(base, mods);
    r := ResolveConflicts(changes, replies);
  }

  /**
   * A successful analysis lists every changed key exactly once, in ascending
   * order, and nothing else.
   */
  lemma AnalysisKeys(base: ParamMap, mods: seq<ModParams>, changes: Changes, replies: seq<Input>,
                     es: seq<Entry>, rest: seq<Input>)
    requires changes == Aggregate(base, mods)
    requires ResolveFrom(SortedOf(changes.Keys), changes, replies) == Success((es, rest))
    ensures forall i, j :: 0 <= i < j < |es| ==> Less(es[i].key, es[j].key)
    ensures forall k :: HasKey(es, k) <==> exists j :: ModChanges(base, mods, j, k)
  {
    var ks := SortedOf(changes.Keys);
    ResolveFromSuccess(ks, changes, replies, es, rest);
    forall k ensures HasKey(es, k) <==> exists j :: ModChanges(base, mods, j, k) {
      AggregateKeys(base, mods, k);
      if k in changes {
        var i :| 0 <= i < |ks| && ks[i] == k;
        assert es[i].key == k;
      }
    }
  }

  /**
   * Each value of a successful analysis is one some mod proposes for its key
   * and differs from the base; an uncontested key takes its only proposal.
   */
  lemma AnalysisValues(base: ParamMap, mods: seq<ModParams>, changes: Changes, replies: seq<Input>,
                       es: seq<Entry>, rest: seq<Input>)
    requires changes == Aggregate(base, mods)
    requires ResolveFrom(SortedOf(changes.Keys), changes, replies) == Success((es, rest))
    ensures forall i :: 0 <= i < |es| ==> Proposed(base, mods, es[i].key, es[i].value)
    ensures forall i :: 0 <= i < |es| ==> Differs(base, es[i].key, es[i].value)
    ensures forall i :: 0 <= i < |es| ==> es[i].key in changes
    ensures forall i :: 0 <= i < |es| && |changes[es[i].key]| == 1 ==> es[i].value == changes[es[i].key][0].payload
  {
    var ks := SortedOf(changes.Keys);
    ResolveFromSuccess(ks, changes, replies, es, rest);
    forall i | 0 <= i < |es| ensures Proposed(base, mods, es[i].key, es[i].value) {
      var k := es[i].key;
      assert k == ks[i];
      AggregateIsFirstProposals(base, mods, k);
      ProposalsSpec(base, mods, k);
      var ps := Proposals(base, mods, k);
      FirstOccurrencesSpec(ps);
      assert ps[FirstIndex(ps, es[i].value)] in ps;
    }
  }

  /**
   * An analysis stops only on a contested key (one with at least two distinct
   * proposed values) for which the replies ran out.
   */
  lemma AnalysisFailure(base: ParamMap, mods: seq<ModParams>, replies: seq<Input>)
    requires ResolveFrom(SortedOf(Aggregate(base, mods).Keys), Aggregate(base, mods), replies).Failure?
    ensures var k := ResolveFrom(SortedOf(Aggregate(base, mods).Keys), Aggregate(base, mods), replies).error.key;
      && k in Aggregate(base, mods) && |Aggregate(base, mods)[k]| >= 2
      && Proposed(base, mods, k, Aggregate(base, mods)[k][0].payload)
      && Proposed(base, mods, k, Aggregate(base, mods)[k][1].payload)
      && Aggregate(base, mods)[k][0].payload != Aggregate(base, mods)[k][1].payload
  {
    var a := Aggregate(base, mods);
    var ks := SortedOf(a.Keys);
    ResolveFromFailure(ks, a, replies);
    var i :| 0 <= i < |ks| && |a[ks[i]]| != 1 && ResolveFrom(ks, a, replies).error == EndOfInput(ks[i]);
    var k := ks[i];
    AggregateLists(base, mods, k);
    AggregateProposed(base, mods, k, 0);
    AggregateProposed(base, mods, k, 1);
  }

  /** Every candidate recorded for a key is a value some mod proposes for it. */
  lemma AggregateProposed(base: ParamMap, mods: seq<ModParams>, k: string, i: int)
    requires k in Aggregate(base, mods) && 0 <= i < |Aggregate(base, mods)[k]|
    ensures Proposed(base, mods, k, Aggregate(base, mods)[k][i].payload)
  {
    var a := Aggregate(base, mods);
    AggregateIsFirstProposals(base, mods, k);
    ProposalsSpec(base, mods, k);
    var ps := Proposals(base, mods, k);
    FirstOccurrencesSpec(ps);
    var c: Candidate := a[k][i];
    assert ps[FirstIndex(ps, c.payload)] in ps;
  }

  /** When no two mods propose different values for one key, the analysis reads no reply. */
  lemma AnalysisUncontested(base: ParamMap, mods: seq<ModParams>, replies: seq<Input>)
    requires forall k, v, w :: Proposed(base, mods, k, v) && Proposed(base, mods, k, w) ==> v == w
    ensures ResolveFrom(SortedOf(Aggregate(base, mods).Keys), Aggregate(base, mods), replies).Success?
    ensures ResolveFrom(SortedOf(Aggregate(base, mods).Keys), Aggregate(base, mods), replies).value.1 == replies
  {
    var a := Aggregate(base, mods);
    forall k | k in a ensures |a[k]| == 1 {
      AggregateLists(base, mods, k);
      if |a[k]| >= 2 {
        AggregateProposed(base, mods, k, 0);
        AggregateProposed(base, mods, k, 1);
        assert false;
      }
    }
    ResolveFromNoConflict(SortedOf(a.Keys), a, replies);
  }

  /** With no mod changing anything (in particular with no mods), the result is empty. */
  lemma AnalysisNoChanges(base: ParamMap, mods: seq<ModParams>, replies: seq<Input>)
    requires forall j, k :: !ModChanges(base, mods, j, k)
    ensures ResolveFrom(SortedOf(Aggregate(base, mods).Keys), Aggregate(base, mods), replies) == Success(([], replies))
  {
    var a := Aggregate(base, mods);
    forall k ensures k !in a {
      AggregateKeys(base, mods, k);
    }
    assert a.Keys == {};
  }
}
