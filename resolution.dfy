/**
 * Conflict resolution: keys taken in ascending order; a key with a single
 * candidate takes it, a key with several takes the candidate a reply at the
 * prompt picks. The prompt is a stream of replies; a reply that is not a
 * number or is out of range is rejected and the next one is read. The same
 * procedure resolves parameter keys and additional-file paths.
 */
module Resolution {
  import opened Wrappers
  import opened Records
  import opened KeyOrder

  /** One reply at the prompt, after `int(...)`: a number, or text `int` rejects. */
  datatype Input = Number(n: int) | NotANumber

  /** Resolution stopped: the replies ran out (`input()` raised `EOFError`) while choosing for `key`. */
  datatype Abort = EndOfInput(key: string)

  /** The resolved entries in the order they were decided, and the replies not yet read. */
  type Outcome = Result<(seq<Entry>, seq<Input>), Abort>

  /** The reply is accepted for a list of `count` candidates. */
  predicate InRange(reply: Input, count: nat) {
    reply.Number? && 1 <= reply.n <= count
  }

  /** Reply `j` is the first accepted one. */
  predicate FirstAccepted(replies: seq<Input>, count: nat, j: int) {
    0 <= j < |replies| && InRange(replies[j], count)
    && forall l :: 0 <= l < j ==> !InRange(replies[l], count)
  }

  /** The retry loop: the chosen value and how many replies it read, or `None` if none is accepted. */
  function Choose(cands: seq<Candidate>, replies: seq<Input>): (r: Option<(string, nat)>)
    ensures r.Some? ==> 1 <= r.value.1 <= |replies|
    decreases |replies|
  {
    if replies == [] then None
    else if InRange(replies[0], |cands|) then Some((cands[replies[0].n - 1].payload, 1))
    else match Choose(cands, replies[1..])
      case None => None
      case Some((v, used)) => Some((v, used + 1))
  }

  /**
   * The retry loop reads up to and including the first accepted reply `n` and
   * takes candidate `n` (counting from 1); it gives up only when no reply is
   * accepted.
   */
  lemma {:induction false} ChooseSpec(cands: seq<Candidate>, replies: seq<Input>)
    ensures Choose(cands, replies).None? <==> forall j :: 0 <= j < |replies| ==> !InRange(replies[j], |cands|)
    ensures Choose(cands, replies).Some? ==>
      var (v, used) := Choose(cands, replies).value;
      FirstAccepted(replies, |cands|, used - 1) && v == cands[replies[used - 1].n - 1].payload
    decreases |replies|
  {
    if replies != [] && !InRange(replies[0], |cands|) {
      ChooseSpec(cands, replies[1..]);
      forall j | 1 <= j < |replies| ensures replies[j] == replies[1..][j - 1] { }
      if Choose(cands, replies[1..]).Some? {
        var (v, used) := Choose(cands, replies[1..]).value;
        forall l | 0 <= l < used ensures !InRange(replies[l], |cands|) {
          if l > 0 { assert replies[l] == replies[1..][l - 1]; }
        }
      }
    }
  }

  /** Puts `es` in front of the entries of a successful outcome. */
  function Concat(es: seq<Entry>, r: Outcome): Outcome {
    match r
    case Success((more, rest)) => Success((es + more, rest))
    case Failure(e) => Failure(e)
  }

  /**
   * The value decided for one key and the replies left: a single candidate is
   * taken without reading, otherwise the retry loop decides; `None` when the
   * replies run out first.
   */
  function Decide(cands: seq<Candidate>, replies: seq<Input>): Option<(string, seq<Input>)> {
    if |cands| == 1 then Some((cands[0].payload, replies))
    else match Choose(cands, replies)
      case None => None
      case Some((v, used)) => Some((v, replies[used..]))
  }

  /**
   * A decided value is one of the candidates, the replies left are a suffix of
   * the replies, a single candidate is taken without reading, and only a
   * conflicting key can run out of replies.
   */
  lemma DecideSpec(cands: seq<Candidate>, replies: seq<Input>)
    ensures var r := Decide(cands, replies);
      && (r.Some? ==> HasPayload(cands, r.value.0))
      && (r.Some? ==> |r.value.1| <= |replies| && r.value.1 == replies[|replies| - |r.value.1|..])
      && (|cands| == 1 ==> r == Some((cands[0].payload, replies)))
      && (r.None? ==> |cands| != 1)
  {
    if |cands| == 1 {
      assert cands[0].payload == cands[0].payload;
    } else {
      ChooseSpec(cands, replies);
    }
  }

  /** Resolution of the keys `ks`, in that order, reading `replies`. */
  function ResolveFrom(ks: seq<string>, changes: map<string, seq<Candidate>>, replies: seq<Input>): Outcome
    requires forall k :: k in ks ==> k in changes
    decreases |ks|
  {
    if ks == [] then Success(([], replies))
    else
      var k := ks[0];
      var cands := changes[k];
      if |cands| == 1 then Concat([Entry(k, cands[0].payload)], ResolveFrom(ks[1..], changes, replies))
      else match Choose(cands, replies)
        case None => Failure(EndOfInput(k))
        case Some((v, used)) => Concat([Entry(k, v)], ResolveFrom(ks[1..], changes, replies[used..]))
  }

  /** `ResolveFrom` as one decision for the first key followed by the rest. */
  lemma ResolveFromDecide(ks: seq<string>, changes: map<string, seq<Candidate>>, replies: seq<Input>)
    requires forall k :: k in ks ==> k in changes
    requires ks != []
    ensures ResolveFrom(ks, changes, replies) == match Decide(changes[ks[0]], replies)
      case None => Failure(EndOfInput(ks[0]))
      case Some((v, more)) => Concat([Entry(ks[0], v)], ResolveFrom(ks[1..], changes, more))
  {
  }

  /** The reply loop for one conflicting key, reading from position `pos`. */
  method AskChoice(cands: seq<Candidate>, replies: seq<Input>, pos0: nat) returns (choice: Option<string>, pos: nat)
    requires pos0 <= |replies|
    ensures pos0 <= pos <= |replies|
    ensures choice.None? ==> Choose(cands, replies[pos0..]).None?
    ensures choice.Some? ==> Choose(cands, replies[pos0..]) == Some((choice.value, pos - pos0))
  {
    choice := None;
    pos := pos0;
    while choice.None? && pos < |replies|
      invariant pos0 <= pos <= |replies|
      invariant choice.None? ==> Choose(cands, replies[pos0..]) == Shift(Choose(cands, replies[pos..]), pos - pos0)
      invariant choice.Some? ==> Choose(cands, replies[pos0..]) == Some((choice.value, pos - pos0))
      decreases |replies| - pos
    {
      var reply := replies[pos];
      assert replies[pos..][1..] == replies[pos + 1..];
      if reply.Number? && 1 <= reply.n <= |cands| {
        choice := Some(cands[reply.n - 1].payload);
      }
      pos := pos + 1;
    }
  }

  /** Adds `d` to the number of replies read. */
  function Shift(r: Option<(string, nat)>, d: nat): Option<(string, nat)> {
    match r
    case None => None
    case Some((v, used)) => Some((v, used + d))
  }

  /**
   * The resolution loops: keys of `changes` in ascending order, each resolved
   * automatically or by the prompt, into an insertion-ordered result.
   */
  method ResolveConflicts(changes: map<string, seq<Candidate>>, replies: seq<Input>) returns (r: Outcome)
    ensures r == ResolveFrom(SortedOf(changes.Keys), changes, replies)
  {
    var ks := SortKeys(changes.Keys);
    var final: seq<Entry> := [];
    var pos := 0;
    assert ks[0..] == ks && replies[0..] == replies;
    ConcatEmpty(ResolveFrom(ks, changes, replies));
    for i := 0 to |ks|
      invariant pos <= |replies|
      invariant ResolveFrom(ks, changes, replies) == Concat(final, ResolveFrom(ks[i..], changes, replies[pos..]))
    {
      var key := ks[i];
      var cands := changes[key];
      if |cands| == 1 {
        ResolveSingle(ks, changes, replies[pos..], i);
        ConcatAssoc(final, Entry(key, cands[0].payload), ResolveFrom(ks[i + 1..], changes, replies[pos..]));
        final := final + [Entry(key, cands[0].payload)];
      } else {
        var choice, next := AskChoice(cands, replies, pos);
        if choice.None? {
          ResolveNoChoice(ks, changes, replies[pos..], i);
          return Failure(EndOfInput(key));
        }
        ResolveChosen(ks, changes, replies[pos..], i);
        assert replies[pos..][next - pos..] == replies[next..];
        ConcatAssoc(final, Entry(key, choice.value), ResolveFrom(ks[i + 1..], changes, replies[next..]));
        final := final + [Entry(key, choice.value)];
        pos := next;
      }
    }
    assert final + [] == final;
    r := Success((final, replies[pos..]));
  }

  /** One step of `ResolveFrom` on a key with a single candidate. */
  lemma ResolveSingle(ks: seq<string>, changes: map<string, seq<Candidate>>, replies: seq<Input>, i: nat)
    requires forall k :: k in ks ==> k in changes
    requires i < |ks| && |changes[ks[i]]| == 1
    ensures ResolveFrom(ks[i..], changes, replies)
      == Concat([Entry(ks[i], changes[ks[i]][0].payload)], ResolveFrom(ks[i + 1..], changes, replies))
  {
    assert ks[i..][1..] == ks[i + 1..];
  }

  /** One step of `ResolveFrom` on a conflicting key when no reply is accepted. */
  lemma ResolveNoChoice(ks: seq<string>, changes: map<string, seq<Candidate>>, replies: seq<Input>, i: nat)
    requires forall k :: k in ks ==> k in changes
    requires i < |ks| && |changes[ks[i]]| != 1 && Choose(changes[ks[i]], replies).None?
    ensures ResolveFrom(ks[i..], changes, replies) == Failure(EndOfInput(ks[i]))
  {
    assert ks[i..][0] == ks[i];
  }

  /** One step of `ResolveFrom` on a conflicting key when a reply is accepted. */
  lemma ResolveChosen(ks: seq<string>, changes: map<string, seq<Candidate>>, replies: seq<Input>, i: nat)
    requires forall k :: k in ks ==> k in changes
    requires i < |ks| && |changes[ks[i]]| != 1 && Choose(changes[ks[i]], replies).Some?
    ensures var (v, used) := Choose(changes[ks[i]], replies).value;
      ResolveFrom(ks[i..], changes, replies)
      == Concat([Entry(ks[i], v)], ResolveFrom(ks[i + 1..], changes, replies[used..]))
  {
    assert ks[i..][1..] == ks[i + 1..];
  }

  lemma ConcatEmpty(r: Outcome)
    ensures Concat([], r) == r
  {
    if r.Success? {
      var (more, rest) := r.value;
      assert [] + more == more;
    }
  }

  lemma ConcatAssoc(es: seq<Entry>, e: Entry, r: Outcome)
    ensures Concat(es, Concat([e], r)) == Concat(es + [e], r)
  {
    if r.Success? {
      var (more, rest) := r.value;
      assert es + ([e] + more) == (es + [e]) + more;
    }
  }

  /**
   * A successful resolution has exactly one entry per key, in the order of
   * `ks`; a single-candidate key takes its candidate; every key takes one of
   * its own candidates; the unread replies are a suffix of the replies.
   */
  lemma {:induction false} ResolveFromSuccess(ks: seq<string>, changes: map<string, seq<Candidate>>, replies: seq<Input>,
                                              es: seq<Entry>, rest: seq<Input>)
    requires forall k :: k in ks ==> k in changes
    requires ResolveFrom(ks, changes, replies) == Success((es, rest))
    ensures |es| == |ks|
    ensures forall i :: 0 <= i < |ks| ==> es[i].key == ks[i] && HasPayload(changes[ks[i]], es[i].value)
    ensures forall i :: 0 <= i < |ks| && |changes[ks[i]]| == 1 ==> es[i].value == changes[ks[i]][0].payload
    decreases |ks|
  {
    if ks != [] {
      var tail := ks[1..];
      var v, more, es2 := ResolveFromHead(ks, changes, replies, es, rest);
      ResolveFromSuccess(tail, changes, more, es2, rest);
      forall i | 0 <= i < |ks|
        ensures es[i].key == ks[i] && HasPayload(changes[ks[i]], es[i].value)
        ensures |changes[ks[i]]| == 1 ==> es[i].value == changes[ks[i]][0].payload
      {
        if i > 0 {
          assert ks[i] == tail[i - 1] && es[i] == es2[i - 1];
        }
      }
    }
  }

  /** The replies a successful resolution leaves unread are a suffix of the replies. */
  lemma {:induction false} ResolveFromRest(ks: seq<string>, changes: map<string, seq<Candidate>>, replies: seq<Input>,
                                           es: seq<Entry>, rest: seq<Input>)
    requires forall k :: k in ks ==> k in changes
    requires ResolveFrom(ks, changes, replies) == Success((es, rest))
    ensures |rest| <= |replies| && rest == replies[|replies| - |rest|..]
    decreases |ks|
  {
    if ks == [] {
      assert replies[|replies| - |rest|..] == replies;
    } else {
      var v, more, es2 := ResolveFromHead(ks, changes, replies, es, rest);
      ResolveFromRest(ks[1..], changes, more, es2, rest);
      assert more[|more| - |rest|..] == replies[|replies| - |rest|..];
    }
  }

  /** A successful resolution starts with the decision for its first key. */
  lemma ResolveFromHead(ks: seq<string>, changes: map<string, seq<Candidate>>, replies: seq<Input>,
                        es: seq<Entry>, rest: seq<Input>)
    returns (v: string, more: seq<Input>, es2: seq<Entry>)
    requires forall k :: k in ks ==> k in changes
    requires ks != [] && ResolveFrom(ks, changes, replies) == Success((es, rest))
    ensures Decide(changes[ks[0]], replies) == Some((v, more))
    ensures HasPayload(changes[ks[0]], v) && (|changes[ks[0]]| == 1 ==> v == changes[ks[0]][0].payload)
    ensures |more| <= |replies| && more == replies[|replies| - |more|..]
    ensures es == [Entry(ks[0], v)] + es2 && ResolveFrom(ks[1..], changes, more) == Success((es2, rest))
  {
    DecideSpec(changes[ks[0]], replies);
    ResolveFromDecide(ks, changes, replies);
    v, more := Decide(changes[ks[0]], replies).value.0, Decide(changes[ks[0]], replies).value.1;
    es2 := ResolveFrom(ks[1..], changes, more).value.0;
  }

  /** With no conflicting key, resolution reads no reply and always succeeds. */
  lemma {:induction false} ResolveFromNoConflict(ks: seq<string>, changes: map<string, seq<Candidate>>, replies: seq<Input>)
    requires forall k :: k in ks ==> k in changes && |changes[k]| == 1
    ensures ResolveFrom(ks, changes, replies).Success?
    ensures ResolveFrom(ks, changes, replies).value.1 == replies
    decreases |ks|
  {
    if ks != [] {
      assert forall j :: 1 <= j < |ks| ==> ks[j] == ks[1..][j - 1];
      ResolveFromNoConflict(ks[1..], changes, replies);
    }
  }

  /** Resolution fails only when the replies run out on a conflicting key. */
  /**
   * The walk stopped at key `ks[i]`: the keys before it resolved to `es`,
   * leaving the replies `rest`, and none of those is a number that selects
   * one of the key's candidates.
   */
  predicate RanOut(ks: seq<string>, changes: map<string, seq<Candidate>>, replies: seq<Input>,
                   i: int, es: seq<Entry>, rest: seq<Input>)
    requires forall k :: k in ks ==> k in changes
  {
    && 0 <= i < |ks| && |changes[ks[i]]| != 1
    && (forall k :: k in ks[..i] ==> k in ks)
    && ResolveFrom(ks[..i], changes, replies) == Success((es, rest))
    && forall j :: 0 <= j < |rest| ==> !InRange(rest[j], |changes[ks[i]]|)
  }

  lemma {:induction false} ResolveFromFailure(ks: seq<string>, changes: map<string, seq<Candidate>>, replies: seq<Input>)
    requires forall k :: k in ks ==> k in changes
    requires ResolveFrom(ks, changes, replies).Failure?
    ensures exists i :: (0 <= i < |ks| && |changes[ks[i]]| != 1
      && ResolveFrom(ks, changes, replies).error == EndOfInput(ks[i]))
    ensures exists i, es, rest :: (RanOut(ks, changes, replies, i, es, rest)
      && ResolveFrom(ks, changes, replies).error == EndOfInput(ks[i]))
    decreases |ks|
  {
    var tail := ks[1..];
    ResolveFromDecide(ks, changes, replies);
    if Decide(changes[ks[0]], replies).Some? {
      var (v, more) := Decide(changes[ks[0]], replies).value;
      ResolveFromFailure(tail, changes, more);
      var i, es, rest :| RanOut(tail, changes, more, i, es, rest)
        && ResolveFrom(tail, changes, more).error == EndOfInput(tail[i]);
      assert ks[i + 1] == tail[i];
      var head := ks[..i + 1];
      assert head[0] == ks[0] && head[1..] == tail[..i];
      ResolveFromDecide(head, changes, replies);
      assert RanOut(ks, changes, replies, i + 1, [Entry(ks[0], v)] + es, rest);
    } else {
      DecideSpec(changes[ks[0]], replies);
      ChooseSpec(changes[ks[0]], replies);
      assert ks[..0] == [];
      assert RanOut(ks, changes, replies, 0, [], replies);
    }
  }
  /**
   * A key with no candidate at all can never be resolved: no reply is in the
   * range `1..0`, so the prompt for it only ends when the replies run out.
   */
  lemma {:induction false} ResolveFromEmptyFails(ks: seq<string>, changes: map<string, seq<Candidate>>, replies: seq<Input>,
                                                 p: string)
    requires forall k :: k in ks ==> k in changes
    requires p in ks && changes[p] == []
    ensures ResolveFrom(ks, changes, replies).Failure?
    decreases |ks|
  {
    ResolveFromDecide(ks, changes, replies);
    if ks[0] == p {
      ChooseSpec(changes[p], replies);
    } else if Decide(changes[ks[0]], replies).Some? {
      var (v, more) := Decide(changes[ks[0]], replies).value;
      assert p in ks[1..];
      ResolveFromEmptyFails(ks[1..], changes, more, p);
    }
  }

}
