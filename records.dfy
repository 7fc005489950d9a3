/** The records the merger passes between its steps. */
module Records {

  /**
   * One proposal for a parameter key or an archive path: the mod it comes
   * from and what it proposes (the stripped declaration text of a parameter,
   * or the staged file of an additional file).
   */
  datatype Candidate = Candidate(source: string, payload: string)

  /** One entry of an insertion-ordered result dict: a key and its chosen value. */
  datatype Entry = Entry(key: string, value: string)

  /** Some candidate in `cs` proposes `v`. */
  predicate HasPayload(cs: seq<Candidate>, v: string) {
    exists i :: 0 <= i < |cs| && cs[i].payload == v
  }

  /** No key occurs twice: what a dict guarantees. */
  predicate DistinctKeys(es: seq<Entry>) {
    forall i, j :: 0 <= i < j < |es| ==> es[i].key != es[j].key
  }

  /** Some entry has key `k`. */
  predicate HasKey(es: seq<Entry>, k: string) {
    exists i :: 0 <= i < |es| && es[i].key == k
  }
}
