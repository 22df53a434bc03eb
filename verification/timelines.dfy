/** Calls with the clock reading of their transaction. */
module Timelines {

  datatype Timed<O> = Timed(op: O, now: int)

  /** The clock does not run backwards. */
  ghost predicate ClockRuns<O>(ops: seq<Timed<O>>) {
    forall a, b :: 0 <= a < b < |ops| ==> ops[a].now <= ops[b].now
  }

  lemma ClockBetween<O>(ops: seq<Timed<O>>, a: nat, b: nat)
    requires a <= b < |ops| && ClockRuns(ops)
    ensures ops[a].now <= ops[b].now
  {}
}
