/** Loops that read something written in parts: if every turn takes up one part, the loop from
    its beginning is the loop from its end with all of them. */
module Runs {
  import opened Bytes

  /** A loop from its `k`th part on, with what it has gathered. */
  type Run<!T, !R> = (nat, seq<T>) -> R

  ghost predicate Turns<T(!new), R>(run: Run<T, R>, k: nat, part: seq<T>)
  {
    forall out {:trigger run(k, out)} :: run(k, out) == run(k + 1, out + part)
  }

  lemma {:induction false} RunsThrough<T(!new), R>(run: Run<T, R>, parts: seq<seq<T>>, k: nat, out: seq<T>)
    requires k <= |parts| && forall i {:trigger parts[i]} :: 0 <= i < |parts| ==> Turns(run, i, parts[i])
    ensures run(k, out) == run(|parts|, out + Flat(parts, k))
    decreases |parts| - k
  {
    if k == |parts| {
      assert out + [] == out;
    } else {
      assert Turns(run, k, parts[k]);
      RunsThrough(run, parts, k + 1, out + parts[k]);
      Associate(out, parts[k], Flat(parts, k + 1));
    }
  }
}
