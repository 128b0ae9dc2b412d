/** Running a step function along a sequence. */
module Scan {

  /** The state after the first `k` inputs. */
  function Fold<S, X>(step: (S, X) -> S, st: S, s: seq<X>, k: nat): S
    requires k <= |s|
  {
    if k == 0 then st else step(Fold(step, st, s, k - 1), s[k - 1])
  }

  /** The states after each input. */
  function States<S, X>(step: (S, X) -> S, st: S, s: seq<X>): (out: seq<S>)
    ensures |out| == |s|
  {
    seq(|s|, i requires 0 <= i < |s| => Fold(step, st, s, i + 1))
  }

  lemma {:induction false} FoldPrefix<S, X>(step: (S, X) -> S, st: S, a: seq<X>, b: seq<X>, k: nat)
    requires k <= |a|
    ensures Fold(step, st, a + b, k) == Fold(step, st, a, k)
  {
    if k > 0 { FoldPrefix(step, st, a, b, k - 1); }
  }

  lemma {:induction false} FoldSplit<S, X>(step: (S, X) -> S, st: S, a: seq<X>, b: seq<X>, k: nat)
    requires k <= |b|
    ensures Fold(step, st, a + b, |a| + k) == Fold(step, Fold(step, st, a, |a|), b, k)
  {
    if k == 0 {
      FoldPrefix(step, st, a, b, |a|);
    } else {
      FoldSplit(step, st, a, b, k - 1);
    }
  }

  /** Running over a concatenation is running over its parts, carrying the state across. */
  lemma StatesSplit<S, X>(step: (S, X) -> S, st: S, a: seq<X>, b: seq<X>)
    ensures States(step, st, a + b) == States(step, st, a) + States(step, Fold(step, st, a, |a|), b)
    ensures Fold(step, st, a + b, |a + b|) == Fold(step, Fold(step, st, a, |a|), b, |b|)
  {
    var whole, parts := States(step, st, a + b), States(step, st, a) + States(step, Fold(step, st, a, |a|), b);
    forall i | 0 <= i < |a| + |b| ensures whole[i] == parts[i] {
      if i < |a| {
        FoldPrefix(step, st, a, b, i + 1);
      } else {
        FoldSplit(step, st, a, b, i + 1 - |a|);
      }
    }
    FoldSplit(step, st, a, b, |b|);
  }
}
