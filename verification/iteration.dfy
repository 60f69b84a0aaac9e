/**
 Deterministic iteration of a step function that may never end: results do not depend on
 the fuel, and a run over finitely many states diverges exactly when it repeats a state.
 */
module Iteration {
  import opened Machine

  /** One step either finishes with a result or moves to another state. */
  datatype Step<+S, +R> = Done(result: R) | Next(state: S)

  /** The result of iterating `f` from `s`, given up when more than `fuel` moves are needed. */
  function Run<S, R>(f: S -> Step<S, R>, s: S, fuel: nat): Option<R> {
    match f(s)
    case Done(r) => Some(r)
    case Next(t) => if fuel == 0 then None else Run(f, t, fuel - 1)
  }

  ghost predicate Halts<S, R(!new)>(f: S -> Step<S, R>, s: S) {
    exists fuel: nat :: Run(f, s, fuel).Some?
  }

  /** The result of a run that ends. */
  ghost function Final<S, R(!new)>(f: S -> Step<S, R>, s: S): R
    requires Halts(f, s)
  {
    var fuel: nat :| Run(f, s, fuel).Some?;
    Run(f, s, fuel).value
  }

  lemma {:induction false} MoreFuel<S, R>(f: S -> Step<S, R>, s: S, fuel: nat, more: nat)
    requires Run(f, s, fuel).Some? && fuel <= more
    ensures Run(f, s, more) == Run(f, s, fuel)
    decreases fuel
  {
    if f(s).Next? {
      MoreFuel(f, f(s).state, fuel - 1, more - 1);
    }
  }

  /** One step of a run. */
  lemma RunUnfolds<S, R>(f: S -> Step<S, R>, s: S, fuel: nat)
    ensures f(s).Done? ==> Run(f, s, fuel) == Some(f(s).result)
    ensures f(s).Next? && fuel > 0 ==> Run(f, s, fuel) == Run(f, f(s).state, fuel - 1)
  {
  }

  /** Any fuel that suffices gives the same result. */
  lemma FinalIs<S, R(!new)>(f: S -> Step<S, R>, s: S, fuel: nat)
    requires Run(f, s, fuel).Some?
    ensures Halts(f, s) && Some(Final(f, s)) == Run(f, s, fuel)
  {
    var other: nat :| Run(f, s, other).Some? && Final(f, s) == Run(f, s, other).value;
    if other <= fuel {
      MoreFuel(f, s, other, fuel);
    } else {
      MoreFuel(f, s, fuel, other);
    }
  }

  // ---------------------------------------------------------------------------
  //  The states of a run
  // ---------------------------------------------------------------------------

  /** The state after `n` moves, if the run gets that far. */
  ghost function After<S, R>(f: S -> Step<S, R>, s: S, n: nat): Option<S> {
    if n == 0 then Some(s)
    else
      match f(s)
      case Done(_) => None
      case Next(t) => After(f, t, n - 1)
  }

  /** After `n` moves the run still has a move to make. */
  ghost predicate Moves<S, R>(f: S -> Step<S, R>, s: S, n: nat) {
    After(f, s, n).Some? && f(After(f, s, n).value).Next?
  }

  /** After `j` moves the run is back where it moved on from after `i`. */
  ghost predicate Circles<S, R>(f: S -> Step<S, R>, s: S, i: nat, j: nat) {
    i < j && Moves(f, s, i) && After(f, s, j) == After(f, s, i)
  }

  lemma {:induction false} AfterCompose<S, R>(f: S -> Step<S, R>, s: S, i: nat, k: nat)
    requires After(f, s, i).Some?
    ensures After(f, s, i + k) == After(f, After(f, s, i).value, k)
    decreases i
  {
    if i > 0 {
      AfterCompose(f, f(s).state, i - 1, k);
    }
  }

  lemma {:induction false} NoneIffMoves<S, R>(f: S -> Step<S, R>, s: S, fuel: nat)
    ensures Run(f, s, fuel).None? <==> Moves(f, s, fuel)
    decreases fuel
  {
    if fuel > 0 && f(s).Next? {
      NoneIffMoves(f, f(s).state, fuel - 1);
    }
  }

  lemma {:induction false} EarlierMoves<S, R>(f: S -> Step<S, R>, s: S, i: nat, n: nat)
    requires i < n && After(f, s, n).Some?
    ensures Moves(f, s, i)
    ensures After(f, s, i + 1) == Some(f(After(f, s, i).value).state)
    decreases i
  {
    if i > 0 {
      EarlierMoves(f, f(s).state, i - 1, n - 1);
    }
  }

  /** A run that circles moves for ever. */
  lemma {:induction false} CirclesForever<S, R>(f: S -> Step<S, R>, s: S, i: nat, j: nat, n: nat)
    requires Circles(f, s, i, j)
    ensures Moves(f, s, n)
    decreases n
  {
    if n < j {
      EarlierMoves(f, s, n, j);
    } else {
      CirclesForever(f, s, i, j, n - (j - i));
      AfterCompose(f, s, i, n - j);
      AfterCompose(f, s, j, n - j);
    }
  }

  /** Moving to a state that leads only to itself is a circle. */
  lemma SelfLoopCircles<S, R>(f: S -> Step<S, R>, s: S, t: S)
    requires f(s) == Next(t) && f(t) == Next(t)
    ensures Circles(f, s, 1, 2)
  {
    assert After(f, t, 1) == After(f, t, 0) == Some(t);
  }

  /** Among more than `bound` numbers below `bound`, two are equal. */
  lemma {:induction false} Pigeonhole(s: seq<nat>, bound: nat) returns (i: nat, j: nat)
    requires |s| > bound && forall k :: 0 <= k < |s| ==> s[k] < bound
    ensures i < j < |s| && s[i] == s[j]
    decreases bound
  {
    var last := |s| - 1;
    if k :| 0 <= k < last && s[k] == s[last] {
      return k, last;
    }
    // Nothing else equals the last number: give it to the largest possible value and drop it.
    var t: seq<nat> := seq(last, k requires 0 <= k < last => if s[k] == bound - 1 then s[last] else s[k]);
    i, j := Pigeonhole(t, bound - 1);
  }

  /**
   If the states of a run can be told apart by numbers below `bound`, the run diverges
   exactly when it circles, and `bound` moves are enough to find out.
   */
  lemma DivergesIffCircles<S, R(!new)>(f: S -> Step<S, R>, s: S, number: S -> nat, bound: nat)
    requires forall n :: Moves(f, s, n) ==> number(After(f, s, n).value) < bound
    requires forall i, j | i < j && Moves(f, s, i) && Moves(f, s, j) ::
               number(After(f, s, i).value) == number(After(f, s, j).value) ==> Circles(f, s, i, j)
    ensures Halts(f, s) <==> !exists i, j :: Circles(f, s, i, j)
    ensures Halts(f, s) <==> Run(f, s, bound).Some?
  {
    if i, j :| Circles(f, s, i, j) {
      forall fuel: nat ensures Run(f, s, fuel).None? {
        CirclesForever(f, s, i, j, fuel);
        NoneIffMoves(f, s, fuel);
      }
    }
    if Run(f, s, bound).None? {
      NoneIffMoves(f, s, bound);
      forall i | 0 <= i <= bound ensures Moves(f, s, i) {
        if i < bound {
          EarlierMoves(f, s, i, bound);
        }
      }
      var numbers: seq<nat> := seq(bound + 1, i requires 0 <= i <= bound => number(After(f, s, i).value));
      forall i | 0 <= i <= bound ensures numbers[i] < bound {
        assert Moves(f, s, i);
      }
      var i, j := Pigeonhole(numbers, bound);
      assert Circles(f, s, i, j);
    }
  }
}
