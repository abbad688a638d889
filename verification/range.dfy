/**
 Python's `list(range(start, stop, step))` over integers, which the widget uses
 to build its grid of underlying prices.
 */
module PyRange {
  import opened Wrappers
  import opened Errors

  /** Prepending `start` to the terms that start one step later gives the terms
      that start at `start`. */
  lemma ShiftTerms(start: int, step: int, rest: seq<int>)
    requires forall i :: 0 <= i < |rest| ==> rest[i] == start + step + i * step
    ensures forall i :: 0 <= i < 1 + |rest| ==> ([start] + rest)[i] == start + i * step
  {
    var r := [start] + rest;
    forall i | 0 <= i < |r| ensures r[i] == start + i * step {
      if i > 0 {
        assert r[i] == rest[i - 1];
        assert (i - 1) * step + step == i * step;
      }
    }
  }

  /** The terms `start, start + step, ...` that lie strictly before `stop` in the
      direction of `step`: every term is a whole number of steps from `start`,
      every term is before `stop`, and the next term would not be. */
  function Progression(start: int, stop: int, step: int): (r: seq<int>)
    requires step != 0
    ensures forall i :: 0 <= i < |r| ==> r[i] == start + i * step
    ensures step > 0 ==> (forall i :: 0 <= i < |r| ==> r[i] < stop) && start + |r| * step >= stop
    ensures step < 0 ==> (forall i :: 0 <= i < |r| ==> r[i] > stop) && start + |r| * step <= stop
    decreases if step > 0 then stop - start else start - stop
  {
    if (step > 0 && start < stop) || (step < 0 && start > stop) then
      var rest := Progression(start + step, stop, step);
      var r := [start] + rest;
      ShiftTerms(start, step, rest);
      assert |r| * step == step + |rest| * step;
      r
    else
      []
  }

  /** `list(range(start, stop, step))`: a zero step raises; otherwise the list
      holds exactly the points of the half-open interval that are a whole number
      of steps from `start`, from `start` onwards one step apart. */
  function Range(start: int, stop: int, step: int): (r: Result<seq<int>, Error>)
    ensures r.Failure? <==> step == 0
    ensures r.Failure? ==> r.error == ZeroRangeStep
    ensures r.Success? ==> forall x :: x in r.value <==>
      && (if step > 0 then start <= x < stop else stop < x <= start)
      && (x - start) % step == 0
    ensures r.Success? && r.value != [] ==> r.value[0] == start
    ensures r.Success? ==> forall i :: 0 < i < |r.value| ==> r.value[i] == r.value[i - 1] + step
  {
    if step == 0 then Failure(ZeroRangeStep)
    else
      ProgressionCharacterized(start, stop, step);
      ProgressionBounds(start, stop, step);
      Success(Progression(start, stop, step))
  }

  /** Membership in the progression, for every value at once. */
  lemma ProgressionCharacterized(start: int, stop: int, step: int)
    requires step != 0
    ensures forall x :: x in Progression(start, stop, step) <==>
      && (if step > 0 then start <= x < stop else stop < x <= start)
      && (x - start) % step == 0
  {
    forall x {
      ProgressionMembership(start, stop, step, x);
    }
  }

  /** Products with a positive factor keep the order of the other factor. */
  lemma MulStrictMono(a: int, b: int, s: int)
    requires s > 0 && a * s < b * s
    ensures a < b
  {
  }

  /** Every term lies on the half-open interval from `start` towards `stop`, and
      consecutive terms are exactly one step apart, so an ascending range is
      strictly increasing and a descending one strictly decreasing. */
  lemma ProgressionBounds(start: int, stop: int, step: int)
    requires step != 0
    ensures var r := Progression(start, stop, step);
      && (step > 0 ==> forall i :: 0 <= i < |r| ==> start <= r[i] < stop)
      && (step < 0 ==> forall i :: 0 <= i < |r| ==> stop < r[i] <= start)
      && (forall i :: 0 < i < |r| ==> r[i] == r[i - 1] + step)
  {
    var r := Progression(start, stop, step);
    forall i | 0 <= i < |r|
      ensures step > 0 ==> start <= r[i]
      ensures step < 0 ==> r[i] <= start
      ensures i > 0 ==> r[i] == r[i - 1] + step
    {
      if step > 0 {
        assert i * step >= 0;
      } else {
        assert i * (-step) >= 0;
      }
      if i > 0 {
        assert i * step == (i - 1) * step + step;
      }
    }
  }

  /** A multiple of a non-zero `s` leaves no remainder. */
  lemma ModOfMultiple(k: int, s: int)
    requires s != 0
    ensures (k * s) % s == 0
  {
    var q, m := (k * s) / s, (k * s) % s;
    assert k * s == q * s + m;
    var d := k - q;
    assert d * s == m;
    if s > 0 {
      MulStrictMono(d, 1, s);
      MulStrictMono(-1, d, s);
    } else {
      assert d * (-s) == -m;
      MulStrictMono(d, 1, -s);
      MulStrictMono(-1, d, -s);
    }
    assert d == 0;
  }

  /** A value is in the range exactly when it lies on the half-open interval and
      is a whole number of steps away from `start`. */
  lemma ProgressionMembership(start: int, stop: int, step: int, x: int)
    requires step != 0
    ensures x in Progression(start, stop, step) <==>
      && (if step > 0 then start <= x < stop else stop < x <= start)
      && (x - start) % step == 0
  {
    var r := Progression(start, stop, step);
    ProgressionBounds(start, stop, step);
    if x in r {
      var i :| 0 <= i < |r| && r[i] == x;
      ModOfMultiple(i, step);
    }
    if (if step > 0 then start <= x < stop else stop < x <= start) && (x - start) % step == 0 {
      OnGridIsTerm(start, stop, step, x);
    }
  }

  /** A non-negative product with a positive factor has a non-negative other factor. */
  lemma NonNegFactor(q: int, s: int)
    requires s > 0 && q * s >= 0
    ensures q >= 0
  {
    MulStrictMono(-1, q, s);
  }

  /** The term `k` steps from `start` is in the range when it lies before `stop`. */
  lemma {:induction false} TermInProgression(start: int, stop: int, step: int, k: nat, x: int)
    requires step != 0
    requires x == start + k * step
    requires if step > 0 then x < stop else x > stop
    ensures x in Progression(start, stop, step)
    decreases k
  {
    if step > 0 {
      assert k * step >= 0;
      assert start < stop;
    } else {
      assert k * (-step) >= 0;
      assert start > stop;
    }
    var r := Progression(start, stop, step);
    assert r == [start] + Progression(start + step, stop, step);
    if k == 0 {
      assert r[0] == x;
    } else {
      assert k * step == (k - 1) * step + step;
      TermInProgression(start + step, stop, step, k - 1, x);
    }
  }

  /** The reverse direction of membership: a grid point before `stop` is a term. */
  lemma OnGridIsTerm(start: int, stop: int, step: int, x: int)
    requires step != 0
    requires if step > 0 then start <= x < stop else stop < x <= start
    requires (x - start) % step == 0
    ensures x in Progression(start, stop, step)
  {
    var q := (x - start) / step;
    assert x - start == q * step;
    if step > 0 {
      NonNegFactor(q, step);
    } else {
      assert q * (-step) == start - x;
      NonNegFactor(q, -step);
    }
    TermInProgression(start, stop, step, q, x);
  }

  /** The grid is empty exactly when `start` is already at or past `stop` in the
      direction of the step. */
  lemma ProgressionEmpty(start: int, stop: int, step: int)
    requires step != 0
    ensures Progression(start, stop, step) == [] <==> (if step > 0 then start >= stop else start <= stop)
  {
  }
}
