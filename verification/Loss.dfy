/**
  How many bytes of a window of the interleaved block disappear with a set of fragments: byte ix
  of the block travels in fragment ix modulo the number of fragments.
 */
module Loss {
  import opened Arithmetic
  import opened Counting

  /** Byte ix of the block travels in a lost fragment. */
  ghost predicate Gone(ix: nat, f: nat, lost: set<nat>)
    requires f > 0
  {
    ix % f in lost
  }

  /** The positions of the window of n bytes from byte a on that travel in lost fragments. */
  ghost function Lost(a: nat, n: nat, f: nat, lost: set<nat>): (l: seq<nat>)
    requires f > 0
    ensures |l| <= n && forall i :: 0 <= i < |l| ==> l[i] < n
    ensures forall i, j :: 0 <= i < j < |l| ==> l[i] != l[j]
  {
    if n == 0 then []
    else
      var l := Lost(a, n - 1, f, lost);
      if Gone(a + (n - 1), f, lost) then l + [n - 1] else l
  }

  lemma {:induction false} LostIff(a: nat, n: nat, f: nat, lost: set<nat>, q: nat)
    requires f > 0
    ensures q in Lost(a, n, f, lost) <==> q < n && Gone(a + q, f, lost)
  {
    hide Gone;
    if n > 0 {
      LostIff(a, n - 1, f, lost, q);
    }
  }

  /** Their number. */
  ghost function Count(a: nat, n: nat, f: nat, lost: set<nat>): nat
    requires f > 0
  {
    |Lost(a, n, f, lost)|
  }

  lemma CountLast(a: nat, n: nat, f: nat, lost: set<nat>)
    requires f > 0
    ensures Count(a, 0, f, lost) == 0
    ensures Count(a, n + 1, f, lost) == Count(a, n, f, lost) + (if Gone(a + n, f, lost) then 1 else 0)
  {}

  lemma {:induction false} CountAppend(a: nat, x: nat, y: nat, f: nat, lost: set<nat>)
    requires f > 0
    ensures Count(a, x + y, f, lost) == Count(a, x, f, lost) + Count(a + x, y, f, lost)
  {
    hide Count, Gone;
    if y == 0 {
      CountLast(a + x, 0, f, lost);
    } else {
      CountAppend(a, x, y - 1, f, lost);
      CountLast(a, x + (y - 1), f, lost);
      CountLast(a + x, y - 1, f, lost);
      assert a + (x + (y - 1)) == a + x + (y - 1);
    }
  }

  lemma {:induction false} CountMonotone(a: nat, x: nat, y: nat, f: nat, lost: set<nat>)
    requires f > 0 && x <= y
    ensures Count(a, x, f, lost) <= Count(a, y, f, lost)
  {
    hide Count, Gone;
    CountAppend(a, x, y - x, f, lost);
  }

  lemma GonePeriodic(ix: nat, q: nat, f: nat, lost: set<nat>)
    requires f > 0
    ensures Gone(ix + q * f, f, lost) == Gone(ix, f, lost)
  {
    AddMultiple(ix, q, f);
  }

  lemma GoneInFirstRound(ix: nat, f: nat, lost: set<nat>)
    requires ix < f
    ensures Gone(ix, f, lost) == (ix in lost)
  {
    DivModUnique(ix, f, 0, ix);
  }

  /** A full round over the fragments meets each of them once, wherever it starts. */
  lemma CountRoundShift(a: nat, f: nat, lost: set<nat>)
    requires f > 0
    ensures Count(a + 1, f, f, lost) == Count(a, f, f, lost)
  {
    hide Count, Gone;
    CountAppend(a, 1, f - 1, f, lost);
    CountLast(a, 0, f, lost);
    CountLast(a + 1, f - 1, f, lost);
    GonePeriodic(a, 1, f, lost);
    assert a + 1 + (f - 1) == a + 1 * f;
  }

  lemma {:induction false} CountRound(a: nat, f: nat, lost: set<nat>)
    requires f > 0
    ensures Count(a, f, f, lost) == Count(0, f, f, lost)
  {
    hide Count, Gone;
    if a > 0 {
      CountRound(a - 1, f, lost);
      CountRoundShift(a - 1, f, lost);
    }
  }

  /** From the start of a round, the window meets the first n fragments. */
  lemma {:induction false} CountFirst(n: nat, f: nat, lost: set<nat>)
    requires n <= f && f > 0
    ensures Count(0, n, f, lost) == |lost * Range(0, n)|
  {
    hide *;
    if n == 0 {
      CountLast(0, 0, f, lost);
      OverlapEmpty(lost);
    } else {
      CountFirst(n - 1, f, lost);
      CountLast(0, n - 1, f, lost);
      GoneInFirstRound(n - 1, f, lost);
      OverlapGrows(lost, n - 1);
    }
  }

  lemma OverlapEmpty(lost: set<nat>)
    ensures |lost * Range(0, 0)| == 0
  {
    assert lost * Range(0, 0) == {};
  }

  lemma OverlapGrows(lost: set<nat>, n: nat)
    ensures |lost * Range(0, n + 1)| == |lost * Range(0, n)| + (if n in lost then 1 else 0)
  {
    if n in lost {
      assert lost * Range(0, n + 1) == lost * Range(0, n) + {n};
    } else {
      assert lost * Range(0, n + 1) == lost * Range(0, n);
    }
  }

  lemma CountRoundBound(a: nat, f: nat, lost: set<nat>)
    requires f > 0
    ensures Count(a, f, f, lost) <= |lost|
  {
    hide Count, Gone;
    CountRound(a, f, lost);
    CountFirst(f, f, lost);
    SubsetSize(lost * Range(0, f), lost);
  }

  lemma {:induction false} CountRounds(a: nat, q: nat, f: nat, lost: set<nat>)
    requires f > 0
    ensures Count(a, q * f, f, lost) == q * Count(0, f, f, lost)
  {
    hide Count, Gone;
    if q == 0 {
      CountLast(a, 0, f, lost);
    } else {
      CountRounds(a, q - 1, f, lost);
      CountAppend(a, (q - 1) * f, f, f, lost);
      CountRound(a + (q - 1) * f, f, lost);
      OneMore(q - 1, f);
      OneMore(q - 1, Count(0, f, f, lost));
    }
  }

  function Min(x: nat, y: nat): nat {
    if x < y then x else y
  }

  /** The most bytes of a window of n that t fragments out of f can hold. */
  function WorstLoss(n: nat, f: nat, t: nat): nat
    requires f > 0
  {
    t * (n / f) + Min(t, n % f)
  }

  lemma CountBound(a: nat, n: nat, f: nat, lost: set<nat>)
    requires f > 0
    ensures Count(a, n, f, lost) <= WorstLoss(n, f, |lost|)
  {
    hide Count, Gone;
    var q, r := n / f, n % f;
    assert n == q * f + r;
    CountAppend(a, q * f, r, f, lost);
    CountRounds(a, q, f, lost);
    CountRoundBound(0, f, lost);
    CountMonotone(a + q * f, r, f, f, lost);
    CountRoundBound(a + q * f, f, lost);
    CountAtMost(a + q * f, r, f, lost);
    ProductBound(q, Count(0, f, f, lost), |lost|);
  }

  lemma CountAtMost(a: nat, n: nat, f: nat, lost: set<nat>)
    requires f > 0
    ensures Count(a, n, f, lost) <= n
  {}

  lemma ProductBound(q: nat, x: nat, y: nat)
    requires x <= y
    ensures q * x <= y * q
  {}

  /** Losing the first t fragments reaches the bound in the window at the start of the block. */
  lemma WorstLossReached(n: nat, f: nat, t: nat)
    requires f > 0 && t <= f
    ensures Count(0, n, f, Range(0, t)) == WorstLoss(n, f, t)
  {
    hide Count, Gone;
    WorstLossParts(n, f, t);
    hide *;
    RoundsAndRest(n / f, n % f, f, t);
  }

  lemma WorstLossParts(n: nat, f: nat, t: nat)
    requires f > 0
    ensures n == (n / f) * f + n % f
    ensures WorstLoss(n, f, t) == t * (n / f) + Min(t, n % f)
  {}

  lemma RoundsAndRest(q: nat, r: nat, f: nat, t: nat)
    requires r < f && t <= f
    ensures Count(0, q * f + r, f, Range(0, t)) == t * q + Min(t, r)
  {
    hide *;
    var lost := Range(0, t);
    CountAppend(0, q * f, r, f, lost);
    CountRounds(0, q, f, lost);
    CountPeriodic(q, r, f, lost);
    CountFirst(f, f, lost);
    CountFirst(r, f, lost);
    OverlapOfRanges(t, f);
    OverlapOfRanges(t, r);
    MinOfSmaller(t, f);
    Commute(q, t);
  }

  lemma MinOfSmaller(t: nat, f: nat)
    requires t <= f
    ensures Min(t, f) == t
  {}

  lemma Commute(q: nat, t: nat)
    ensures q * t == t * q
  {}

  lemma OverlapOfRanges(t: nat, n: nat)
    ensures |Range(0, t) * Range(0, n)| == Min(t, n)
  {
    assert Range(0, t) * Range(0, n) == Range(0, Min(t, n));
  }

  /** Whole rounds in front do not change what a window meets. */
  lemma {:induction false} CountPeriodic(q: nat, n: nat, f: nat, lost: set<nat>)
    requires f > 0
    ensures Count(0 + q * f, n, f, lost) == Count(0, n, f, lost)
  {
    hide Count, Gone;
    if n == 0 {
      CountLast(q * f, 0, f, lost);
      CountLast(0, 0, f, lost);
    } else {
      CountPeriodic(q, n - 1, f, lost);
      CountLast(q * f, n - 1, f, lost);
      CountLast(0, n - 1, f, lost);
      GonePeriodic(n - 1, q, f, lost);
    }
  }
}
