/** The countdown of the Ethernet logger: it waits for a log period that may be
    rewritten during any of its one-minute sleeps. */
module LogPeriod {

  const TICK: int := 60
  const WORD: int := 0x1_0000_0000
  const HALF: int := 0x8000_0000

  type Ulong = x: int | 0 <= x < WORD

  /** The log period as it stands after each sleep. */
  type Periods = nat -> Ulong

  /** How many times the range of a signed long of 32 bits is exceeded. */
  function Over(x: int): int {
    (x + HALF) / WORD
  }

  /** Conversion to a signed long. */
  function Signed(x: int): (r: int)
    ensures -HALF <= r < HALF
  {
    x - WORD * Over(x)
  }

  /** The remaining time after k sleeps, as the loop computes it. */
  function TimeLeft(p: Periods, k: nat): (r: int)
    ensures -HALF <= r < HALF
    decreases k, 1
  {
    if k == 0 then Signed(p(0)) else Signed(Sum(p, k))
  }

  function Sum(p: Periods, k: nat): int
    requires k > 0
    decreases k, 0
  {
    TimeLeft(p, k - 1) - TICK + p(k) - p(k - 1)
  }

  /** Wrap-arounds up to sleep k. */
  function Wraps(p: Periods, k: nat): int {
    if k == 0 then Over(p(0)) else Wraps(p, k - 1) + Over(Sum(p, k))
  }

  /** Whatever is written, the remaining time is the current period less a minute for
      each sleep, up to the wrap-around of a long. */
  lemma {:induction false} TimeLeftWraps(p: Periods, k: nat)
    ensures TimeLeft(p, k) == p(k) - TICK * k - WORD * Wraps(p, k)
  {
    if k > 0 { TimeLeftWraps(p, k - 1); }
  }

  /** It is exact if and only if that value is one a long can hold. */
  lemma TimeLeftExactIff(p: Periods, k: nat)
    ensures TimeLeft(p, k) == p(k) - TICK * k <==> -HALF <= p(k) - TICK * k < HALF
  {
    TimeLeftWraps(p, k);
  }

  /** The loop has not ended before sleep k. */
  ghost predicate Waiting(p: Periods, k: nat) {
    forall j: nat :: j < k ==> TimeLeft(p, j) > 0
  }

  /** At no earlier tick had the elapsed time reached the period then in force. */
  ghost predicate NotDue(p: Periods, k: nat) {
    forall j: nat :: j < k ==> TICK * j < p(j)
  }

  ghost predicate Bounded(p: Periods, most: Ulong) {
    forall k: nat :: p(k) <= most
  }

  /** The wait is over exactly when the current period has elapsed. */
  ghost predicate OnTime(p: Periods) {
    forall k: nat :: Waiting(p, k) <==> NotDue(p, k)
  }

  /** The last whole minute that a long can count to. */
  const LAST: Ulong := HALF / TICK * TICK

  lemma {:induction false} WaitingIsNotDue(p: Periods, most: Ulong, k: nat)
    requires Bounded(p, most) && most <= LAST
    ensures Waiting(p, k) <==> NotDue(p, k)
    ensures Waiting(p, k) ==> TimeLeft(p, k) == p(k) - TICK * k
  {
    TimeLeftExactIff(p, k);
    if k > 0 {
      WaitingIsNotDue(p, most, k - 1);
      assert p(k - 1) <= most;
    }
  }

  /** A wait that outlasts the bound, though the period was cut to nothing. */
  lemma CutTooLate(most: Ulong)
    requires LAST < most < HALF
    ensures exists p: Periods :: Bounded(p, most) && !OnTime(p)
  {
    var last := HALF / TICK + 1;
    var p: Periods := k => if k < last then most else 0;
    WaitingUpTo(p, most, last, last);
    TimeLeftWraps(p, last);
    assert Bounded(p, most);
    assert Waiting(p, last + 1);
    assert !NotDue(p, last + 1) by { assert p(last) == 0; }
  }

  lemma {:induction false} WaitingUpTo(p: Periods, most: Ulong, last: nat, k: nat)
    requires LAST < most < HALF && k <= last == HALF / TICK + 1
    requires forall j: nat :: j < last ==> p(j) == most
    ensures Waiting(p, k)
  {
    if k > 0 {
      WaitingUpTo(p, most, last, k - 1);
      TimeLeftExactIff(p, k - 1);
    }
  }

  /** Every rewriting of the period within a bound is waited for on time if and only
      if a long can count to the bound in whole minutes. */
  lemma OnTimeIff(most: Ulong)
    ensures (forall p: Periods :: Bounded(p, most) ==> OnTime(p)) <==> most <= LAST
  {
    if most <= LAST {
      forall p: Periods | Bounded(p, most)
        ensures OnTime(p)
      {
        forall k: nat ensures Waiting(p, k) <==> NotDue(p, k) {
          WaitingIsNotDue(p, most, k);
        }
      }
    } else if most < HALF {
      CutTooLate(most);
    } else {
      var p: Periods := k => most;
      assert Bounded(p, most);
      assert TimeLeft(p, 0) < 0;
      assert !Waiting(p, 1) && NotDue(p, 1);
    }
  }

  // ----- does it end?

  /** The number of sleeps after which every period within HALF counts as over. */
  const SURE: nat := HALF / 4

  ghost predicate Ends(p: Periods) {
    exists k: nat :: TimeLeft(p, k) <= 0
  }

  lemma EndsBySure(p: Periods, most: Ulong)
    requires Bounded(p, most) && most <= HALF
    ensures TimeLeft(p, SURE) <= 0
  {
    TimeLeftWraps(p, SURE);
    assert p(SURE) <= most;
    assert TICK * SURE == 7 * WORD + HALF;
  }

  /** A rewriting that always leaves a positive time. */
  function Endless(k: nat): Ulong {
    var elapsed := TICK * k % WORD;
    if elapsed <= HALF then elapsed + 1 else 0
  }

  lemma EndlessNeverEnds(k: nat)
    ensures TimeLeft(Endless, k) > 0
  {
    var q, elapsed := TICK * k / WORD, TICK * k % WORD;
    var n := q + Wraps(Endless, k);
    TimeLeftWraps(Endless, k);
    assert TICK * k == WORD * q + elapsed;
    if elapsed <= HALF {
      InRange(TimeLeft(Endless, k), 1, n);
    } else {
      InRange(TimeLeft(Endless, k), WORD - elapsed, n + 1);
    }
  }

  lemma InRange(x: int, y: int, n: int)
    requires -HALF <= x < HALF && -HALF <= y < HALF && x == y - WORD * n
    ensures x == y
  {
  }

  /** Every rewriting of the period within a bound lets the wait end if and only if the
      bound is at most HALF. */
  lemma EndsIff(most: Ulong)
    ensures (forall p: Periods :: Bounded(p, most) ==> Ends(p)) <==> most <= HALF
  {
    if most <= HALF {
      forall p: Periods | Bounded(p, most)
        ensures Ends(p)
      {
        EndsBySure(p, most);
      }
    } else {
      var p: Periods := Endless;
      forall k: nat ensures TimeLeft(p, k) > 0 {
        EndlessNeverEnds(k);
      }
      assert Bounded(p, most) && !Ends(p);
    }
  }

  /** One wait of Ethernet_Logger_Thread: it ends at the first tick with no time left,
      and within LAST that is the first at which the elapsed time reaches the period
      in force. */
  method Wait(p: Periods, ghost most: Ulong) returns (ticks: nat)
    requires Bounded(p, most) && most <= HALF
    ensures Waiting(p, ticks) && TimeLeft(p, ticks) <= 0
    ensures most <= LAST ==> NotDue(p, ticks) && TICK * ticks >= p(ticks)
  {
    ticks := 0;
    var timeleft := Signed(p(0));
    EndsBySure(p, most);
    while timeleft > 0
      invariant timeleft == TimeLeft(p, ticks) && Waiting(p, ticks) && ticks <= SURE
      decreases SURE - ticks
    {
      var old_period := p(ticks);
      ticks := ticks + 1;
      timeleft := Signed(timeleft - TICK + p(ticks) - old_period);
    }
    if most <= LAST { WaitingIsNotDue(p, most, ticks); }
  }
}
