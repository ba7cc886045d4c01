/** Notifications balance the main table over every run, and the bookkeeping
    between polls is sound, whatever the HAL answers. */
module HostBalance {
  import opened Basics
  import opened MacText
  import opened HostTable
  import opened HostMonitor

  /** Notifications about m with the given active flag. */
  function Count(log: seq<Device>, m: Mac, active: bool): nat {
    if log == [] then 0
    else
      var d := log[|log| - 1];
      Count(log[..|log| - 1], m, active) + if d.mac == m && d.active == active then 1 else 0
  }

  /** Cells that hold m. */
  function Held(t: seq<Cell>, m: Mac): nat {
    if t == [] then 0
    else Held(t[..|t| - 1], m) + if Holds(t[|t| - 1], m) then 1 else 0
  }

  /** Arrivals announced for m minus departures announced for m is the number
      of cells that hold m. */
  predicate Balanced(s: Side, m: Mac) {
    Count(s.log, m, true) - Count(s.log, m, false) == Held(s.t, m)
  }

  lemma CountSnoc(log: seq<Device>, d: Device, m: Mac, active: bool)
    ensures Count(log + [d], m, active)
         == Count(log, m, active) + if d.mac == m && d.active == active then 1 else 0
  {
    assert (log + [d])[..|log|] == log;
  }

  lemma {:induction false} HeldUpdate(t: seq<Cell>, i: nat, c: Cell, m: Mac)
    requires i < |t|
    ensures Held(t[i := c], m) == Held(t, m) - (if Holds(t[i], m) then 1 else 0) + if Holds(c, m) then 1 else 0
  {
    var n := |t| - 1;
    if i == n {
      assert t[i := c][..n] == t[..n];
    } else {
      assert t[i := c][..n] == t[..n][i := c];
      HeldUpdate(t[..n], i, c, m);
    }
  }

  lemma {:induction false} HeldNone(t: seq<Cell>, m: Mac)
    requires forall i :: 0 <= i < |t| ==> !Holds(t[i], m)
    ensures Held(t, m) == 0
  {
    if t != [] { HeldNone(t[..|t| - 1], m); }
  }

  lemma AddBalances(s: Side, d: Device, m: Mac)
    requires Balanced(s, m)
    ensures Balanced(AddHost(s, d), m)
    ensures Count(AddHost(s, d).log, m, false) == Count(s.log, m, false)
    ensures d.mac != m ==> Count(AddHost(s, d).log, m, true) == Count(s.log, m, true)
  {
    var online := d.(active := true);
    CountSnoc(s.log, online, m, true);
    CountSnoc(s.log, online, m, false);
    if Slot(s.t, d.mac).Some? {
      HeldUpdate(s.t, Slot(s.t, d.mac).value, Host(online), m);
    }
  }

  lemma DeleteBalances(s: Side, k: Mac, hole: Hole, m: Mac)
    requires Balanced(s, m)
    ensures Balanced(DeleteHost(s, k, hole), m)
    ensures Count(DeleteHost(s, k, hole).log, m, true) == Count(s.log, m, true)
    ensures k != m ==> Count(DeleteHost(s, k, hole).log, m, false) == Count(s.log, m, false)
  {
    if Find(s.t, k).Some? {
      var i := Find(s.t, k).value;
      CountSnoc(s.log, s.t[i].dev.(active := false), m, true);
      CountSnoc(s.log, s.t[i].dev.(active := false), m, false);
      HeldUpdate(s.t, i, hole, m);
    }
  }

  lemma HeldSnoc(t: seq<Cell>, n: nat, m: Mac)
    requires 0 < n <= |t|
    ensures Held(t[..n], m) == Held(t[..n - 1], m) + if Holds(t[n - 1], m) then 1 else 0
  {
    assert t[..n][..n - 1] == t[..n - 1];
  }

  lemma DeparturesSnoc(log: seq<Device>, t: Table, n: nat)
    requires 0 < n <= SIZE
    ensures var before := log + Departures(t, n - 1);
      log + Departures(t, n) == if t[n - 1].Host? then before + [t[n - 1].dev.(active := false)] else before
  {
    if !t[n - 1].Host? { assert Departures(t, n) == Departures(t, n - 1); }
  }

  lemma {:induction false} DeparturesCount(log: seq<Device>, t: Table, n: nat, m: Mac)
    requires n <= SIZE
    ensures Count(log + Departures(t, n), m, false) == Count(log, m, false) + Held(t[..n], m)
    ensures Count(log + Departures(t, n), m, true) == Count(log, m, true)
  {
    if n == 0 {
      assert log + [] == log;
    } else {
      DeparturesCount(log, t, n - 1, m);
      HeldSnoc(t, n, m);
      DeparturesSnoc(log, t, n);
      var before, last := log + Departures(t, n - 1), t[n - 1];
      if last.Host? {
        CountSnoc(before, last.dev.(active := false), m, true);
        CountSnoc(before, last.dev.(active := false), m, false);
      }
    }
  }

  lemma DeleteAllBalances(s: Side, m: Mac)
    requires Balanced(s, m)
    ensures Balanced(DeleteAll(s), m) && Held(DeleteAll(s).t, m) == 0
    ensures Count(DeleteAll(s).log, m, true) == Count(s.log, m, true)
  {
    DeparturesCount(s.log, s.t, SIZE, m);
    assert s.t[..SIZE] == s.t;
    HeldNone(NoHosts(), m);
  }

  lemma {:induction false} PlusLoopBalances(s: State, reports: seq<Report>, hole: Hole, m: Mac)
    requires Balanced(s.main, m)
    ensures Balanced(PlusLoop(s, reports, hole).main, m)
    ensures (forall r :: r in reports && r.dev.mac == m ==> r.valid)
      ==> Count(PlusLoop(s, reports, hole).main.log, m, false) == Count(s.main.log, m, false)
    ensures (forall r :: r in reports && r.dev.mac == m ==> !r.valid)
      ==> Count(PlusLoop(s, reports, hole).main.log, m, true) == Count(s.main.log, m, true)
  {
    if reports != [] {
      var n := |reports| - 1;
      PlusLoopBalances(s, reports[..n], hole, m);
      var u, r := PlusLoop(s, reports[..n], hole), reports[n];
      assert r in reports;
      AddBalances(u.main, r.dev, m);
      DeleteBalances(u.main, r.dev.mac, hole, m);
    }
  }

  lemma VisitBalances(u: Side, temp: Table, hole: Hole, n: nat, m: Mac)
    requires n < SIZE && Balanced(u, m)
    ensures var v := if Leaving(u.t[n], temp) then DeleteHost(u, u.t[n].dev.mac, hole) else u;
      Balanced(v, m) && Count(v.log, m, true) == Count(u.log, m, true)
  {
    if Leaving(u.t[n], temp) { DeleteBalances(u, u.t[n].dev.mac, hole, m); }
  }

  lemma {:induction false} SweepBalances(s: Side, temp: Table, hole: Hole, n: nat, m: Mac)
    requires n <= SIZE && Balanced(s, m)
    ensures Balanced(Sweep(s, temp, hole, n), m)
    ensures Count(Sweep(s, temp, hole, n).log, m, true) == Count(s.log, m, true)
  {
    if n != 0 {
      SweepBalances(s, temp, hole, n - 1, m);
      VisitBalances(Sweep(s, temp, hole, n - 1), temp, hole, n - 1, m);
    }
  }

  lemma PollBalances(s: State, answer: Option<seq<Report>>, hole: Hole, m: Mac)
    requires Balanced(s.main, m)
    ensures Balanced(Poll(s, answer, hole).main, m)
  {
    if answer.Some? {
      var reports := answer.value;
      DeleteAllBalances(s.main, m);
      PlusLoopBalances(s.(allDone := false), reports, hole, m);
      var u := PlusLoop(s.(allDone := false), reports, hole);
      SweepBalances(u.main, u.temp, hole, SIZE, m);
    }
  }

  /** Over every run, full tables and repeated reports included: each address has
      as many cells as arrivals minus departures announced for it. */
  lemma {:induction false} RunBalanced(answers: seq<Option<seq<Report>>>, hole: Hole, m: Mac)
    ensures Balanced(Polls(answers, hole).main, m)
  {
    if answers == [] {
      HeldNone(NoHosts(), m);
    } else {
      var n := |answers| - 1;
      RunBalanced(answers[..n], hole, m);
      PollBalances(Polls(answers[..n], hole), answers[n], hole, m);
    }
  }

  /** Over every run: the temporary table is empty between polls, and the flag
      that suppresses a second mass disconnection is set only while the main
      table is empty. */
  lemma {:induction false} RunTidy(answers: seq<Option<seq<Report>>>, hole: Hole)
    ensures Polls(answers, hole).temp == NoHosts()
    ensures Polls(answers, hole).allDone ==> Polls(answers, hole).main.t == NoHosts()
  {
    if answers != [] {
      RunTidy(answers[..|answers| - 1], hole);
    }
  }
}
