/** What the notifications say: an arrival carries a device that was reported as valid,
    a departure the device as it was announced. */
module HostNotices {
  import opened Basics
  import opened MacText
  import opened HostTable
  import opened HostMonitor

  /** Arrivals are of known devices, departures of devices announced before. */
  ghost predicate Grounded(log: seq<Device>, known: set<Device>) {
    forall k :: 0 <= k < |log| ==> if log[k].active then log[k] in known else log[k].(active := true) in log[..k]
  }

  /** The hosts stored are as they were announced. */
  ghost predicate Announced(t: Table, log: seq<Device>) {
    forall i :: 0 <= i < SIZE && t[i].Host? ==> t[i].dev.active && t[i].dev in log
  }

  ghost predicate Sound(s: Side, known: set<Device>) {
    Grounded(s.log, known) && Announced(s.t, s.log)
  }

  lemma GroundedSnoc(log: seq<Device>, known: set<Device>, d: Device)
    requires Grounded(log, known)
    requires if d.active then d in known else d.(active := true) in log
    ensures Grounded(log + [d], known)
  {
    var all := log + [d];
    forall k | 0 <= k < |all|
      ensures if all[k].active then all[k] in known else all[k].(active := true) in all[..k]
    {
      assert all[..k] == log[..k];
      assert k < |log| ==> all[k] == log[k];
      assert log[..|log|] == log;
    }
  }

  lemma GroundedMore(log: seq<Device>, known: set<Device>, more: set<Device>)
    requires Grounded(log, known) && known <= more
    ensures Grounded(log, more)
  {
  }

  lemma AddSound(s: Side, d: Device, known: set<Device>)
    requires Sound(s, known) && d.(active := true) in known
    ensures Sound(AddHost(s, d), known)
  {
    GroundedSnoc(s.log, known, d.(active := true));
  }

  lemma DeleteSound(s: Side, m: Mac, hole: Hole, known: set<Device>)
    requires Sound(s, known)
    ensures Sound(DeleteHost(s, m, hole), known)
  {
    if Find(s.t, m).Some? {
      var d := s.t[Find(s.t, m).value].dev;
      assert d.(active := false).(active := true) == d;
      GroundedSnoc(s.log, known, d.(active := false));
    }
  }

  lemma {:induction false} DeparturesSound(s: Side, known: set<Device>, n: nat)
    requires n <= SIZE && Sound(s, known)
    ensures Grounded(s.log + Departures(s.t, n), known)
  {
    if n == 0 {
      assert s.log + [] == s.log;
    } else {
      DeparturesSound(s, known, n - 1);
      var before, c := s.log + Departures(s.t, n - 1), s.t[n - 1];
      if c.Host? {
        assert c.dev.(active := false).(active := true) == c.dev;
        GroundedSnoc(before, known, c.dev.(active := false));
        assert s.log + Departures(s.t, n) == before + [c.dev.(active := false)];
      } else {
        assert Departures(s.t, n) == Departures(s.t, n - 1);
      }
    }
  }

  function Known(reports: seq<Report>): set<Device> {
    set r | r in reports && r.valid :: r.dev.(active := true)
  }

  lemma {:induction false} PlusLoopSound(s: State, reports: seq<Report>, hole: Hole, known: set<Device>)
    requires Sound(s.main, known) && Known(reports) <= known
    ensures Sound(PlusLoop(s, reports, hole).main, known)
  {
    if reports != [] {
      var n := |reports| - 1;
      assert forall r :: r in reports[..n] ==> r in reports;
      PlusLoopSound(s, reports[..n], hole, known);
      var u, r := PlusLoop(s, reports[..n], hole).main, reports[n];
      assert r in reports;
      if r.valid {
        AddSound(u, r.dev, known);
      } else {
        DeleteSound(u, r.dev.mac, hole, known);
      }
    }
  }

  lemma {:induction false} SweepSound(s: Side, temp: Table, hole: Hole, known: set<Device>, n: nat)
    requires n <= SIZE && Sound(s, known)
    ensures Sound(Sweep(s, temp, hole, n), known)
  {
    if n > 0 {
      SweepSound(s, temp, hole, known, n - 1);
      var u := Sweep(s, temp, hole, n - 1);
      if Leaving(u.t[n - 1], temp) { DeleteSound(u, u.t[n - 1].dev.mac, hole, known); }
    }
  }

  /** The devices reported as valid in a run, marked online. */
  function KnownIn(answers: seq<Option<seq<Report>>>): set<Device> {
    if answers == [] then {}
    else
      var last := answers[|answers| - 1];
      KnownIn(answers[..|answers| - 1]) + if last.Some? then Known(last.value) else {}
  }

  lemma PollSound(s: State, answer: Option<seq<Report>>, hole: Hole, known: set<Device>)
    requires Sound(s.main, known) && (answer.Some? ==> Known(answer.value) <= known)
    ensures Sound(Poll(s, answer, hole).main, known)
  {
    if answer.Some? {
      DeparturesSound(s.main, known, SIZE);
      var u := PlusLoop(s.(allDone := false), answer.value, hole);
      PlusLoopSound(s.(allDone := false), answer.value, hole, known);
      SweepSound(u.main, u.temp, hole, known, SIZE);
    }
  }

  /** Over every run: each arrival announced is of a device reported as valid, with all
      that the report says of it, each departure of a device announced before, and the
      hosts stored are as they were announced. */
  lemma {:induction false} RunSound(answers: seq<Option<seq<Report>>>, hole: Hole)
    ensures Sound(Polls(answers, hole).main, KnownIn(answers))
  {
    if answers != [] {
      var n := |answers| - 1;
      var s := Polls(answers[..n], hole);
      RunSound(answers[..n], hole);
      GroundedMore(s.main.log, KnownIn(answers[..n]), KnownIn(answers));
      PollSound(s, answers[n], hole, KnownIn(answers));
    }
  }
}
