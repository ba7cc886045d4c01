/** When a poll leaves the main table holding exactly the valid reported hosts. */
module HostAgreement {
  import opened Basics
  import opened MacText
  import opened HostTable
  import opened HostMonitor
  import opened HostBalance

  /** The plain set the table stands for. */
  function Macs(t: seq<Cell>): set<Mac> {
    set c | c in t && c.Host? :: c.dev.mac
  }

  ghost predicate Healthy(t: Table) {
    Closed(t) && Unique(t)
  }

  /** The last report about m says it is valid. */
  ghost predicate LastValid(reports: seq<Report>, m: Mac) {
    exists i :: 0 <= i < |reports| && reports[i].dev.mac == m && reports[i].valid
      && forall j :: i < j < |reports| ==> reports[j].dev.mac != m
  }

  predicate Reported(reports: seq<Report>, m: Mac) {
    exists r :: r in reports && r.dev.mac == m
  }

  predicate ReportedValid(reports: seq<Report>, m: Mac) {
    exists r :: r in reports && r.valid && r.dev.mac == m
  }

  function HostCount(t: seq<Cell>): nat {
    if t == [] then 0
    else HostCount(t[..|t| - 1]) + if t[|t| - 1].Host? then 1 else 0
  }

  // ----- counting cells

  lemma {:induction false} HostCountUpdate(t: seq<Cell>, i: nat, c: Cell)
    requires i < |t|
    ensures HostCount(t[i := c]) == HostCount(t) - (if t[i].Host? then 1 else 0) + if c.Host? then 1 else 0
  {
    var n := |t| - 1;
    if i == n {
      assert t[i := c][..n] == t[..n];
    } else {
      assert t[i := c][..n] == t[..n][i := c];
      HostCountUpdate(t[..n], i, c);
    }
  }

  lemma {:induction false} HostCountFull(t: seq<Cell>)
    ensures HostCount(t) <= |t|
    ensures HostCount(t) < |t| <==> exists i :: 0 <= i < |t| && !t[i].Host?
  {
    if t != [] {
      var p := t[..|t| - 1];
      HostCountFull(p);
      assert forall i :: 0 <= i < |p| ==> p[i] == t[i];
    }
  }

  /** With unique addresses there is one cell per stored address. */
  lemma {:induction false} UniqueCount(t: seq<Cell>)
    requires forall i, j | 0 <= i < |t| && 0 <= j < |t| && t[i].Host? && t[j].Host? && t[i].dev.mac == t[j].dev.mac :: i == j
    ensures HostCount(t) == |Macs(t)|
  {
    if t == [] {
      assert Macs(t) == {};
    } else {
      var n := |t| - 1;
      var p, c := t[..n], t[n];
      UniqueCount(p);
      assert t == p + [c];
      if c.Host? {
        assert c.dev.mac !in Macs(p);
        assert Macs(t) == Macs(p) + {c.dev.mac};
      } else {
        assert Macs(t) == Macs(p);
      }
    }
  }

  lemma EmptyTable()
    ensures Healthy(NoHosts()) && Macs(NoHosts()) == {} && HostCount(NoHosts()) == 0
  {
    UniqueCount(NoHosts());
    assert Macs(NoHosts()) == {};
  }

  lemma MacsStored(t: Table, m: Mac)
    ensures m in Macs(t) <==> Stored(t, m)
  {
    if m in Macs(t) {
      var c :| c in t && c.Host? && c.dev.mac == m;
      var i :| 0 <= i < SIZE && t[i] == c;
      assert Holds(t[i], m);
    }
  }

  lemma MacsUpdate(t: Table, i: nat, c: Cell)
    requires i < SIZE && Unique(t)
    ensures Macs(t[i := c]) == Macs(t) - Macs([t[i]]) + Macs([c])
  {
    var u := t[i := c];
    forall m
      ensures m in Macs(u) <==> m in Macs(t) - Macs([t[i]]) + Macs([c])
    {
      MacsStored(t, m);
      MacsStored(u, m);
      if Stored(u, m) {
        var j :| 0 <= j < SIZE && Holds(u[j], m);
        if j == i {
          assert c in [c];
        } else {
          assert Holds(t[j], m);
        }
      }
      if m in Macs([c]) {
        assert Holds(u[i], m);
      } else if m in Macs(t) - Macs([t[i]]) {
        var j :| 0 <= j < SIZE && Holds(t[j], m);
        assert t[i] in [t[i]];
        assert j != i && Holds(u[j], m);
      }
    }
  }

  // ----- one report

  /** Freeing m's cell cuts no other host off. */
  ghost predicate SafeErase(t: Table, m: Mac) {
    Find(t, m).Some? ==>
      var i := Find(t, m).value;
      forall j :: 0 <= j < SIZE && j != i && t[j].Host? ==> !Crosses(t, j, i)
  }

  lemma AddAgrees(t: Table, d: Device)
    requires Closed(t)
    ensures Closed(Add(t, d).0)
    ensures Find(t, d.mac).None? && Unique(t) ==> Unique(Add(t, d).0)
    ensures HostCount(t) < SIZE ==>
      Macs(Add(t, d).0) == Macs(t) + {d.mac} && HostCount(Add(t, d).0) == HostCount(t) + 1
    ensures HostCount(t) < SIZE <==> Add(t, d).1
  {
    AddMeaning(t, d);
    FindIsMembership(t, d.mac);
    HostCountFull(t);
    if Add(t, d).1 {
      var i :| 0 <= i < SIZE && !t[i].Host? && Add(t, d).0 == t[i := Host(d.(active := true))];
      var c := Host(d.(active := true));
      HostCountUpdate(t, i, c);
      StoreMacs(t, i, c);
      if Find(t, d.mac).None? && Unique(t) {
        assert forall j :: 0 <= j < SIZE && t[j].Host? ==> t[j].dev.mac != d.mac by {
          forall j | 0 <= j < SIZE && t[j].Host?
            ensures t[j].dev.mac != d.mac
          {
            assert !Holds(t[j], d.mac);
          }
        }
      }
    }
  }

  lemma StoreMacs(t: Table, i: nat, c: Cell)
    requires i < SIZE && !t[i].Host? && c.Host?
    ensures Macs(t[i := c]) == Macs(t) + {c.dev.mac}
  {
    var u := t[i := c];
    assert u[i] == c;
    forall m
      ensures m in Macs(u) <==> m in Macs(t) + {c.dev.mac}
    {
      MacsStored(t, m);
      MacsStored(u, m);
      if Stored(t, m) {
        var j :| 0 <= j < SIZE && Holds(t[j], m);
        assert Holds(u[j], m);
      }
      if Stored(u, m) {
        var j :| 0 <= j < SIZE && Holds(u[j], m);
        assert j == i || Holds(t[j], m);
      }
      assert Holds(u[i], c.dev.mac);
    }
  }

  lemma DeleteAgrees(s: Side, m: Mac, hole: Hole)
    requires Healthy(s.t)
    requires hole == Deleted || SafeErase(s.t, m)
    ensures Healthy(DeleteHost(s, m, hole).t)
    ensures Macs(DeleteHost(s, m, hole).t) == Macs(s.t) - {m}
  {
    FindIsMembership(s.t, m);
    MacsStored(s.t, m);
    if Find(s.t, m).Some? {
      var i := Find(s.t, m).value;
      MacsUpdate(s.t, i, hole);
      assert Macs([hole]) == {};
      assert Macs([s.t[i]]) == {m} by {
        assert s.t[i] in [s.t[i]];
      }
      if hole == Deleted {
        DummyKeepsClosed(s.t, i);
      } else {
        EraseKeepsClosedIff(s.t, i);
      }
    }
  }

  // ----- the connection loop

  /** The plain set after a run of reports. */
  function Track(start: set<Mac>, reports: seq<Report>): set<Mac> {
    if reports == [] then start
    else
      var before, r := Track(start, reports[..|reports| - 1]), reports[|reports| - 1];
      if r.valid then before + {r.dev.mac} else before - {r.dev.mac}
  }

  lemma {:induction false} TrackMeaning(start: set<Mac>, reports: seq<Report>, m: Mac)
    ensures m in Track(start, reports) <==> LastValid(reports, m) || (m in start && !Reported(reports, m))
  {
    if reports != [] {
      var n := |reports| - 1;
      var p, r := reports[..n], reports[n];
      TrackMeaning(start, p, m);
      assert reports == p + [r];
      if r.dev.mac == m {
        assert r in reports;
        if r.valid { assert LastValid(reports, m); }
      } else {
        assert Reported(reports, m) <==> Reported(p, m) by {
          if Reported(p, m) {
            var q :| q in p && q.dev.mac == m;
            assert q in reports;
          }
        }
        if LastValid(p, m) {
          var i :| 0 <= i < |p| && p[i].dev.mac == m && p[i].valid && forall j :: i < j < |p| ==> p[j].dev.mac != m;
          assert reports[i] == p[i];
          forall j | i < j < |reports| ensures reports[j].dev.mac != m { if j < n { assert reports[j] == p[j]; } }
        }
        if LastValid(reports, m) {
          var i :| 0 <= i < |reports| && reports[i].dev.mac == m && reports[i].valid
            && forall j :: i < j < |reports| ==> reports[j].dev.mac != m;
          assert p[i] == reports[i];
          forall j | i < j < |p| ensures p[j].dev.mac != m { assert reports[j] == p[j]; }
        }
      }
    }
  }

  lemma LoopOne(s: State, r: Report, hole: Hole)
    ensures PlusLoop(s, [r], hole) == PlusStep(s, r, hole)
  {
    assert [r][..0] == [];
  }

  /** No cell freed while the reports are taken lies on another host's path. */
  ghost predicate SafeReports(s: State, reports: seq<Report>, hole: Hole) {
    reports != [] ==>
      && SafeReports(s, reports[..|reports| - 1], hole)
      && (reports[|reports| - 1].valid
          || SafeErase(PlusLoop(s, reports[..|reports| - 1], hole).main.t, reports[|reports| - 1].dev.mac))
  }

  function ValidCount(reports: seq<Report>): nat {
    if reports == [] then 0
    else ValidCount(reports[..|reports| - 1]) + if reports[|reports| - 1].valid then 1 else 0
  }

  /** There is room in the plain set for every newcomer at the time it is reported. */
  ghost predicate Fits(start: set<Mac>, reports: seq<Report>) {
    reports != [] ==>
      var p, r := reports[..|reports| - 1], reports[|reports| - 1];
      Fits(start, p) && (r.valid && r.dev.mac !in Track(start, p) ==> |Track(start, p)| < SIZE)
  }

  /** The connection loop keeps the main table healthy and the temporary one closed. */
  lemma {:induction false} PlusLoopHealthy(s: State, reports: seq<Report>, hole: Hole)
    requires Healthy(s.main.t) && s.temp == NoHosts()
    requires hole == Deleted || SafeReports(s, reports, hole)
    ensures Healthy(PlusLoop(s, reports, hole).main.t) && Closed(PlusLoop(s, reports, hole).temp)
  {
    if reports != [] {
      var n := |reports| - 1;
      PlusLoopHealthy(s, reports[..n], hole);
      var u, r := PlusLoop(s, reports[..n], hole), reports[n];
      if r.valid {
        AddAgrees(u.main.t, r.dev);
        AddAgrees(u.temp, r.dev);
      } else {
        DeleteAgrees(u.main, r.dev.mac, hole);
      }
    }
  }

  /** With room for the newcomers, the connection loop tracks the plain set in the main
      table. */
  lemma {:induction false} PlusLoopTracks(s: State, reports: seq<Report>, hole: Hole)
    requires Healthy(s.main.t) && s.temp == NoHosts() && Fits(Macs(s.main.t), reports)
    requires hole == Deleted || SafeReports(s, reports, hole)
    ensures Macs(PlusLoop(s, reports, hole).main.t) == Track(Macs(s.main.t), reports)
  {
    if reports != [] {
      var n := |reports| - 1;
      PlusLoopHealthy(s, reports[..n], hole);
      PlusLoopTracks(s, reports[..n], hole);
      StepTracksIff(PlusLoop(s, reports[..n], hole), reports[n], hole);
    }
  }

  /** One report changes the main table as it changes the plain set if and only if a
      newcomer finds room. */
  lemma StepTracksIff(u: State, r: Report, hole: Hole)
    requires Healthy(u.main.t) && (hole == Deleted || r.valid || SafeErase(u.main.t, r.dev.mac))
    ensures var start, v := Macs(u.main.t), PlusStep(u, r, hole).main.t;
      Macs(v) == (if r.valid then start + {r.dev.mac} else start - {r.dev.mac})
      <==> (r.valid && r.dev.mac !in start ==> |start| < SIZE)
  {
    UniqueCount(u.main.t);
    FindIsMembership(u.main.t, r.dev.mac);
    MacsStored(u.main.t, r.dev.mac);
    if r.valid {
      AddAgrees(u.main.t, r.dev);
    } else {
      DeleteAgrees(u.main, r.dev.mac, hole);
    }
  }

  /** The addresses that the temporary table has room for: those among the first 256
      valid reports, repetitions included. */
  function Kept(reports: seq<Report>): set<Mac> {
    if reports == [] then {}
    else
      var p, r := reports[..|reports| - 1], reports[|reports| - 1];
      Kept(p) + if r.valid && ValidCount(p) < SIZE then {r.dev.mac} else {}
  }

  lemma {:induction false} KeptReported(reports: seq<Report>, m: Mac)
    requires m in Kept(reports)
    ensures ReportedValid(reports, m)
  {
    var n := |reports| - 1;
    if m in Kept(reports[..n]) {
      KeptReported(reports[..n], m);
      var r :| r in reports[..n] && r.valid && r.dev.mac == m;
      assert r in reports;
    } else {
      assert reports[n] in reports;
    }
  }

  /** Without more than 256 valid reports, none is lost. */
  lemma {:induction false} KeptAll(reports: seq<Report>, m: Mac)
    requires ValidCount(reports) <= SIZE && ReportedValid(reports, m)
    ensures m in Kept(reports)
  {
    var n := |reports| - 1;
    if ReportedValid(reports[..n], m) {
      KeptAll(reports[..n], m);
    } else {
      assert reports == reports[..n] + [reports[n]];
    }
  }

  ghost predicate Collects(temp: Table, reports: seq<Report>) {
    Closed(temp) && Macs(temp) == Kept(reports)
    && HostCount(temp) == if ValidCount(reports) < SIZE then ValidCount(reports) else SIZE
  }

  /** The temporary table collects the first 256 valid reports. */
  lemma {:induction false} PlusLoopCollects(s: State, reports: seq<Report>, hole: Hole)
    requires s.temp == NoHosts()
    ensures Collects(PlusLoop(s, reports, hole).temp, reports)
  {
    if reports == [] {
      EmptyTable();
    } else {
      var n := |reports| - 1;
      PlusLoopCollects(s, reports[..n], hole);
      AddAgrees(PlusLoop(s, reports[..n], hole).temp, reports[n].dev);
    }
  }

  // ----- the disconnection loop

  /** A probe path may cross a leaver's cell only if its host leaves too, from an
      earlier cell of the array. */
  ghost predicate SafeSweep(t: Table, temp: Table) {
    forall i, j :: 0 <= i < SIZE && 0 <= j < SIZE && i != j && Leaving(t[i], temp) && t[j].Host? && Crosses(t, j, i)
      ==> Leaving(t[j], temp) && j < i
  }

  /** Exactly the leavers among the first n cells erased. */
  function Swept(t: Table, temp: Table, hole: Hole, n: nat): (u: Table)
    ensures forall i :: 0 <= i < SIZE ==> u[i] == if i < n && Leaving(t[i], temp) then hole else t[i]
  {
    seq(SIZE, i requires 0 <= i < SIZE => if i < n && Leaving(t[i], temp) then hole else t[i])
  }

  lemma SweepOne(s: Side, t: Table, temp: Table, hole: Hole, n: nat)
    requires n < SIZE && Healthy(s.t) && s.t == Swept(t, temp, hole, n)
    requires Leaving(t[n], temp)
    requires hole == Deleted || SafeSweep(t, temp)
    ensures DeleteHost(s, t[n].dev.mac, hole).t == Swept(t, temp, hole, n + 1)
    ensures Healthy(Swept(t, temp, hole, n + 1))
  {
    var m := t[n].dev.mac;
    assert Holds(s.t[n], m);
    FindIsMembership(s.t, m);
    var i := Find(s.t, m).value;
    assert i == n;
    assert s.t[n := hole] == Swept(t, temp, hole, n + 1);
    if hole == Deleted {
      DummyKeepsClosed(s.t, n);
    } else {
      forall j | 0 <= j < SIZE && j != n && s.t[j].Host?
        ensures !Crosses(s.t, j, n)
      {
        assert s.t[j] == t[j];
        assert Crosses(s.t, j, n) == Crosses(t, j, n);
      }
      EraseKeepsClosedIff(s.t, n);
    }
  }

  /** The loop erases exactly the leavers and keeps the table healthy. */
  lemma {:induction false} SweepAgrees(s: Side, temp: Table, hole: Hole, n: nat)
    requires n <= SIZE && Healthy(s.t)
    requires hole == Deleted || SafeSweep(s.t, temp)
    ensures Sweep(s, temp, hole, n).t == Swept(s.t, temp, hole, n)
    ensures Healthy(Sweep(s, temp, hole, n).t)
  {
    if n == 0 {
      assert Swept(s.t, temp, hole, 0) == s.t;
    } else {
      SweepAgrees(s, temp, hole, n - 1);
      var u := Sweep(s, temp, hole, n - 1);
      if Leaving(s.t[n - 1], temp) {
        SweepOne(u, s.t, temp, hole, n - 1);
      } else {
        assert Swept(s.t, temp, hole, n) == u.t;
      }
    }
  }

  /** Cell i after the first n visits: as it was, or a leaver that was erased. */
  ghost predicate Visited(s: Side, temp: Table, hole: Hole, n: nat, u: Table) {
    forall i :: 0 <= i < SIZE ==> u[i] == s.t[i] || (i < n && u[i] == hole && Leaving(s.t[i], temp))
  }

  lemma VisitedUnique(s: Side, temp: Table, hole: Hole, n: nat, u: Table, i: nat, j: nat)
    requires Unique(s.t) && Visited(s, temp, hole, n, u) && i < SIZE && j < SIZE
    requires u[i].Host? && u[j].Host? && u[i].dev.mac == u[j].dev.mac
    ensures i == j
  {
    assert u[i] == s.t[i] && u[j] == s.t[j];
  }

  /** One visit changes at most the cell visited, and only by erasing a leaver. */
  lemma VisitLocal(s: Side, temp: Table, hole: Hole, n: nat, u: Side)
    requires Unique(s.t) && n < SIZE && Visited(s, temp, hole, n, u.t)
    requires Leaving(u.t[n], temp)
    ensures var v := DeleteHost(u, u.t[n].dev.mac, hole).t;
      v == u.t || v == u.t[n := hole]
  {
    var r := Find(u.t, u.t[n].dev.mac);
    if r.Some? { VisitedUnique(s, temp, hole, n, u.t, n, r.value); }
  }

  /** Without any condition, the loop changes a cell only while it visits it, and
      only by erasing a leaver. */
  lemma {:induction false} SweepLocal(s: Side, temp: Table, hole: Hole, n: nat)
    requires n <= SIZE && Unique(s.t)
    ensures Visited(s, temp, hole, n, Sweep(s, temp, hole, n).t)
  {
    if n > 0 {
      SweepLocal(s, temp, hole, n - 1);
      var u := Sweep(s, temp, hole, n - 1);
      if Leaving(u.t[n - 1], temp) { VisitLocal(s, temp, hole, n - 1, u); }
    }
  }

  lemma SweepStep(s: Side, temp: Table, hole: Hole, n: nat)
    requires n < SIZE && Unique(s.t)
    ensures var u := Sweep(s, temp, hole, n).t;
      Sweep(s, temp, hole, n + 1).t == u || Sweep(s, temp, hole, n + 1).t == u[n := hole]
  {
    SweepLocal(s, temp, hole, n);
    var u := Sweep(s, temp, hole, n);
    if Leaving(u.t[n], temp) { VisitLocal(s, temp, hole, n, u); }
  }

  lemma {:induction false} SweepStable(s: Side, temp: Table, hole: Hole, n: nat, k: nat, i: nat)
    requires n <= k <= SIZE && Unique(s.t)
    requires i < n || k <= i < SIZE
    ensures Sweep(s, temp, hole, k).t[i] == Sweep(s, temp, hole, n).t[i]
    decreases k
  {
    if n < k {
      SweepStable(s, temp, hole, n, k - 1, i);
      SweepStep(s, temp, hole, k - 1);
    }
  }

  lemma {:induction false} SweepKeepsEmpty(s: Side, temp: Table, n: nat, k: nat, e: nat)
    requires n <= k <= SIZE && e < SIZE && Unique(s.t) && Sweep(s, temp, Empty, n).t[e].Empty?
    ensures Sweep(s, temp, Empty, k).t[e].Empty?
    decreases k
  {
    if n < k {
      SweepKeepsEmpty(s, temp, n, k - 1, e);
      SweepStep(s, temp, Empty, k - 1);
    }
  }

  /** When the loop leaves every host findable, it has missed no leaver. */
  lemma ClosedEndIsSwept(s: Side, temp: Table)
    requires Unique(s.t) && Closed(Sweep(s, temp, Empty, SIZE).t)
    ensures Sweep(s, temp, Empty, SIZE).t == Swept(s.t, temp, Empty, SIZE)
  {
    var v := Sweep(s, temp, Empty, SIZE).t;
    SweepLocal(s, temp, Empty, SIZE);
    forall i | 0 <= i < SIZE && Leaving(s.t[i], temp)
      ensures v[i] == Empty
    {
      if v[i] == s.t[i] { MissedLeaverCutOff(s, temp, i); }
    }
  }

  /** A leaver that is missed is cut off at the end. */
  lemma MissedLeaverCutOff(s: Side, temp: Table, i: nat)
    requires Unique(s.t) && i < SIZE && Leaving(s.t[i], temp)
    requires Sweep(s, temp, Empty, SIZE).t[i] == s.t[i]
    ensures !Closed(Sweep(s, temp, Empty, SIZE).t)
  {
    var u, v, m := Sweep(s, temp, Empty, i).t, Sweep(s, temp, Empty, SIZE).t, s.t[i].dev.mac;
    SweepLocal(s, temp, Empty, i);
    SweepStable(s, temp, Empty, i + 1, SIZE, i);
    FindMeaning(u, m);
    assert u[i] == s.t[i];
    if Find(u, m).Some? {
      VisitedUnique(s, temp, Empty, i, u, i, Find(u, m).value);
      assert false;
    } else {
      assert !Reachable(u, i) by { assert Holds(u[i], m); }
      var e :| 0 <= e < SIZE && u[e].Empty? && Crosses(u, i, e);
      SweepKeepsEmpty(s, temp, i, SIZE, e);
      assert Crosses(v, i, e);
    }
  }

  /** As written, the loop leaves every remaining host findable, and then with exactly
      the leavers gone, if and only if the probe paths meet SafeSweep. */
  lemma SweepAgreesIff(s: Side, temp: Table)
    requires Healthy(s.t)
    ensures SafeSweep(s.t, temp) <==> Closed(Sweep(s, temp, Empty, SIZE).t)
    ensures SafeSweep(s.t, temp) ==> Sweep(s, temp, Empty, SIZE).t == Swept(s.t, temp, Empty, SIZE)
  {
    var v := Sweep(s, temp, Empty, SIZE).t;
    if SafeSweep(s.t, temp) {
      SweepAgrees(s, temp, Empty, SIZE);
    }
    if Closed(v) {
      ClosedEndIsSwept(s, temp);
      forall i, j | 0 <= i < SIZE && 0 <= j < SIZE && i != j && Leaving(s.t[i], temp) && s.t[j].Host?
                    && Crosses(s.t, j, i)
        ensures Leaving(s.t[j], temp) && j < i
      {
        assert v[i].Empty?;
        if !Leaving(s.t[j], temp) {
          assert v[j] == s.t[j];
          assert Crosses(v, j, i);
        } else if i < j {
          LateLeaverStays(s, temp, i, j);
        }
      }
    }
  }

  /** A leaver whose path crosses the cell of an earlier erased leaver is missed. */
  lemma LateLeaverStays(s: Side, temp: Table, i: nat, j: nat)
    requires Unique(s.t) && i < j < SIZE
    requires Leaving(s.t[j], temp) && Crosses(s.t, j, i)
    requires Sweep(s, temp, Empty, SIZE).t[i].Empty?
    ensures Sweep(s, temp, Empty, SIZE).t[j] == s.t[j]
  {
    var u := Sweep(s, temp, Empty, j);
    SweepLocal(s, temp, Empty, j);
    SweepStable(s, temp, Empty, 0, j, j);
    SweepStable(s, temp, Empty, j, SIZE, i);
    SweepStable(s, temp, Empty, j + 1, SIZE, j);
    var m := s.t[j].dev.mac;
    assert u.t[j] == s.t[j] && u.t[i].Empty? && Crosses(u.t, j, i);
    FindMeaning(u.t, m);
  }
}
