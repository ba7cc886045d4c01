/** Polls that lose a host for lack of room, whichever way hosts are deleted. */
module HostCrowds {
  import opened Basics
  import opened MacText
  import opened HostTable
  import opened HostMonitor
  import opened HostAgreement
  import opened HostPolls

  function Valid(devs: seq<Device>): (reports: seq<Report>)
    ensures |reports| == |devs| && forall i :: 0 <= i < |devs| ==> reports[i] == Report(devs[i], true)
  {
    seq(|devs|, i requires 0 <= i < |devs| => Report(devs[i], true))
  }

  ghost predicate AllValid(reports: seq<Report>) {
    forall r :: r in reports ==> r.valid
  }

  // ----- polls that report valid hosts only

  lemma {:induction false} ValidTrack(reports: seq<Report>)
    requires AllValid(reports)
    ensures |Track({}, reports)| <= |reports| == ValidCount(reports)
    ensures SafeReports(INITIAL, reports, Empty)
    ensures |reports| <= SIZE ==> Fits({}, reports)
  {
    if reports != [] {
      var n := |reports| - 1;
      assert reports[n] in reports;
      ValidTrack(reports[..n]);
    }
  }

  /** Up to 256 valid reports to the empty table are all stored. */
  lemma ValidPoll(reports: seq<Report>, hole: Hole)
    requires AllValid(reports) && 0 < |reports| <= SIZE
    ensures var v := Poll(INITIAL, Some(reports), hole);
      Healthy(v.main.t) && Macs(v.main.t) == Wanted(reports) && v.temp == NoHosts()
  {
    EmptyTable();
    ValidTrack(reports);
    forall m | m in Wanted(reports)
      ensures m in Kept(reports)
    {
      WantedMeaning(reports, m);
      LastValidReported(reports, m);
      KeptAll(reports, m);
    }
    var u := PlusLoop(INITIAL, reports, Empty);
    PlusLoopHealthy(INITIAL, reports, Empty);
    PlusLoopTracks(INITIAL, reports, Empty);
    PlusLoopCollects(INITIAL, reports, Empty);
    forall i | 0 <= i < SIZE && u.main.t[i].Host?
      ensures !Leaving(u.main.t[i], u.temp)
    {
      var m := u.main.t[i].dev.mac;
      assert Holds(u.main.t[i], m);
      MacsStored(u.main.t, m);
      TrackMeaning({}, reports, m);
      WantedMeaning(reports, m);
      FindIsMembership(u.temp, m);
      MacsStored(u.temp, m);
    }
    assert SafePoll(INITIAL, reports);
    PollAgreesIff(INITIAL, reports, hole);
  }

  // ----- a full main table

  lemma FullTableRefuses(s: State, d: Device, hole: Hole)
    requires Healthy(s.main.t) && |Macs(s.main.t)| == SIZE
    ensures PlusStep(s, Report(d, true), hole).main == s.main
  {
    UniqueCount(s.main.t);
    AddAgrees(s.main.t, d);
    AddMeaning(s.main.t, d);
  }

  lemma SweepAddsNobody(s: Side, temp: Table, hole: Hole, m: Mac)
    requires Unique(s.t) && m in Macs(Sweep(s, temp, hole, SIZE).t)
    ensures m in Macs(s.t)
  {
    var v := Sweep(s, temp, hole, SIZE).t;
    SweepLocal(s, temp, hole, SIZE);
    MacsStored(v, m);
    MacsStored(s.t, m);
    var i :| 0 <= i < SIZE && Holds(v[i], m);
    assert Holds(s.t[i], m);
  }

  /** A newcomer to a full table is refused, though the poll may free every cell. */
  lemma FullTableLosesNewcomer(s: State, d: Device, hole: Hole)
    requires Healthy(s.main.t) && s.temp == NoHosts()
    requires |Macs(s.main.t)| == SIZE && d.mac !in Macs(s.main.t)
    ensures var reports := [Report(d, true)];
      d.mac in Wanted(reports) && d.mac !in Macs(Poll(s, Some(reports), hole).main.t)
  {
    var r, s0 := Report(d, true), s.(allDone := false);
    var u := PlusLoop(s0, [r], hole);
    LoopOne(s0, r, hole);
    assert LastValid([r], d.mac) by { assert [r][0] == r; }
    WantedMeaning([r], d.mac);
    FullTableRefuses(s0, d, hole);
    if d.mac in Macs(Poll(s, Some([r]), hole).main.t) {
      SweepAddsNobody(u.main, u.temp, hole, d.mac);
    }
  }

  ghost predicate Distinct(devs: seq<Device>) {
    forall i, j :: 0 <= i < |devs| && 0 <= j < |devs| && devs[i].mac == devs[j].mac ==> i == j
  }

  function MacsOf(devs: seq<Device>): set<Mac> {
    set d | d in devs :: d.mac
  }

  lemma {:induction false} DistinctCount(devs: seq<Device>)
    requires Distinct(devs)
    ensures |MacsOf(devs)| == |devs|
  {
    if devs == [] {
      assert MacsOf(devs) == {};
    } else {
      var n := |devs| - 1;
      DistinctCount(devs[..n]);
      assert devs == devs[..n] + [devs[n]];
      assert MacsOf(devs) == MacsOf(devs[..n]) + {devs[n].mac};
    }
  }

  lemma WantedValid(devs: seq<Device>)
    requires Distinct(devs)
    ensures Wanted(Valid(devs)) == MacsOf(devs)
  {
    var reports := Valid(devs);
    forall m
      ensures m in Wanted(reports) <==> m in MacsOf(devs)
    {
      WantedMeaning(reports, m);
      if m in MacsOf(devs) {
        var i :| 0 <= i < |devs| && devs[i].mac == m;
        assert reports[i].dev.mac == m && reports[i].valid;
      }
      if LastValid(reports, m) {
        var i :| 0 <= i < |reports| && reports[i].dev.mac == m;
        assert devs[i] in devs;
      }
    }
  }

  /** Any 256 hosts arrive, and in the next poll they are gone and one other host is
      there: it is the only valid one, and it is not stored. */
  lemma NewcomerLost(devs: seq<Device>, hole: Hole)
    requires |devs| == SIZE + 1 && Distinct(devs)
    ensures var answers := [Some(Valid(devs[..SIZE])), Some([Report(devs[SIZE], true)])];
      devs[SIZE].mac in Plain(answers) && devs[SIZE].mac !in Macs(Polls(answers, hole).main.t)
  {
    var p, q := Some(Valid(devs[..SIZE])), Some([Report(devs[SIZE], true)]);
    var s := Poll(INITIAL, p, hole);
    ValidPoll(p.value, hole);
    WantedValid(devs[..SIZE]);
    DistinctCount(devs[..SIZE]);
    FullTableLosesNewcomer(s, devs[SIZE], hole);
    assert [p][..0] == [] && [p, q][..1] == [p];
    assert Polls([p], hole) == s;
  }

  /** 257 hosts, to have an example. */
  function Crowd(): (devs: seq<Device>)
    ensures |devs| == SIZE + 1
    ensures forall i :: 0 <= i <= SIZE ==> devs[i] == Device([0, 0, 0, 0, i / 256, i % 256], 1, true)
  {
    seq(SIZE + 1, i requires 0 <= i <= SIZE => Device([0, 0, 0, 0, i / 256, i % 256], 1, true))
  }

  lemma CrowdDistinct()
    ensures Distinct(Crowd())
  {
    var devs := Crowd();
    forall i, j | 0 <= i < |devs| && 0 <= j < |devs| && devs[i].mac == devs[j].mac
      ensures i == j
    {
      assert devs[i].mac[4] == devs[j].mac[4] && devs[i].mac[5] == devs[j].mac[5];
    }
  }

  // ----- a full temporary table

  function Copies(a: Device, n: nat): seq<Report> {
    seq(n, _ => Report(a, true))
  }

  lemma {:induction false} CopiesMeet(a: Device, n: nat)
    requires 0 < n <= SIZE
    ensures var u := PlusLoop(INITIAL, Copies(a, n), Empty);
      u.main.t == NoHosts()[Home(a.mac) := Host(a.(active := true))]
    ensures Kept(Copies(a, n)) == {a.mac} && ValidCount(Copies(a, n)) == n
  {
    var reports := Copies(a, n);
    assert reports[..n - 1] == Copies(a, n - 1) && reports[n - 1] == Report(a, true);
    assert SlotFrom(NoHosts(), Home(a.mac), 0) == Some(At(Home(a.mac), 0));
    assert FindFrom(NoHosts(), Home(a.mac), 0, a.mac) == None;
    if n == 1 {
      assert PlusLoop(INITIAL, reports[..0], Empty) == INITIAL;
      assert Kept(reports[..0]) == {} && ValidCount(reports[..0]) == 0;
    } else {
      CopiesMeet(a, n - 1);
      var t := PlusLoop(INITIAL, Copies(a, n - 1), Empty).main.t;
      assert FindFrom(t, Home(a.mac), 0, a.mac) == Some(At(Home(a.mac), 0));
    }
  }

  /** 256 reports of one host and then one of another, all valid: the second is swept out
      at once. */
  lemma CopiesCrowdOut(a: Device, b: Device, hole: Hole)
    requires a.mac != b.mac
    ensures var reports := Copies(a, SIZE) + [Report(b, true)];
      b.mac in Wanted(reports) && Macs(Poll(INITIAL, Some(reports), hole).main.t) == {a.mac}
  {
    var p, r := Copies(a, SIZE), Report(b, true);
    var reports := p + [r];
    assert reports[..SIZE] == p && reports[SIZE] == r;
    assert LastValid(reports, b.mac);
    WantedMeaning(reports, b.mac);
    CopiesMeet(a, SIZE);
    CopiesSafe(a, b);
    EmptyTable();
    CopiesFit(a, SIZE);
    assert Track({}, reports) == {a.mac, b.mac} && Kept(reports) == {a.mac};
    forall m
      ensures m in Macs(Poll(INITIAL, Some(reports), hole).main.t) <==> m in {a.mac}
    {
      PollLeaves(INITIAL, reports, hole, m);
    }
  }

  lemma {:induction false} CopiesFit(a: Device, n: nat)
    ensures Fits({}, Copies(a, n)) && Track({}, Copies(a, n)) == if n == 0 then {} else {a.mac}
    ensures SafeReports(INITIAL, Copies(a, n), Empty)
  {
    if n > 0 {
      assert Copies(a, n)[..n - 1] == Copies(a, n - 1);
      CopiesFit(a, n - 1);
    }
  }

  /** Only the second host leaves, and the first is at home. */
  lemma OneLeaverIsSafe(t: Table, temp: Table, a: Mac, b: Mac)
    requires t[Home(a)].Host? && t[Home(a)].dev.mac == a && Find(temp, a).Some?
    requires forall i :: 0 <= i < SIZE && t[i].Host? ==> i == Home(a) || t[i].dev.mac == b
    requires Unique(t)
    ensures SafeSweep(t, temp)
  {
    assert Dist(Home(a), Home(a)) == 0;
  }

  lemma SecondArrives(before: State, a: Device, b: Device)
    requires before.main.t == NoHosts()[Home(a.mac) := Host(a)]
    ensures var t := PlusStep(before, Report(b, true), Empty).main.t;
      t[Home(a.mac)] == Host(a)
      && forall i :: 0 <= i < SIZE && t[i].Host? ==> i == Home(a.mac) || t[i].dev.mac == b.mac
  {
    SlotMeaning(before.main.t, b.mac);
  }

  lemma CopiesSafe(a: Device, b: Device)
    requires a.mac != b.mac
    ensures SafePoll(INITIAL, Copies(a, SIZE) + [Report(b, true)])
  {
    var p, r := Copies(a, SIZE), Report(b, true);
    var reports := p + [r];
    assert reports[..SIZE] == p && reports[SIZE] == r;
    CopiesMeet(a, SIZE);
    CopiesFit(a, SIZE);
    EmptyTable();
    PlusLoopCollects(INITIAL, reports, Empty);
    PlusLoopHealthy(INITIAL, reports, Empty);
    var u := PlusLoop(INITIAL, reports, Empty);
    FindIsMembership(u.temp, a.mac);
    MacsStored(u.temp, a.mac);
    SecondArrives(PlusLoop(INITIAL, p, Empty), a.(active := true), b);
    OneLeaverIsSafe(u.main.t, u.temp, a.mac, b.mac);
  }
}
