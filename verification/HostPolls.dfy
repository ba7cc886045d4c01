/** Whole polls and whole runs of the host monitor: the index agrees with the
    plain set of valid hosts, and the notifications say what changed. */
module HostPolls {
  import opened Basics
  import opened MacText
  import opened HostTable
  import opened HostMonitor
  import opened HostBalance
  import opened HostAgreement

  /** No cell freed during the poll lies on another host's probe path. */
  ghost predicate SafePoll(s: State, reports: seq<Report>) {
    var s0 := s.(allDone := false);
    var u := PlusLoop(s0, reports, Empty);
    SafeReports(s0, reports, Empty) && SafeSweep(u.main.t, u.temp)
  }

  /** The addresses whose last report was valid. */
  ghost function Wanted(reports: seq<Report>): set<Mac> {
    set r | r in reports && LastValid(reports, r.dev.mac) :: r.dev.mac
  }

  lemma WantedMeaning(reports: seq<Report>, m: Mac)
    ensures m in Wanted(reports) <==> LastValid(reports, m)
  {
    if LastValid(reports, m) {
      var i :| 0 <= i < |reports| && reports[i].dev.mac == m && reports[i].valid;
      assert reports[i] in reports;
    }
  }

  lemma PollHealthy(s: State, reports: seq<Report>, hole: Hole)
    requires Healthy(s.main.t) && s.temp == NoHosts() && reports != []
    requires hole == Deleted || SafePoll(s, reports)
    ensures Healthy(Poll(s, Some(reports), hole).main.t)
  {
    var s0 := s.(allDone := false);
    var u := PlusLoop(s0, reports, hole);
    PlusLoopHealthy(s0, reports, hole);
    SweepAgrees(u.main, u.temp, hole, SIZE);
  }

  /** With room for the newcomers, a poll leaves the main table with the plain set's
      addresses that the temporary table has kept. */
  lemma PollLeaves(s: State, reports: seq<Report>, hole: Hole, m: Mac)
    requires Healthy(s.main.t) && s.temp == NoHosts() && reports != []
    requires hole == Deleted || SafePoll(s, reports)
    requires Fits(Macs(s.main.t), reports)
    ensures m in Macs(Poll(s, Some(reports), hole).main.t)
        <==> m in Track(Macs(s.main.t), reports) && m in Kept(reports)
  {
    var s0 := s.(allDone := false);
    var u := PlusLoop(s0, reports, hole);
    PlusLoopHealthy(s0, reports, hole);
    PlusLoopTracks(s0, reports, hole);
    PlusLoopCollects(s0, reports, hole);
    SweepAgrees(u.main, u.temp, hole, SIZE);
    SweptMacs(u.main.t, u.temp, hole, m);
  }

  /** The plain set's addresses that the temporary table has kept are the wanted ones it
      has kept. */
  lemma TrackKept(start: set<Mac>, reports: seq<Report>, m: Mac)
    ensures m in Track(start, reports) && m in Kept(reports) <==> m in Wanted(reports) && m in Kept(reports)
  {
    TrackMeaning(start, reports, m);
    WantedMeaning(reports, m);
    if m in Kept(reports) {
      KeptReported(reports, m);
      assert Reported(reports, m) by {
        var r :| r in reports && r.valid && r.dev.mac == m;
      }
    }
  }

  /** One poll leaves the main table holding exactly the addresses whose last report was
      valid: with the dummy item of the comments when both tables have room, and as
      written when moreover no freed cell lies on another host's probe path. */
  lemma PollAgrees(s: State, reports: seq<Report>, hole: Hole)
    requires Healthy(s.main.t) && s.temp == NoHosts() && reports != []
    requires hole == Deleted || SafePoll(s, reports)
    requires Fits(Macs(s.main.t), reports) && Wanted(reports) <= Kept(reports)
    ensures Macs(Poll(s, Some(reports), hole).main.t) == Wanted(reports)
  {
    forall m
      ensures m in Macs(Poll(s, Some(reports), hole).main.t) <==> m in Wanted(reports)
    {
      PollLeaves(s, reports, hole, m);
      TrackKept(Macs(s.main.t), reports, m);
    }
  }

  // ----- exactly when

  lemma DeleteHealthyIff(s: Side, m: Mac)
    requires Healthy(s.t)
    ensures Healthy(DeleteHost(s, m, Empty).t) <==> SafeErase(s.t, m)
  {
    FindIsMembership(s.t, m);
    if Find(s.t, m).Some? {
      EraseKeepsClosedIff(s.t, Find(s.t, m).value);
    }
  }

  /** The table is healthy after every report. */
  ghost predicate HealthyThroughout(s: State, reports: seq<Report>) {
    Healthy(PlusLoop(s, reports, Empty).main.t) && (reports != [] ==> HealthyThroughout(s, reports[..|reports| - 1]))
  }

  /** The reports are safe if and only if the table stays healthy while they are taken. */
  lemma {:induction false} SafeReportsIff(s: State, reports: seq<Report>)
    requires Healthy(s.main.t) && s.temp == NoHosts()
    ensures SafeReports(s, reports, Empty) <==> HealthyThroughout(s, reports)
  {
    if reports != [] {
      var n := |reports| - 1;
      var p, r := reports[..n], reports[n];
      SafeReportsIff(s, p);
      if SafeReports(s, p, Empty) {
        PlusLoopHealthy(s, p, Empty);
        var u := PlusLoop(s, p, Empty);
        DeleteHealthyIff(u.main, r.dev.mac);
        if r.valid { AddAgrees(u.main.t, r.dev); }
      }
    }
  }

  /** Each stored host can be found and the table holds what the plain set holds. */
  ghost predicate GoodAfter(s: State, taken: seq<Report>, hole: Hole) {
    var t := PlusLoop(s, taken, hole).main.t;
    Healthy(t) && Macs(t) == Track(Macs(s.main.t), taken)
  }

  /** What the connection loop is for: that holds after every report. */
  ghost predicate GoodReports(s: State, reports: seq<Report>, hole: Hole) {
    GoodAfter(s, reports, hole) && (reports != [] ==> GoodReports(s, reports[..|reports| - 1], hole))
  }

  /** The connection loop does this if and only if the plain set has room for every
      newcomer and, as written, no freed cell lies on another host's probe path. */
  lemma {:induction false} GoodReportsIff(s: State, reports: seq<Report>, hole: Hole)
    requires Healthy(s.main.t) && s.temp == NoHosts()
    ensures GoodReports(s, reports, hole)
        <==> (hole == Deleted || SafeReports(s, reports, Empty)) && Fits(Macs(s.main.t), reports)
  {
    if reports != [] {
      var p, r := reports[..|reports| - 1], reports[|reports| - 1];
      GoodReportsIff(s, p, hole);
      if GoodReports(s, p, hole) {
        StepGoodIff(PlusLoop(s, p, hole), r, hole);
      }
    }
  }

  lemma StepGoodIff(u: State, r: Report, hole: Hole)
    requires Healthy(u.main.t)
    ensures var start, v := Macs(u.main.t), PlusStep(u, r, hole).main.t;
      (Healthy(v) && Macs(v) == if r.valid then start + {r.dev.mac} else start - {r.dev.mac})
      <==>
      && (hole == Deleted || r.valid || SafeErase(u.main.t, r.dev.mac))
      && (r.valid && r.dev.mac !in start ==> |start| < SIZE)
  {
    if r.valid {
      StepTracksIff(u, r, hole);
      AddAgrees(u.main.t, r.dev);
    } else if hole == Empty {
      DeleteHealthyIff(u.main, r.dev.mac);
      if SafeErase(u.main.t, r.dev.mac) { StepTracksIff(u, r, hole); }
    } else {
      DeleteAgrees(u.main, r.dev.mac, hole);
    }
  }

  /** What one poll is for: the index agrees with the plain set after every report, and
      in the end each host can be found and exactly the wanted ones are there. */
  ghost predicate GoodPoll(s: State, reports: seq<Report>, hole: Hole) {
    var v := Poll(s, Some(reports), hole).main.t;
    GoodReports(s.(allDone := false), reports, hole) && Healthy(v) && Macs(v) == Wanted(reports)
  }

  /** Every poll does this if and only if the main table has room for every newcomer when
      it is reported, the temporary one for every wanted host, and, as written, no freed
      cell lies on another host's probe path. */
  lemma PollAgreesIff(s: State, reports: seq<Report>, hole: Hole)
    requires Healthy(s.main.t) && s.temp == NoHosts() && reports != []
    ensures GoodPoll(s, reports, hole)
        <==> && (hole == Deleted || SafePoll(s, reports))
             && Fits(Macs(s.main.t), reports) && Wanted(reports) <= Kept(reports)
  {
    var s0 := s.(allDone := false);
    var u := PlusLoop(s0, reports, hole);
    GoodReportsIff(s0, reports, hole);
    if GoodReports(s0, reports, hole) {
      PlusLoopHealthy(s0, reports, hole);
      if hole == Empty { SweepAgreesIff(u.main, u.temp); }
    }
    if (hole == Deleted || SafePoll(s, reports)) && Fits(Macs(s.main.t), reports) {
      PollHealthy(s, reports, hole);
      forall m
        ensures m in Macs(Poll(s, Some(reports), hole).main.t) <==> m in Wanted(reports) && m in Kept(reports)
      {
        PollLeaves(s, reports, hole, m);
        TrackKept(Macs(s.main.t), reports, m);
      }
    }
  }

  lemma SweptMacs(t: Table, temp: Table, hole: Hole, m: Mac)
    requires Closed(temp)
    ensures m in Macs(Swept(t, temp, hole, SIZE)) <==> m in Macs(t) && m in Macs(temp)
  {
    var v := Swept(t, temp, hole, SIZE);
    MacsStored(t, m);
    MacsStored(temp, m);
    MacsStored(v, m);
    FindIsMembership(temp, m);
    if Stored(v, m) {
      var i :| 0 <= i < SIZE && Holds(v[i], m);
      assert Holds(t[i], m);
    }
    if Stored(t, m) && Stored(temp, m) {
      var i :| 0 <= i < SIZE && Holds(t[i], m);
      assert Holds(v[i], m);
    }
  }

  // ----- runs

  ghost predicate SafeRun(answers: seq<Option<seq<Report>>>) {
    answers != [] ==>
      var p, last := answers[..|answers| - 1], answers[|answers| - 1];
      SafeRun(p) && (last.Some? && last.value != [] ==> SafePoll(Polls(p, Empty), last.value))
  }

  /** Over every run the index stays healthy: every host is findable and stored
      once. No condition with the dummy item. */
  lemma {:induction false} RunHealthy(answers: seq<Option<seq<Report>>>, hole: Hole)
    requires hole == Deleted || (hole == Empty && SafeRun(answers))
    ensures Healthy(Polls(answers, hole).main.t)
  {
    EmptyTable();
    if answers != [] {
      var p, last := answers[..|answers| - 1], answers[|answers| - 1];
      RunHealthy(p, hole);
      RunTidy(p, hole);
      if last.Some? && last.value != [] {
        PollHealthy(Polls(p, hole), last.value, hole);
      }
    }
  }

  ghost predicate Answered(answers: seq<Option<seq<Report>>>, n: nat)
    requires n < |answers|
  {
    answers[n].Some? && answers[n].value != []
  }

  /** The plain set after a run of answers. */
  ghost function Plain(answers: seq<Option<seq<Report>>>): set<Mac> {
    if answers == [] then {}
    else
      match answers[|answers| - 1]
      case None => Plain(answers[..|answers| - 1])
      case Some(reports) => Wanted(reports)
  }

  /** Both tables have room in every poll, judged by the answers alone. */
  ghost predicate FitRun(answers: seq<Option<seq<Report>>>) {
    answers != [] ==>
      var p, last := answers[..|answers| - 1], answers[|answers| - 1];
      FitRun(p) && (last.Some? && last.value != [] ==>
        Fits(Plain(p), last.value) && Wanted(last.value) <= Kept(last.value))
  }

  /** Every poll does what it is for. */
  ghost predicate GoodRun(answers: seq<Option<seq<Report>>>, hole: Hole) {
    forall n :: 0 <= n < |answers| && Answered(answers, n) ==>
      GoodPoll(Polls(answers[..n], hole), answers[n].value, hole)
  }

  lemma GoodRunSnoc(p: seq<Option<seq<Report>>>, last: Option<seq<Report>>, hole: Hole)
    ensures GoodRun(p + [last], hole)
        <==> GoodRun(p, hole) && (last.Some? && last.value != [] ==> GoodPoll(Polls(p, hole), last.value, hole))
  {
    var all := p + [last];
    assert all[..|p|] == p && all[|p|] == last;
    forall n | 0 <= n < |p| ensures all[..n] == p[..n] && all[n] == p[n] {}
    assert forall n :: 0 <= n < |p| ==> (Answered(all, n) <==> Answered(p, n));
    assert Answered(all, |p|) <==> last.Some? && last.value != [];
  }

  /** After a good run the table is healthy and stands for the plain set. */
  lemma {:induction false} GoodRunPlain(answers: seq<Option<seq<Report>>>, hole: Hole)
    requires GoodRun(answers, hole)
    ensures Healthy(Polls(answers, hole).main.t) && Macs(Polls(answers, hole).main.t) == Plain(answers)
  {
    EmptyTable();
    if answers != [] {
      var p, last := answers[..|answers| - 1], answers[|answers| - 1];
      assert answers == p + [last];
      GoodRunSnoc(p, last, hole);
      GoodRunPlain(p, hole);
      RunTidy(p, hole);
      assert Wanted([]) == {};
    }
  }

  /** Over every run every poll does what it is for if and only if both tables have room
      for the answers and, as written, no poll frees a cell on another host's path. */
  lemma {:induction false} RunAgreesIff(answers: seq<Option<seq<Report>>>, hole: Hole)
    ensures GoodRun(answers, hole) <==> (hole == Deleted || SafeRun(answers)) && FitRun(answers)
  {
    if answers != [] {
      var p, last := answers[..|answers| - 1], answers[|answers| - 1];
      assert answers == p + [last];
      GoodRunSnoc(p, last, hole);
      RunAgreesIff(p, hole);
      if GoodRun(p, hole) && last.Some? && last.value != [] {
        GoodRunPlain(p, hole);
        RunTidy(p, hole);
        PollAgreesIff(Polls(p, hole), last.value, hole);
      }
    }
  }

  /** After every run of such polls a host can be found if and only if it is in the plain
      set: its last report in the last answer was valid. */
  lemma RunAgrees(answers: seq<Option<seq<Report>>>, hole: Hole, m: Mac)
    requires (hole == Deleted || SafeRun(answers)) && FitRun(answers)
    ensures Find(Polls(answers, hole).main.t, m).Some? <==> m in Plain(answers)
  {
    RunAgreesIff(answers, hole);
    GoodRunPlain(answers, hole);
    FindIsMembership(Polls(answers, hole).main.t, m);
    MacsStored(Polls(answers, hole).main.t, m);
  }

  // ----- notifications

  lemma {:induction false} HeldPrefix(t: Table, n: nat, m: Mac)
    requires n <= SIZE && Unique(t)
    ensures Held(t[..n], m) == if exists i :: 0 <= i < n && Holds(t[i], m) then 1 else 0
  {
    if n > 0 {
      HeldPrefix(t, n - 1, m);
      assert t[..n][..n - 1] == t[..n - 1];
      assert Holds(t[n - 1], m) ==> forall i :: 0 <= i < n - 1 ==> !Holds(t[i], m);
    }
  }

  lemma HeldIsMembership(t: Table, m: Mac)
    requires Unique(t)
    ensures Held(t, m) == if m in Macs(t) then 1 else 0
  {
    HeldPrefix(t, SIZE, m);
    assert t[..SIZE] == t;
    MacsStored(t, m);
  }

  lemma LastValidReported(reports: seq<Report>, m: Mac)
    ensures LastValid(reports, m) ==> ReportedValid(reports, m)
  {
    if LastValid(reports, m) {
      var i :| 0 <= i < |reports| && reports[i].dev.mac == m && reports[i].valid;
      assert reports[i] in reports;
    }
  }

  /** All reports about m agree. */
  ghost predicate Steady(reports: seq<Report>, m: Mac) {
    forall r, q :: r in reports && q in reports && r.dev.mac == m && q.dev.mac == m ==> r.valid == q.valid
  }

  lemma SteadyCases(reports: seq<Report>, m: Mac)
    requires Steady(reports, m)
    ensures LastValid(reports, m) <==> ReportedValid(reports, m)
    ensures ReportedValid(reports, m) ==> forall r :: r in reports && r.dev.mac == m ==> r.valid
    ensures !ReportedValid(reports, m) ==> forall r :: r in reports && r.dev.mac == m ==> !r.valid
  {
    LastValidReported(reports, m);
    if ReportedValid(reports, m) {
      LastReport(reports, m);
    }
  }

  lemma {:induction false} LastReport(reports: seq<Report>, m: Mac)
    requires Reported(reports, m)
    requires forall r :: r in reports && r.dev.mac == m ==> r.valid
    ensures LastValid(reports, m)
  {
    var n := |reports| - 1;
    if reports[n].dev.mac == m {
      assert reports[n] in reports;
    } else {
      var p := reports[..n];
      assert reports == p + [reports[n]];
      LastReport(p, m);
      var i :| 0 <= i < |p| && p[i].dev.mac == m && p[i].valid && forall j :: i < j < |p| ==> p[j].dev.mac != m;
      assert reports[i] == p[i];
      forall j | i < j < |reports| ensures reports[j].dev.mac != m { if j < n { assert reports[j] == p[j]; } }
    }
  }

  /** How often the reports put m into the plain set. */
  function Gains(start: set<Mac>, reports: seq<Report>, m: Mac): nat {
    if reports == [] then 0
    else
      var p, r := reports[..|reports| - 1], reports[|reports| - 1];
      Gains(start, p, m) + if r.valid && r.dev.mac == m && m !in Track(start, p) then 1 else 0
  }

  /** How often the reports take m out of the plain set. */
  function Losses(start: set<Mac>, reports: seq<Report>, m: Mac): nat {
    if reports == [] then 0
    else
      var p, r := reports[..|reports| - 1], reports[|reports| - 1];
      Losses(start, p, m) + if !r.valid && r.dev.mac == m && m in Track(start, p) then 1 else 0
  }

  lemma {:induction false} GainsAndLosses(start: set<Mac>, reports: seq<Report>, m: Mac)
    ensures Gains(start, reports, m) - Losses(start, reports, m)
         == (if m in Track(start, reports) then 1 else 0) - if m in start then 1 else 0
  {
    if reports != [] { GainsAndLosses(start, reports[..|reports| - 1], m); }
  }

  /** The connection loop announces an arrival each time the plain set gains m. */
  lemma {:induction false} PlusLoopArrivals(s: State, reports: seq<Report>, hole: Hole, m: Mac)
    requires Healthy(s.main.t) && s.temp == NoHosts() && Fits(Macs(s.main.t), reports)
    requires hole == Deleted || SafeReports(s, reports, hole)
    ensures Count(PlusLoop(s, reports, hole).main.log, m, true)
         == Count(s.main.log, m, true) + Gains(Macs(s.main.t), reports, m)
  {
    if reports != [] {
      var p, r := reports[..|reports| - 1], reports[|reports| - 1];
      PlusLoopArrivals(s, p, hole, m);
      PlusLoopHealthy(s, p, hole);
      PlusLoopTracks(s, p, hole);
      var u := PlusLoop(s, p, hole);
      UniqueCount(u.main.t);
      FindIsMembership(u.main.t, r.dev.mac);
      MacsStored(u.main.t, r.dev.mac);
      ReportArrival(u, r, hole, m);
      AddAgrees(u.main.t, r.dev);
    }
  }

  lemma ReportArrival(u: State, r: Report, hole: Hole, m: Mac)
    ensures Count(PlusStep(u, r, hole).main.log, m, true)
         == Count(u.main.log, m, true)
          + if r.valid && r.dev.mac == m && Find(u.main.t, m).None? && Add(u.main.t, r.dev).1 then 1 else 0
  {
    CountSnoc(u.main.log, r.dev.(active := true), m, true);
    var f := Find(u.main.t, r.dev.mac);
    if !r.valid && f.Some? {
      CountSnoc(u.main.log, u.main.t[f.value].dev.(active := false), m, true);
    }
  }

  /** A poll announces an arrival each time the reports put an address into the plain
      set, a departure each time they take it out, and one more departure for a host
      that is in it at the end but not kept, be it that nobody reported it. */
  lemma PollNotifies(s: State, reports: seq<Report>, hole: Hole, m: Mac)
    requires Healthy(s.main.t) && s.temp == NoHosts() && reports != []
    requires hole == Deleted || SafePoll(s, reports)
    requires Fits(Macs(s.main.t), reports) && Balanced(s.main, m)
    ensures var start, v := Macs(s.main.t), Poll(s, Some(reports), hole);
      && Count(v.main.log, m, true) == Count(s.main.log, m, true) + Gains(start, reports, m)
      && Count(v.main.log, m, false)
      == Count(s.main.log, m, false) + Losses(start, reports, m)
       + if m in Track(start, reports) && m !in Kept(reports) then 1 else 0
  {
    var s0 := s.(allDone := false);
    var u, v := PlusLoop(s0, reports, hole), Poll(s, Some(reports), hole);
    PlusLoopArrivals(s0, reports, hole, m);
    GainsAndLosses(Macs(s.main.t), reports, m);
    PollHealthy(s, reports, hole);
    PollLeaves(s, reports, hole, m);
    PlusLoopBalances(s0, reports, hole, m);
    SweepBalances(u.main, u.temp, hole, SIZE, m);
    HeldIsMembership(s.main.t, m);
    HeldIsMembership(v.main.t, m);
  }

  /** When the reports about an address agree and it is kept if reported, that is one
      arrival for a newcomer, one departure for a leaver and nothing for a host that
      stays or stays away. */
  lemma PollNotifiesOnce(s: State, reports: seq<Report>, hole: Hole, m: Mac)
    requires Healthy(s.main.t) && s.temp == NoHosts() && reports != []
    requires hole == Deleted || SafePoll(s, reports)
    requires Fits(Macs(s.main.t), reports) && Balanced(s.main, m)
    requires Steady(reports, m) && (ReportedValid(reports, m) ==> m in Kept(reports))
    ensures var v := Poll(s, Some(reports), hole);
      var was, stays := m in Macs(s.main.t), ReportedValid(reports, m);
      && Count(v.main.log, m, true) == Count(s.main.log, m, true) + (if stays && !was then 1 else 0)
      && Count(v.main.log, m, false) == Count(s.main.log, m, false) + if was && !stays then 1 else 0
  {
    var s0 := s.(allDone := false);
    var u, v := PlusLoop(s0, reports, hole), Poll(s, Some(reports), hole);
    SteadyCases(reports, m);
    PlusLoopHealthy(s0, reports, hole);
    PlusLoopTracks(s0, reports, hole);
    TrackMeaning(Macs(s.main.t), reports, m);
    PollHealthy(s, reports, hole);
    PollLeaves(s, reports, hole, m);
    if m in Kept(reports) { KeptReported(reports, m); }
    PlusLoopBalances(s0, reports, hole, m);
    SweepBalances(u.main, u.temp, hole, SIZE, m);
    HeldIsMembership(s.main.t, m);
    HeldIsMembership(u.main.t, m);
    HeldIsMembership(v.main.t, m);
  }

  /** When the HAL reports nobody, every host gets one departure and is forgotten;
      the flag lets that happen only once in a row. */
  lemma EmptyAnswer(answers: seq<Option<seq<Report>>>, hole: Hole, m: Mac)
    ensures var s, v := Polls(answers, hole), Poll(Polls(answers, hole), Some([]), hole);
      && v.main.t == NoHosts() && v.allDone
      && Count(v.main.log, m, true) == Count(s.main.log, m, true)
      && Count(v.main.log, m, false) == Count(s.main.log, m, false) + Held(s.main.t, m)
  {
    var s := Polls(answers, hole);
    RunTidy(answers, hole);
    RunBalanced(answers, hole, m);
    DeleteAllBalances(s.main, m);
    if s.allDone { HeldNone(NoHosts(), m); }
  }
}
