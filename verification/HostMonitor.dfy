/** The monitor that polls the HAL for connected hosts, reconciles the main table
    with the answer through a temporary table, and notifies every arrival and
    departure. */
module HostMonitor {
  import opened Basics
  import opened MacText
  import opened HostTable

  /** One host of the HAL's answer; `valid` says that it needs no validation
      (extender mode) or that ValidateClient accepts it. */
  datatype Report = Report(dev: Device, valid: bool)

  /** What DeleteHost leaves behind: Empty as the code is written, Deleted as
      its comments describe it. */
  type Hole = c: Cell | !c.Host? witness Empty

  /** A table together with the notifications sent so far: a record with active
      set announces an arrival, one with active clear a departure. */
  datatype Side = Side(t: Table, log: seq<Device>)

  datatype State = State(main: Side, temp: Table, allDone: bool)

  const INITIAL: State := State(Side(NoHosts(), []), NoHosts(), false)

  // ----- specification

  function AddHost(s: Side, d: Device): Side {
    var (t, ok) := Add(s.t, d);
    Side(t, if ok then s.log + [d.(active := true)] else s.log)
  }

  function DeleteHost(s: Side, m: Mac, hole: Hole): Side {
    match Find(s.t, m)
    case None => s
    case Some(i) => Side(s.t[i := hole], s.log + [s.t[i].dev.(active := false)])
  }

  /** The notifications DeleteAllHosts sends for the first n cells. */
  function Departures(t: Table, n: nat): seq<Device>
    requires n <= SIZE
  {
    if n == 0 then []
    else Departures(t, n - 1) + if t[n - 1].Host? then [t[n - 1].dev.(active := false)] else []
  }

  function DeleteAll(s: Side): Side {
    Side(NoHosts(), s.log + Departures(s.t, SIZE))
  }

  function PlusStep(s: State, r: Report, hole: Hole): State {
    var m := r.dev.mac;
    if !r.valid then s.(main := DeleteHost(s.main, m, hole))
    else s.(main := if Find(s.main.t, m).None? then AddHost(s.main, r.dev) else s.main,
            temp := Add(s.temp, r.dev).0)
  }

  function PlusLoop(s: State, reports: seq<Report>, hole: Hole): State {
    if reports == [] then s
    else PlusStep(PlusLoop(s, reports[..|reports| - 1], hole), reports[|reports| - 1], hole)
  }

  /** A host of the main table that was not reported as valid. */
  predicate Leaving(c: Cell, temp: Table) {
    c.Host? && Find(temp, c.dev.mac).None?
  }

  /** The disconnection loop after the first n cells. */
  function Sweep(s: Side, temp: Table, hole: Hole, n: nat): Side
    requires n <= SIZE
  {
    if n == 0 then s
    else
      var u := Sweep(s, temp, hole, n - 1);
      if Leaving(u.t[n - 1], temp) then DeleteHost(u, u.t[n - 1].dev.mac, hole) else u
  }

  /** One iteration of the monitor thread; None is a failed HAL query. */
  function Poll(s: State, answer: Option<seq<Report>>, hole: Hole): State {
    match answer
    case None => s
    case Some(reports) =>
      if reports == [] then
        if s.allDone then s else State(DeleteAll(s.main), s.temp, true)
      else
        var u := PlusLoop(s.(allDone := false), reports, hole);
        State(Sweep(u.main, u.temp, hole, SIZE), NoHosts(), false)
  }

  function Polls(answers: seq<Option<seq<Report>>>, hole: Hole): State {
    if answers == [] then INITIAL
    else Poll(Polls(answers[..|answers| - 1], hole), answers[|answers| - 1], hole)
  }

  // ----- the thread itself

  class Monitor {
    const hole: Hole
    const main: array<Cell>
    const temp: array<Cell>
    var isDeleteAllDone: bool
    var log: seq<Device>

    ghost predicate Valid() {
      main != temp && main.Length == SIZE && temp.Length == SIZE
    }

    ghost function Now(): State
      requires Valid()
      reads this, main, temp
    {
      State(Side(main[..], log), temp[..], isDeleteAllDone)
    }

    constructor (hole: Hole)
      ensures Valid() && this.hole == hole && Now() == INITIAL
      ensures fresh(main) && fresh(temp)
    {
      this.hole := hole;
      main := new Cell[SIZE](_ => Empty);
      temp := new Cell[SIZE](_ => Empty);
      isDeleteAllDone, log := false, [];
      new;
      assert main[..] == NoHosts() && temp[..] == NoHosts();
    }

    static method FindHost(a: array<Cell>, m: Mac) returns (r: Option<nat>)
      requires a.Length == SIZE
      ensures r == Find(a[..], m)
    {
      var text := Print(m);
      var start := HashString(text);
      start := start % SIZE;
      var idx := start;
      ghost var k := 0;
      while !a[idx].Empty?
        invariant k < SIZE && idx == At(start, k) && start == Home(m)
        invariant Find(a[..], m) == FindFrom(a[..], start, k, m)
        decreases SIZE - k
      {
        if a[idx].Host? {
          PrintInjective(a[idx].dev.mac, m);
          if Print(a[idx].dev.mac) == text {
            return Some(idx);
          }
        }
        idx := (idx + 1) % SIZE;
        k := k + 1;
        if idx == start {
          return None;
        }
      }
      return None;
    }

    /** AddHost on one of the two tables, without the notification. */
    static method Store(a: array<Cell>, d: Device) returns (ok: bool)
      requires a.Length == SIZE
      modifies a
      ensures (a[..], ok) == Add(old(a[..]), d)
    {
      ghost var was := a[..];
      var start := HashString(Print(d.mac));
      start := start % SIZE;
      var idx := start;
      ghost var k := 0;
      while a[idx].Host?
        invariant k < SIZE && idx == At(start, k) && start == Home(d.mac)
        invariant a[..] == was && Slot(was, d.mac) == SlotFrom(was, start, k)
        decreases SIZE - k
      {
        idx := (idx + 1) % SIZE;
        k := k + 1;
        if idx == start {
          return false;
        }
      }
      assert Slot(was, d.mac) == Some(idx);
      a[idx] := Host(d.(active := true));
      assert a[..] == was[idx := Host(d.(active := true))];
      return true;
    }

    method ConnectHost(d: Device)
      requires Valid()
      modifies this`log, main
      ensures Now() == old(Now()).(main := AddHost(old(Now()).main, d))
    {
      var ok := Store(main, d);
      if ok {
        log := log + [d.(active := true)];
      }
    }

    method DisconnectHost(m: Mac)
      requires Valid()
      modifies this`log, main
      ensures Now() == old(Now()).(main := DeleteHost(old(Now()).main, m, hole))
    {
      var r := FindHost(main, m);
      if r.Some? {
        log := log + [main[r.value].dev.(active := false)];
        main[r.value] := hole;
        assert main[..] == old(main[..])[r.value := hole];
      }
    }

    method DisconnectAll()
      requires Valid()
      modifies this`log, main
      ensures Now() == old(Now()).(main := DeleteAll(old(Now()).main))
    {
      for i := 0 to SIZE
        invariant forall j :: 0 <= j < SIZE ==> main[j] == if j < i then Empty else old(main[j])
        invariant temp[..] == old(temp[..])
        invariant log == old(log) + Departures(old(main[..]), i)
      {
        if main[i].Host? {
          log := log + [main[i].dev.(active := false)];
        }
        main[i] := Empty;
      }
      assert main[..] == NoHosts();
    }

    method ForgetReported()
      requires Valid()
      modifies temp
      ensures temp[..] == NoHosts()
    {
      for i := 0 to SIZE
        invariant forall j :: 0 <= j < i ==> temp[j] == Empty
      {
        temp[i] := Empty;
      }
      assert temp[..] == NoHosts();
    }

    method TakeReport(r: Report)
      requires Valid()
      modifies this`log, main, temp
      ensures Now() == PlusStep(old(Now()), r, hole)
    {
      if !r.valid {
        DisconnectHost(r.dev.mac);
      } else {
        var known := FindHost(main, r.dev.mac);
        if known.None? {
          ConnectHost(r.dev);
        }
        var _ := Store(temp, r.dev);
      }
    }

    method SweepLeavers()
      requires Valid()
      modifies this`log, main
      ensures Now() == old(Now()).(main := Sweep(old(Now()).main, old(temp[..]), hole, SIZE))
    {
      for i := 0 to SIZE
        invariant temp[..] == old(temp[..])
        invariant Side(main[..], log) == Sweep(old(Now()).main, old(temp[..]), hole, i)
      {
        if main[i].Host? {
          var kept := FindHost(temp, main[i].dev.mac);
          if kept.None? {
            DisconnectHost(main[i].dev.mac);
          }
        }
      }
    }

    /** One iteration of CcspHalExtSw_AssociatedDeviceMonitorThread. */
    method Iterate(answer: Option<seq<Report>>)
      requires Valid()
      modifies this, main, temp
      ensures Now() == Poll(old(Now()), answer, hole)
    {
      if answer.None? {
        return;
      }
      var reports := answer.value;
      if |reports| == 0 {
        if !isDeleteAllDone {
          DisconnectAll();
          isDeleteAllDone := true;
        }
        return;
      }
      isDeleteAllDone := false;
      ghost var s := Now();
      for i := 0 to |reports|
        invariant Now() == PlusLoop(s, reports[..i], hole) && !isDeleteAllDone
      {
        TakeReport(reports[i]);
        assert reports[..i + 1][..i] == reports[..i];
      }
      assert reports[..|reports|] == reports;
      SweepLeavers();
      ghost var swept := Now();
      ForgetReported();
      assert main[..] == swept.main.t;
    }
  }
}
