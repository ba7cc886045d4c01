/** The failing family of the delete as written, on concrete hosts. */
module HostCutOff {
  import opened Basics
  import opened MacText
  import opened HashCollisions
  import opened HostTable
  import opened HostMonitor
  import opened HostAgreement

  /** Two hosts that share a home cell. */
  ghost predicate Rivals(a: Device, b: Device) {
    a.mac != b.mac && Home(a.mac) == Home(b.mac) && a.active && b.active
  }

  function Alone(d: Device, k: nat): Table
    requires k < SIZE
  {
    NoHosts()[At(Home(d.mac), k) := Host(d)]
  }

  /** The two side by side, the second displaced by the first. */
  function Cluster(a: Device, b: Device): Table {
    Alone(a, 0)[At(Home(a.mac), 1) := Host(b)]
  }

  lemma AloneFinds(a: Device, b: Device)
    requires Rivals(a, b)
    ensures Find(NoHosts(), a.mac) == None && Slot(NoHosts(), a.mac) == Some(At(Home(a.mac), 0))
    ensures Find(Alone(a, 0), b.mac) == None && Slot(Alone(a, 0), b.mac) == Some(At(Home(a.mac), 1))
    ensures Find(Alone(b, 1), b.mac) == None
  {
    var h := Home(a.mac);
    assert SlotFrom(Alone(a, 0), h, 1) == Some(At(h, 1));
    assert FindFrom(Alone(a, 0), h, 1, b.mac) == None;
  }

  lemma ClusterFinds(a: Device, b: Device)
    requires Rivals(a, b)
    ensures Find(Cluster(a, b), a.mac) == Some(At(Home(a.mac), 0))
    ensures Find(Cluster(a, b), b.mac) == Some(At(Home(a.mac), 1))
    ensures Cluster(a, b)[At(Home(a.mac), 0) := Empty] == Alone(b, 1)
  {
    var h := Home(a.mac);
    assert FindFrom(Cluster(a, b), h, 1, b.mac) == Some(At(h, 1));
  }

  lemma LoopTwo(s: State, r: Report, q: Report)
    ensures PlusLoop(s, [r, q], Empty) == PlusStep(PlusStep(s, r, Empty), q, Empty)
  {
    assert [r, q][..1] == [r];
    LoopOne(s, r, Empty);
  }

  /** Hosts that cannot be found are not swept out, and neither are the wanted. */
  lemma {:induction false} SweepNobody(s: Side, temp: Table, n: nat)
    requires n <= SIZE
    requires forall i :: 0 <= i < SIZE && Leaving(s.t[i], temp) ==> Find(s.t, s.t[i].dev.mac).None?
    ensures Sweep(s, temp, Empty, n) == s
  {
    if n > 0 { SweepNobody(s, temp, n - 1); }
  }

  /** One poll that reports both hosts as valid builds the cluster. */
  lemma BuildCluster(a: Device, b: Device)
    requires Rivals(a, b)
    ensures Poll(INITIAL, Some([Report(a, true), Report(b, true)]), Empty)
         == State(Side(Cluster(a, b), [a, b]), NoHosts(), false)
  {
    var ra, rb := Report(a, true), Report(b, true);
    AloneFinds(a, b);
    LoopTwo(INITIAL, ra, rb);
    assert PlusStep(INITIAL, ra, Empty) == State(Side(Alone(a, 0), [a]), Alone(a, 0), false);
    var u := PlusLoop(INITIAL, [ra, rb], Empty);
    assert u == State(Side(Cluster(a, b), [a] + [b]), Cluster(a, b), false);
    ClusterFinds(a, b);
    SweepNobody(u.main, u.temp, SIZE);
  }

  /** A poll that reports both as gone frees the first one's cell, which cuts the
      second off: it stays in the table and its departure is not announced. */
  lemma LeaveTogether(a: Device, b: Device)
    requires Rivals(a, b)
    ensures Poll(State(Side(Cluster(a, b), [a, b]), NoHosts(), false), Some([Report(a, false), Report(b, false)]), Empty)
         == State(Side(Alone(b, 1), [a, b, a.(active := false)]), NoHosts(), false)
  {
    var ra, rb := Report(a, false), Report(b, false);
    var s := State(Side(Cluster(a, b), [a, b]), NoHosts(), false);
    ClusterFinds(a, b);
    AloneFinds(a, b);
    LoopTwo(s, ra, rb);
    var u := PlusLoop(s, [ra, rb], Empty);
    assert u.main == Side(Alone(b, 1), [a, b] + [a.(active := false)]);
    SweepNobody(u.main, u.temp, SIZE);
  }

  lemma CutOffRun(a: Device, b: Device)
    requires Rivals(a, b)
    ensures Polls([Some([Report(a, true), Report(b, true)]), Some([Report(a, false), Report(b, false)])], Empty)
         == State(Side(Alone(b, 1), [a, b, a.(active := false)]), NoHosts(), false)
    ensures Find(Alone(b, 1), b.mac) == None
  {
    var p, q := Some([Report(a, true), Report(b, true)]), Some([Report(a, false), Report(b, false)]);
    BuildCluster(a, b);
    LeaveTogether(a, b);
    AloneFinds(a, b);
    assert [p][..0] == [] && [p, q][..1] == [p];
    assert Polls([p], Empty) == Poll(INITIAL, p, Empty);
    assert Polls([p, q], Empty) == Poll(Polls([p], Empty), q, Empty);
  }

  // ----- two such hosts: digits eight places apart exchanged

  function FirstHost(): Device { Device([1, 0, 0, 0, 0, 0], 1, true) }

  function SecondHost(): Device { Device([0, 0, 0, 16, 0, 0], 2, true) }

  lemma PrintSix(m: Mac)
    ensures Print(m) == PrintByte(m[0]) + ":" + PrintByte(m[1]) + ":" + PrintByte(m[2]) + ":"
                      + PrintByte(m[3]) + ":" + PrintByte(m[4]) + ":" + PrintByte(m[5])
  {
    assert PrintBytes(m[5..], ":") == PrintByte(m[5]);
    assert PrintBytes(m[4..], ":") == PrintByte(m[4]) + ":" + PrintBytes(m[5..], ":") by { assert m[4..][1..] == m[5..]; }
    assert PrintBytes(m[3..], ":") == PrintByte(m[3]) + ":" + PrintBytes(m[4..], ":") by { assert m[3..][1..] == m[4..]; }
    assert PrintBytes(m[2..], ":") == PrintByte(m[2]) + ":" + PrintBytes(m[3..], ":") by { assert m[2..][1..] == m[3..]; }
    assert PrintBytes(m[1..], ":") == PrintByte(m[1]) + ":" + PrintBytes(m[2..], ":") by { assert m[1..][1..] == m[2..]; }
  }

  lemma PrintFirst()
    ensures Print(FirstHost().mac) == "0" + ['1'] + ":00:00:" + ['0'] + "0:00:00"
  {
    PrintSix(FirstHost().mac);
  }

  lemma PrintSecond()
    ensures Print(SecondHost().mac) == "0" + ['0'] + ":00:00:" + ['1'] + "0:00:00"
  {
    PrintSix(SecondHost().mac);
  }

  lemma SameHome(a: Device, b: Device, p: string, c: char, mid: string, d: char, rest: string)
    requires |mid| == 7 && Print(a.mac) == p + [c] + mid + [d] + rest && Print(b.mac) == p + [d] + mid + [c] + rest
    ensures Home(a.mac) == Home(b.mac)
  {
    EightApartCollide(p, c, mid, d, rest);
  }

  /** The failing family is inhabited. */
  lemma RivalsExist()
    ensures Rivals(FirstHost(), SecondHost())
  {
    PrintFirst();
    PrintSecond();
    SameHome(FirstHost(), SecondHost(), "0", '1', ":00:00:", '0', "0:00:00");
    assert FirstHost().mac[0] != SecondHost().mac[0];
  }

  /** Both hosts leave in one poll; only the first is removed and announced. */
  lemma SecondLeaverMissed()
    ensures var a, b := FirstHost(), SecondHost();
      var s := Polls([Some([Report(a, true), Report(b, true)]), Some([Report(a, false), Report(b, false)])], Empty);
      s.main.log == [a, b, a.(active := false)] && Stored(s.main.t, b.mac) && Find(s.main.t, b.mac) == None
  {
    var a, b := FirstHost(), SecondHost();
    RivalsExist();
    CutOffRun(a, b);
    assert Holds(Alone(b, 1)[At(Home(b.mac), 1)], b.mac);
  }
}
