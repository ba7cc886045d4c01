/** The 256-cell open-addressing table of connected hosts: linear probing from
    the hash of the printed MAC, wrapping round at the end of the array. */
module HostTable {
  import opened Basics
  import opened MacText

  const SIZE: nat := 256

  datatype Device = Device(mac: Mac, port: int, active: bool)

  /** `Deleted` is the "dummy item" the comments speak of; the code stores NULL,
      that is `Empty`, where a host was deleted. */
  datatype Cell = Empty | Deleted | Host(dev: Device)

  type Table = t: seq<Cell> | |t| == SIZE witness seq(SIZE, _ => Empty)

  function NoHosts(): Table { seq(SIZE, _ => Empty) }

  function Home(m: Mac): (h: nat)
    ensures h < SIZE
  {
    Hash(Print(m)) % SIZE
  }

  /** How many probes lead from home cell h to cell i. */
  function Dist(h: nat, i: nat): (d: nat)
    requires h < SIZE && i < SIZE
    ensures d < SIZE
  {
    if h <= i then i - h else i - h + SIZE
  }

  /** The cell reached from h after k probes. */
  function At(h: nat, k: nat): (i: nat)
    requires h < SIZE && k < SIZE
    ensures i < SIZE && Dist(h, i) == k
  {
    if h + k < SIZE then h + k else h + k - SIZE
  }

  /** Probing goes up the array and wraps round at its end. */
  lemma ProbeOrder(h: nat, k: nat)
    requires h < SIZE && k < SIZE
    ensures At(h, k) == (h + k) % SIZE
  {
  }

  predicate Holds(c: Cell, m: Mac) {
    c.Host? && c.dev.mac == m
  }

  ghost predicate Stored(t: Table, m: Mac) {
    exists i :: 0 <= i < SIZE && Holds(t[i], m)
  }

  ghost predicate Unique(t: Table) {
    forall i, j :: 0 <= i < SIZE && 0 <= j < SIZE && t[i].Host? && t[j].Host? && t[i].dev.mac == t[j].dev.mac
      ==> i == j
  }

  /** Cell i lies on the probe path of the host in cell j, strictly before it. */
  predicate Crosses(t: Table, j: nat, i: nat)
    requires i < SIZE && j < SIZE && t[j].Host?
  {
    var h := Home(t[j].dev.mac);
    Dist(h, i) < Dist(h, j)
  }

  /** No NULL cell between a host's home cell and the cell that holds it. */
  ghost predicate Closed(t: Table) {
    forall i, j :: 0 <= i < SIZE && 0 <= j < SIZE && t[j].Host? && t[i].Empty? ==> !Crosses(t, j, i)
  }

  ghost predicate Reachable(t: Table, j: nat)
    requires j < SIZE && t[j].Host?
  {
    forall i :: 0 <= i < SIZE && t[i].Empty? ==> !Crosses(t, j, i)
  }

  // ----- specification of the operations

  /** Probing for m from the k-th cell after h; None when a NULL cell or the
      starting cell is met. */
  function FindFrom(t: Table, h: nat, k: nat, m: Mac): (r: Option<nat>)
    requires h < SIZE && k <= SIZE
    ensures r.Some? ==> r.value < SIZE && Holds(t[r.value], m)
    decreases SIZE - k
  {
    if k == SIZE || t[At(h, k)].Empty? then None
    else if Holds(t[At(h, k)], m) then Some(At(h, k))
    else FindFrom(t, h, k + 1, m)
  }

  function Find(t: Table, m: Mac): Option<nat> {
    FindFrom(t, Home(m), 0, m)
  }

  /** Probing for a cell to store into. */
  function SlotFrom(t: Table, h: nat, k: nat): (r: Option<nat>)
    requires h < SIZE && k <= SIZE
    ensures r.Some? ==> r.value < SIZE && !t[r.value].Host?
    decreases SIZE - k
  {
    if k == SIZE then None
    else if !t[At(h, k)].Host? then Some(At(h, k))
    else SlotFrom(t, h, k + 1)
  }

  function Slot(t: Table, m: Mac): Option<nat> {
    SlotFrom(t, Home(m), 0)
  }

  // ----- what the searches mean

  lemma {:induction false} FindFromMeets(t: Table, h: nat, k: nat, m: Mac)
    requires h < SIZE && k <= SIZE
    ensures var r := FindFrom(t, h, k, m);
      match r
      case Some(i) =>
        && i < SIZE && Holds(t[i], m) && k <= Dist(h, i)
        && (forall j :: 0 <= j < SIZE && k <= Dist(h, j) < Dist(h, i) ==> !t[j].Empty? && !Holds(t[j], m))
      case None =>
        forall j :: 0 <= j < SIZE && k <= Dist(h, j) && Holds(t[j], m)
          ==> exists e :: 0 <= e < SIZE && t[e].Empty? && k <= Dist(h, e) < Dist(h, j)
    decreases SIZE - k
  {
    if k < SIZE && !t[At(h, k)].Empty? && !Holds(t[At(h, k)], m) {
      FindFromMeets(t, h, k + 1, m);
    }
  }

  /** FindHost answers with a cell exactly when some cell that holds the address
      can be reached from its home cell; the cell found is the nearest one. */
  lemma FindMeaning(t: Table, m: Mac)
    ensures Find(t, m).Some? <==> exists j :: 0 <= j < SIZE && Holds(t[j], m) && Reachable(t, j)
    ensures Find(t, m).Some? ==>
      var i := Find(t, m).value;
      i < SIZE && Holds(t[i], m) && Reachable(t, i)
  {
    FindFromMeets(t, Home(m), 0, m);
    match Find(t, m)
    case Some(i) => assert Reachable(t, i);
    case None =>
      forall j | 0 <= j < SIZE && Holds(t[j], m)
        ensures !Reachable(t, j)
      {
        var e :| 0 <= e < SIZE && t[e].Empty? && Dist(Home(m), e) < Dist(Home(m), j);
        assert Crosses(t, j, e);
      }
  }

  /** On a closed table FindHost is membership. */
  lemma FindIsMembership(t: Table, m: Mac)
    requires Closed(t)
    ensures Find(t, m).Some? <==> Stored(t, m)
    ensures Find(t, m).Some? ==> Find(t, m).value < SIZE && Holds(t[Find(t, m).value], m)
  {
    FindMeaning(t, m);
    if Stored(t, m) {
      var j :| 0 <= j < SIZE && Holds(t[j], m);
      assert Reachable(t, j);
    }
  }

  lemma {:induction false} SlotFromMeets(t: Table, h: nat, k: nat)
    requires h < SIZE && k <= SIZE
    ensures var r := SlotFrom(t, h, k);
      match r
      case Some(i) =>
        && i < SIZE && !t[i].Host? && k <= Dist(h, i)
        && (forall j :: 0 <= j < SIZE && k <= Dist(h, j) < Dist(h, i) ==> t[j].Host?)
      case None => forall j :: 0 <= j < SIZE && k <= Dist(h, j) ==> t[j].Host?
    decreases SIZE - k
  {
    if k < SIZE && t[At(h, k)].Host? {
      SlotFromMeets(t, h, k + 1);
    }
  }

  lemma SlotMeaning(t: Table, m: Mac)
    ensures Slot(t, m).None? <==> forall j :: 0 <= j < SIZE ==> t[j].Host?
    ensures Slot(t, m).Some? ==>
      var i := Slot(t, m).value;
      i < SIZE && !t[i].Host? && forall j :: 0 <= j < SIZE && Dist(Home(m), j) < Dist(Home(m), i) ==> t[j].Host?
  {
    SlotFromMeets(t, Home(m), 0);
  }

  // ----- storing and erasing

  /** AddHost: the new table, and the cell used unless the table is full. */
  function Add(t: Table, d: Device): (r: (Table, bool))
  {
    match Slot(t, d.mac)
    case None => (t, false)
    case Some(i) => (t[i := Host(d.(active := true))], true)
  }

  /** AddHost keeps every other cell, stores the host marked online, and keeps
      the table closed; it gives up exactly when every cell holds a host. */
  lemma AddMeaning(t: Table, d: Device)
    ensures Add(t, d).1 <==> exists i :: 0 <= i < SIZE && !t[i].Host?
    ensures !Add(t, d).1 ==> Add(t, d).0 == t
    ensures Add(t, d).1 ==> exists i :: 0 <= i < SIZE && !t[i].Host? && Add(t, d).0 == t[i := Host(d.(active := true))]
    ensures Closed(t) ==> Closed(Add(t, d).0)
  {
    SlotMeaning(t, d.mac);
    if Slot(t, d.mac).Some? {
      var i, u := Slot(t, d.mac).value, Add(t, d).0;
      assert u == t[i := Host(d.(active := true))];
      if Closed(t) {
        forall e, j | 0 <= e < SIZE && 0 <= j < SIZE && u[j].Host? && u[e].Empty?
          ensures !Crosses(u, j, e)
        {
          assert u[e] == t[e];
          if j != i { assert !Crosses(t, j, e); }
        }
      }
    }
  }

  /** Erasing one cell of a closed table with NULL keeps it closed exactly when
      the cell lies on no other host's probe path. */
  lemma EraseKeepsClosedIff(t: Table, i: nat)
    requires Closed(t) && i < SIZE && t[i].Host?
    ensures Closed(t[i := Empty]) <==> forall j :: 0 <= j < SIZE && j != i && t[j].Host? ==> !Crosses(t, j, i)
  {
    var u := t[i := Empty];
    if Closed(u) {
      forall j | 0 <= j < SIZE && j != i && t[j].Host?
        ensures !Crosses(t, j, i)
      {
        assert u[j] == t[j] && u[i].Empty?;
        assert !Crosses(u, j, i);
      }
    }
    if forall j :: 0 <= j < SIZE && j != i && t[j].Host? ==> !Crosses(t, j, i) {
      forall e, j | 0 <= e < SIZE && 0 <= j < SIZE && u[j].Host? && u[e].Empty?
        ensures !Crosses(u, j, e)
      {
        assert u[j] == t[j];
        if e != i { assert !Crosses(t, j, e); }
      }
    }
  }

  /** With the dummy item of the comments, erasing always keeps it closed. */
  lemma DummyKeepsClosed(t: Table, i: nat)
    requires Closed(t) && i < SIZE
    ensures Closed(t[i := Deleted])
  {
    var u := t[i := Deleted];
    forall e, j | 0 <= e < SIZE && 0 <= j < SIZE && u[j].Host? && u[e].Empty?
      ensures !Crosses(u, j, e)
    {
      assert !Crosses(t, j, e);
    }
  }

  /** Hosts whose printed addresses differ in one place start from different cells. */
  lemma OneDigitApart(a: Mac, b: Mac, i: nat)
    requires i < 17
    ensures |Print(a)| == |Print(b)| == 17
    ensures Print(a)[i] != Print(b)[i] && (forall j :: 0 <= j < 17 && j != i ==> Print(a)[j] == Print(b)[j])
      ==> Home(a) != Home(b)
  {
    PrintedShape(a);
    PrintedShape(b);
    if Print(a)[i] != Print(b)[i] && forall j :: 0 <= j < 17 && j != i ==> Print(a)[j] == Print(b)[j] {
      OneCharApart(Print(a), Print(b), i);
    }
  }
}
