/** The table of Ethernet ports: a growing array with two counters, looked up by
    name, where a deleted entry is replaced by the last one. */
module PortTable {
  import opened Basics
  import Decimal
  import EthManager

  datatype Port = Port(
    name: string,
    upstream: bool,
    link: Status,
    wan: Status,
    validated: bool,
    enable: bool,
    path: string,
    lower: string)

  const NAME_MAX: nat := 63

  /** What fits into a name field. */
  function Fit(s: string): string {
    if |s| <= NAME_MAX then s else s[..NAME_MAX]
  }

  function EthName(i: nat): string {
    Fit("eth" + Decimal.Print(i))
  }

  const IF_PATH := "Device.Ethernet.X_RDK_Interface."

  /** The entry created at index i. */
  function Fresh(i: nat): Port {
    var path := IF_PATH + Decimal.Print(i + 1);
    Port(EthName(i), false, Down, Down, true, false, path, path)
  }

  /** The instance number that a path names. */
  function PathNumber(path: string): int {
    if IF_PATH <= path then Decimal.Atoi(path[|IF_PATH|..]) else 0
  }

  /** A fresh entry names its instance, one more than its index, in both path fields. */
  lemma FreshPaths(i: nat)
    ensures PathNumber(Fresh(i).path) == i + 1 && PathNumber(Fresh(i).lower) == i + 1
  {
    var path := IF_PATH + Decimal.Print(i + 1);
    assert path[|IF_PATH|..] == Decimal.Print(i + 1);
    Decimal.ReadPrinted(i + 1);
  }

  /** The fields that the WAN state machine reads. */
  function Watched(p: Port): EthManager.Port {
    EthManager.Port(p.upstream, p.link, p.wan, p.validated)
  }

  /** A machine that watches a fresh port rests in Exit, once the port is upstream in
      Disconnected, and once its link is up too it goes on to configure the VLAN without further validation;
      the entry is disabled, so that it may be deleted. */
  lemma FreshRests(i: nat, m: EthManager.Machine, n: nat)
    requires n >= 4 && m.record.Present? && m.state != EthManager.WanLinkUp
    ensures !Fresh(i).enable
    ensures m.record.port == Watched(Fresh(i)) ==> EthManager.Quiets(m, n).state == EthManager.Exit
    ensures m.record.port == Watched(Fresh(i).(upstream := true)) ==>
      EthManager.Quiets(m, n).state == EthManager.Disconnected
    ensures m.record.port == Watched(Fresh(i).(upstream := true, link := Up)) ==>
      EthManager.Quiets(m, n).state == EthManager.VlanConfiguring
  {
    EthManager.SettlesWithin(m, n);
  }

  /** A name that the settings store may hold for a port; it is used as a format. */
  type StoredName = s: string | |s| <= NAME_MAX && '%' !in s

  /** The table prepared at start-up: a stored name replaces the default one. */
  function Prepared(stored: seq<Option<StoredName>>): (ports: seq<Port>)
    ensures |ports| == |stored|
    ensures forall i :: 0 <= i < |stored| ==>
      ports[i] == if stored[i].Some? then Fresh(i).(name := stored[i].value) else Fresh(i)
  {
    seq(|stored|, i requires 0 <= i < |stored| =>
      if stored[i].Some? then Fresh(i).(name := stored[i].value) else Fresh(i))
  }

  function NothingStored(total: nat): seq<Option<StoredName>> {
    seq(total, _ => None)
  }

  ghost predicate UniqueNames(ports: seq<Port>) {
    forall i, j :: 0 <= i < |ports| && 0 <= j < |ports| && ports[i].name == ports[j].name ==> i == j
  }

  predicate HasName(ports: seq<Port>, name: string) {
    exists i :: 0 <= i < |ports| && ports[i].name == name
  }

  /** Index of the first entry with the name, or -1. */
  function IndexOf(ports: seq<Port>, name: string): (i: int)
    ensures -1 <= i < |ports|
    ensures i >= 0 ==> ports[i].name == name && forall j :: 0 <= j < i ==> ports[j].name != name
    ensures i == -1 <==> !HasName(ports, name)
  {
    if ports == [] then -1
    else
      var n := |ports| - 1;
      var i := IndexOf(ports[..n], name);
      if i >= 0 then assert ports[i].name == name; i
      else if ports[n].name == name then n
      else -1
  }

  /** Swap-with-last delete. */
  function Without(ports: seq<Port>, i: nat): seq<Port>
    requires i < |ports|
  {
    var n := |ports| - 1;
    if i == n then ports[..n] else ports[..n][i := ports[n]]
  }

  class Table {
    /** gpstEthGInfo, gTotal, and ulTotalNoofEthInterfaces of the data model. */
    var ports: seq<Port>
    var gTotal: nat
    var ulTotal: nat
    const internalPorts: nat

    ghost predicate Valid()
      reads this
    {
      gTotal == |ports| && ulTotal == |ports|
    }

    /** CosDmlEthPortPrepareGlobalInfo */
    constructor (internalPorts: nat, stored: seq<Option<StoredName>>)
      ensures Valid() && this.internalPorts == internalPorts
      ensures ports == Prepared(stored)
    {
      this.internalPorts := internalPorts;
      gTotal, ulTotal := |stored|, |stored|;
      ports := [];
      new;
      for i := 0 to |stored|
        invariant ports == Prepared(stored)[..i] && gTotal == ulTotal == |stored|
      {
        var p := Fresh(i);
        if stored[i].Some? {
          p := p.(name := stored[i].value);
        }
        ports := ports + [p];
      }
    }

    /** CosaDmlEthPortGetIndexFromIfName */
    method GetIndex(name: string) returns (i: int)
      requires Valid()
      ensures i == IndexOf(ports, name)
    {
      for k := 0 to gTotal
        invariant forall j :: 0 <= j < k ==> ports[j].name != name
      {
        if ports[k].name == name {
          return k;
        }
      }
      return -1;
    }

    /** CosDmlEthPortUpdateGlobalInfo, ETH_ADD_TABLE */
    method AddPort()
      requires Valid()
      modifies this
      ensures Valid() && ports == old(ports) + [Fresh(|old(ports)|)]
      ensures ports == Apply(old(ports), AddOp, internalPorts)
    {
      ulTotal := ulTotal + 1;
      ports := ports + [Fresh(ulTotal - 1)];
      gTotal := gTotal + 1;
    }

    /** CosDmlEthPortUpdateGlobalInfo, ETH_DEL_TABLE */
    method DeletePort(name: string) returns (ok: bool)
      requires Valid()
      modifies this
      ensures Valid()
      ensures ok <==> IndexOf(old(ports), name) >= internalPorts && HasName(old(ports), name)
      ensures ports == if ok then Without(old(ports), IndexOf(old(ports), name)) else old(ports)
      ensures ports == Apply(old(ports), DeleteOp(name), internalPorts)
    {
      var i := GetIndex(name);
      if i == -1 || i < internalPorts {
        return false;
      }
      if i + 1 == ulTotal {
        ulTotal := ulTotal - 1;
        ports := ports[..ulTotal];
      } else {
        var last := ports[ulTotal - 1];
        ulTotal := ulTotal - 1;
        ports := ports[..ulTotal];
        ports := ports[i := last];
      }
      gTotal := gTotal - 1;
      return true;
    }

    /** CosaDmlEthPortSetName: the new name is checked in full but stored cut to
        the size of the field. */
    method SetName(name: string, newName: string) returns (ok: bool)
      requires Valid()
      modifies this`ports
      ensures Valid()
      ensures ok <==> HasName(old(ports), name) && !HasName(old(ports), newName)
      ensures ports == if ok then Renamed(old(ports), name, newName) else old(ports)
      ensures ports == Apply(old(ports), RenameOp(name, newName), internalPorts)
    {
      var taken := GetIndex(newName);
      if taken != -1 {
        return false;
      }
      var i := GetIndex(name);
      if i == -1 || i >= gTotal {
        return false;
      }
      ports := ports[i := ports[i].(name := Fit(newName))];
      return true;
    }
  }

  function Renamed(ports: seq<Port>, name: string, newName: string): seq<Port>
    requires HasName(ports, name)
  {
    var i := IndexOf(ports, name);
    ports[i := ports[i].(name := Fit(newName))]
  }

  // ----- lookups

  lemma IndexOfUnique(ports: seq<Port>, i: nat)
    requires UniqueNames(ports) && i < |ports|
    ensures IndexOf(ports, ports[i].name) == i
  {
    assert HasName(ports, ports[i].name);
  }

  // ----- deletion

  /** Deletion removes exactly one copy of the entry. */
  lemma WithoutExact(ports: seq<Port>, i: nat)
    requires i < |ports|
    ensures multiset(Without(ports, i)) == multiset(ports) - multiset{ports[i]}
  {
    var n := |ports| - 1;
    var p := ports[..n];
    assert ports == p + [ports[n]];
    if i < n {
      assert p[i] in p;
      assert multiset(p[i := ports[n]]) == multiset(p) - multiset{p[i]} + multiset{ports[n]};
    }
  }

  /** Deletion moves no internal port and shortens the table by one. */
  lemma WithoutInternal(ports: seq<Port>, i: nat, internalPorts: nat)
    requires internalPorts <= i < |ports|
    ensures |Without(ports, i)| == |ports| - 1
    ensures Without(ports, i)[..internalPorts] == ports[..internalPorts]
  {
  }

  lemma WithoutAt(ports: seq<Port>, i: nat, k: nat)
    requires i < |ports| && k < |ports| - 1
    ensures Without(ports, i)[k] == if k == i then ports[|ports| - 1] else ports[k]
  {
  }

  lemma DeleteUnique(ports: seq<Port>, i: nat)
    requires UniqueNames(ports) && i < |ports|
    ensures UniqueNames(Without(ports, i)) && !HasName(Without(ports, i), ports[i].name)
  {
    var q := Without(ports, i);
    forall j, k | 0 <= j < |q| && 0 <= k < |q| && q[j].name == q[k].name
      ensures j == k
    {
      WithoutAt(ports, i, j);
      WithoutAt(ports, i, k);
    }
    forall k | 0 <= k < |q|
      ensures q[k].name != ports[i].name
    {
      WithoutAt(ports, i, k);
    }
  }

  /** With unique names, deletion keeps them unique, makes the name unknown, and
      every other name still resolves to its own entry. */
  lemma DeleteResolves(ports: seq<Port>, i: nat, name: string)
    requires UniqueNames(ports) && i < |ports|
    ensures var q := Without(ports, i);
      && UniqueNames(q)
      && (HasName(q, name) <==> HasName(ports, name) && name != ports[i].name)
      && (HasName(q, name) ==> q[IndexOf(q, name)] == ports[IndexOf(ports, name)])
  {
    var n, q := |ports| - 1, Without(ports, i);
    DeleteUnique(ports, i);
    if HasName(q, name) {
      var k := IndexOf(q, name);
      WithoutAt(ports, i, k);
      IndexOfUnique(ports, if k == i then n else k);
    } else if HasName(ports, name) && name != ports[i].name {
      var k := IndexOf(ports, name);
      WithoutAt(ports, i, if k == n then i else k);
      assert false;
    }
  }

  // ----- adding and renaming

  lemma AddUniqueIff(ports: seq<Port>)
    requires UniqueNames(ports)
    ensures UniqueNames(ports + [Fresh(|ports|)]) <==> !HasName(ports, EthName(|ports|))
  {
    var q := ports + [Fresh(|ports|)];
    if HasName(ports, EthName(|ports|)) {
      var i := IndexOf(ports, EthName(|ports|));
      assert q[i].name == q[|ports|].name;
    }
  }

  /** A rename that goes through keeps names unique if and only if the name as
      stored is not another port's: always for names that fit the field. */
  lemma RenameUniqueIff(ports: seq<Port>, name: string, newName: string)
    requires UniqueNames(ports) && HasName(ports, name) && !HasName(ports, newName)
    ensures UniqueNames(Renamed(ports, name, newName))
        <==> (|newName| <= NAME_MAX || !HasName(ports, Fit(newName)) || Fit(newName) == name)
  {
    var i, q := IndexOf(ports, name), Renamed(ports, name, newName);
    if HasName(ports, Fit(newName)) && Fit(newName) != name {
      var j := IndexOf(ports, Fit(newName));
      assert q[j].name == q[i].name && j != i;
    }
  }

  function Min(i: int, j: int): int { if i < j then i else j }

  /** After a rename the name as stored resolves to the old entry, or to another entry
      of that name in front of it, every other name to its own, and the name in full
      only if it was stored in full. */
  lemma RenameResolves(ports: seq<Port>, name: string, newName: string, other: string)
    requires UniqueNames(ports) && HasName(ports, name) && !HasName(ports, newName)
    ensures var q, i, j, cut :=
              Renamed(ports, name, newName), IndexOf(ports, name), IndexOf(ports, Fit(newName)), Fit(newName);
      && IndexOf(q, cut) == (if j == -1 then i else Min(i, j))
      && (other != name && other != cut ==> IndexOf(q, other) == IndexOf(ports, other))
      && (HasName(q, newName) <==> |newName| <= NAME_MAX)
      && (HasName(q, name) <==> cut == name)
  {
    var i, q, cut := IndexOf(ports, name), Renamed(ports, name, newName), Fit(newName);
    assert forall k :: 0 <= k < |ports| && k != i ==> q[k] == ports[k];
    assert q[i].name == cut;
    if other != name && other != cut { IndexAgrees(ports, q, other); }
  }

  lemma IndexAgrees(ports: seq<Port>, q: seq<Port>, name: string)
    requires |q| == |ports| && forall k :: 0 <= k < |q| ==> (q[k].name == name <==> ports[k].name == name)
    ensures IndexOf(q, name) == IndexOf(ports, name)
  {
  }

  lemma EthNameInjective(i: nat, j: nat)
    requires i < 0x1_0000_0000 && j < 0x1_0000_0000
    ensures EthName(i) == EthName(j) <==> i == j
  {
    Decimal.PrintLength32(i);
    Decimal.PrintLength32(j);
    Decimal.PrintInjective(i, j);
    assert ("eth" + Decimal.Print(i))[3..] == Decimal.Print(i);
    assert ("eth" + Decimal.Print(j))[3..] == Decimal.Print(j);
  }

  /** The table prepared at start-up has unique names if and only if the stored names
      differ and none is the default name of a port without one. */
  lemma PreparedUniqueIff(stored: seq<Option<StoredName>>)
    requires |stored| <= 0x1_0000_0000
    ensures UniqueNames(Prepared(stored))
        <==> (forall i, j :: 0 <= i < |stored| && 0 <= j < |stored| && i != j && stored[i].Some? ==>
                stored[i].value != if stored[j].Some? then stored[j].value else EthName(j))
  {
    var ports := Prepared(stored);
    forall i, j | 0 <= i < |stored| && 0 <= j < |stored| && stored[i].None? && stored[j].None?
      ensures ports[i].name == ports[j].name <==> i == j
    {
      EthNameInjective(i, j);
    }
  }

  /** Deleting a port that is not the last and then adding one gives two ports
      the same name and path: the new entry is named after the shrunken length. */
  lemma DeleteThenAddClashes(total: nat, i: nat)
    requires i + 1 < total <= 0x1_0000_0000
    ensures var q := Without(Prepared(NothingStored(total)), i) + [Fresh(total - 1)];
      !UniqueNames(q) && q[i].name == q[total - 1].name && q[i].path == q[total - 1].path
  {
    var ports := Prepared(NothingStored(total));
    var q := Without(ports, i);
    WithoutAt(ports, i, i);
    assert q[i] == Fresh(total - 1);
    PreparedUniqueIff(NothingStored(total));
    DeleteUnique(ports, i);
    AddUniqueIff(q);
    assert HasName(q, EthName(|q|));
  }

  // ----- runs

  datatype Op = AddOp | DeleteOp(name: string) | RenameOp(name: string, newName: string)

  function Apply(ports: seq<Port>, op: Op, internalPorts: nat): seq<Port> {
    match op
    case AddOp => ports + [Fresh(|ports|)]
    case DeleteOp(name) =>
      var i := IndexOf(ports, name);
      if i >= internalPorts && i >= 0 then Without(ports, i) else ports
    case RenameOp(name, newName) =>
      if HasName(ports, name) && !HasName(ports, newName) then Renamed(ports, name, newName) else ports
  }

  /** The operation gives no port the name of another. */
  predicate Clean(ports: seq<Port>, op: Op) {
    match op
    case AddOp => !HasName(ports, EthName(|ports|))
    case DeleteOp(_) => true
    case RenameOp(name, newName) =>
      HasName(ports, name) && !HasName(ports, newName) ==>
        |newName| <= NAME_MAX || !HasName(ports, Fit(newName)) || Fit(newName) == name
  }

  function After(ports: seq<Port>, ops: seq<Op>, internalPorts: nat): seq<Port>
    decreases ops
  {
    if ops == [] then ports else After(Apply(ports, ops[0], internalPorts), ops[1..], internalPorts)
  }

  /** Names are unique after every operation of the run. */
  ghost predicate StaysUnique(ports: seq<Port>, ops: seq<Op>, internalPorts: nat)
    decreases ops
  {
    UniqueNames(ports) && (ops != [] ==> StaysUnique(Apply(ports, ops[0], internalPorts), ops[1..], internalPorts))
  }

  predicate AllClean(ports: seq<Port>, ops: seq<Op>, internalPorts: nat)
    decreases ops
  {
    ops != [] ==> Clean(ports, ops[0]) && AllClean(Apply(ports, ops[0], internalPorts), ops[1..], internalPorts)
  }

  /** Over every run of adds, deletions and renames, names stay unique throughout
      if and only if no add meets its own name and no cut name meets another. */
  lemma {:induction false} RunUniqueIff(ports: seq<Port>, ops: seq<Op>, internalPorts: nat)
    requires UniqueNames(ports)
    ensures StaysUnique(ports, ops, internalPorts) <==> AllClean(ports, ops, internalPorts)
    decreases ops
  {
    if ops != [] {
      var q := Apply(ports, ops[0], internalPorts);
      match ops[0] {
        case AddOp => AddUniqueIff(ports);
        case DeleteOp(name) =>
          if IndexOf(ports, name) >= internalPorts && IndexOf(ports, name) >= 0 {
            DeleteUnique(ports, IndexOf(ports, name));
          }
        case RenameOp(name, newName) =>
          if HasName(ports, name) && !HasName(ports, newName) {
            RenameUniqueIff(ports, name, newName);
          }
      }
      assert UniqueNames(q) <==> Clean(ports, ops[0]);
      if UniqueNames(q) { RunUniqueIff(q, ops[1..], internalPorts); }
    }
  }

  /** Equal in every field but the name. */
  predicate SameButName(p: Port, q: Port) {
    p.(name := q.name) == q
  }

  /** Over every run the internal ports keep their places and every field but the name,
      and without renames the name too. */
  lemma {:induction false} RunKeepsInternal(ports: seq<Port>, ops: seq<Op>, internalPorts: nat)
    requires internalPorts <= |ports|
    ensures var q := After(ports, ops, internalPorts);
      && internalPorts <= |q|
      && (forall i :: 0 <= i < internalPorts ==> SameButName(ports[i], q[i]))
      && ((forall op :: op in ops ==> !op.RenameOp?) ==> q[..internalPorts] == ports[..internalPorts])
    decreases ops
  {
    if ops != [] {
      var q := Apply(ports, ops[0], internalPorts);
      if ops[0].DeleteOp? {
        var i := IndexOf(ports, ops[0].name);
        if i >= internalPorts { WithoutInternal(ports, i, internalPorts); }
      }
      assert forall i :: 0 <= i < internalPorts ==> SameButName(ports[i], q[i]);
      RunKeepsInternal(q, ops[1..], internalPorts);
      assert ops[0] in ops;
    }
  }
}
