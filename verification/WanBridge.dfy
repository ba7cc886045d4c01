/** Switching the WAN side between DOCSIS and Ethernet: the scripts that rebuild
    the bridges, the decision whether to rebuild, and the boot script. */
module WanBridge {
  import opened Network

  const LAN := "brlan0"
  const PRIMARY := "erouter0"
  const DUMMY := "dummy-rf"

  const WAN_MODE_ETH: int := 1
  const WAN_MODE_DOCSIS: int := 2

  datatype Platform = Bcm | Puma7

  /** wan is the WAN interface name, port the Ethernet WAN port of the HAL, and
      fallback the compiled-in default port name. */
  datatype Config = Config(platform: Platform, wan: string, port: string, fallback: string) {

    /** The name the DOCSIS-side WAN device is parked under in Ethernet mode. */
    function Parked(): string { if platform.Bcm? then "cm0" else DUMMY }

    /** The device that joins the WAN bridge beside the port. */
    function Docsis(): string { if platform.Bcm? then "cm0" else "dpdmta1" }
  }

  // ----- the scripts

  function Enable(net: Net, c: Config, configure: bool): Net {
    var n1 := DelPort(net, LAN, c.port);
    if configure then
      var n2 := AddBridge(Rename(n1, c.wan, c.Parked()), c.wan);
      AddPort(AddPort(n2, c.wan, c.port), c.wan, c.Docsis())
    else AddPort(n1, c.wan, c.port)
  }

  function Disable(net: Net, c: Config, configure: bool): Net {
    var n1 := AddPort(DelPort(net, c.wan, c.port), LAN, c.port);
    if configure then
      Rename(DelBridge(DelPort(n1, c.wan, c.Docsis()), c.wan), c.Parked(), c.wan)
    else n1
  }

  /** Rebuild the WAN bridge? Compares the recorded mode with the wanted one. */
  function ConfigureBridge(lastMode: int, ethWan: bool): bool {
    if lastMode == WAN_MODE_DOCSIS then ethWan
    else if lastMode == WAN_MODE_ETH then !ethWan
    else ethWan
  }

  function Finalize(net: Net, c: Config, lastMode: int, ethWan: bool): Net {
    var configure := ConfigureBridge(lastMode, ethWan);
    if ethWan then Enable(net, c, configure) else Disable(net, c, configure)
  }

  /** The boot script; on Puma 7 it does not take the port out of the LAN bridge. */
  function Boot(net: Net, c: Config): Net {
    var n1 := if c.platform.Bcm? then DelPort(net, LAN, c.port) else net;
    var n2 := AddBridge(Rename(n1, c.wan, c.Parked()), c.wan);
    var n3 := AddPort(n2, c.wan, c.port);
    AddPort(if c.platform.Bcm? then AddBridge(n3, c.wan) else n3, c.wan, c.Docsis())
  }

  // ----- the two topologies

  /** The device that will be bridged to the port. */
  function SideName(c: Config): string {
    if c.platform.Bcm? then c.wan else c.Docsis()
  }

  /** A DOCSIS topology: the port in the LAN bridge only, the WAN name held by a
      device, the parking name free. Everything else is arbitrary. */
  ghost predicate Docsis(net: Net, c: Config) {
    && c.wan != LAN && c.port != LAN && c.port != c.wan && c.Parked() != LAN && c.Parked() != c.wan
    && c.Parked() != c.port && (c.platform.Puma7? ==> c.Docsis() != c.wan && c.Docsis() != c.port && c.Docsis() != LAN)
    && IsBridge(net, LAN) && IsDevice(net, c.port) && IsDevice(net, c.wan) && IsDevice(net, SideName(c))
    && c.Parked() !in net
    && net[c.port].id in net[LAN].members
    && (forall b :: b in net && net[b].Bridge? && net[c.port].id in net[b].members ==> b == LAN)
    && !Enslaved(net, net[SideName(c)].id)
  }

  /** The Ethernet topology of the same gateway. */
  function Ethernet(net: Net, c: Config): Net
    requires IsBridge(net, LAN) && IsDevice(net, c.port) && c.wan in net && IsDevice(net, SideName(c))
  {
    net[LAN := Bridge(net[LAN].members - {net[c.port].id})]
       [c.Parked() := net[c.wan]]
       [c.wan := Bridge({net[c.port].id, net[SideName(c)].id})]
  }

  function Topology(net: Net, c: Config, ethWan: bool): Net
    requires IsBridge(net, LAN) && IsDevice(net, c.port) && c.wan in net && IsDevice(net, SideName(c))
  {
    if ethWan then Ethernet(net, c) else net
  }

  // ----- what the scripts do to them

  lemma EnableReaches(net: Net, c: Config)
    requires Docsis(net, c)
    ensures Enable(net, c, true) == Ethernet(net, c)
    ensures Enable(DelPort(net, LAN, c.port), c, true) == Ethernet(net, c)
  {
    var pid, sid := net[c.port].id, net[SideName(c)].id;
    var n1 := DelPort(net, LAN, c.port);
    assert DelPort(n1, LAN, c.port) == n1;
    var n2 := AddBridge(Rename(n1, c.wan, c.Parked()), c.wan);
    assert n2 == n1[c.Parked() := net[c.wan]][c.wan := Bridge({})];
    JoinWan(n2, c, pid, sid);
    assert {pid} + {sid} == {pid, sid};
  }

  /** The two joins that follow the creation of the WAN bridge. */
  lemma JoinWan(n: Net, c: Config, pid: nat, sid: nat)
    requires c.wan != c.port && c.wan != c.Docsis() && pid != sid
    requires c.wan in n && n[c.wan] == Bridge({})
    requires c.port in n && n[c.port] == Device(pid) && c.Docsis() in n && n[c.Docsis()] == Device(sid)
    requires !Enslaved(n, pid) && !Enslaved(n, sid)
    ensures AddPort(AddPort(n, c.wan, c.port), c.wan, c.Docsis()) == n[c.wan := Bridge({pid} + {sid})]
  {
    var m := AddPort(n, c.wan, c.port);
    assert {} + {pid} == {pid};
    assert m == n[c.wan := Bridge({pid})];
    assert !Enslaved(m, sid);
  }

  lemma DisableRestores(net: Net, c: Config)
    requires Docsis(net, c)
    ensures Disable(Ethernet(net, c), c, true) == net
  {
    var pid, sid := net[c.port].id, net[SideName(c)].id;
    var e := Ethernet(net, c);
    var n1 := DelPort(e, c.wan, c.port);
    assert {pid, sid} - {pid} == {sid};
    assert n1 == e[c.wan := Bridge({sid})];
    assert !Enslaved(n1, pid);
    var n2 := AddPort(n1, LAN, c.port);
    assert net[LAN].members - {pid} + {pid} == net[LAN].members;
    assert n2 == n1[LAN := net[LAN]];
    var n3 := DelPort(n2, c.wan, c.Docsis());
    assert {sid} - {sid} == {};
    assert n3 == n2[c.wan := Bridge({})];
    assert DelBridge(n3, c.wan) == n3 - {c.wan};
  }

  /** Repeating a script changes nothing, whether or not it rebuilds. */
  lemma RepeatChangesNothing(net: Net, c: Config, configure: bool)
    requires Docsis(net, c)
    ensures Enable(Ethernet(net, c), c, configure) == Ethernet(net, c)
    ensures Disable(net, c, configure) == net
  {
    var e := Ethernet(net, c);
    assert net[c.port].id in e[c.wan].members && net[SideName(c)].id in e[c.wan].members;
    assert Enslaved(e, net[c.port].id) && Enslaved(e, net[SideName(c)].id);
    assert Enslaved(net, net[c.port].id);
  }

  /** Disabling also puts a dropped port back into the LAN bridge. */
  lemma DisableReturnsPort(net: Net, c: Config, configure: bool)
    requires Docsis(net, c)
    ensures Disable(DelPort(net, LAN, c.port), c, configure) == net
  {
    var pid := net[c.port].id;
    var n := DelPort(net, LAN, c.port);
    assert !Enslaved(n, pid);
    assert net[LAN].members - {pid} + {pid} == net[LAN].members;
    assert AddPort(n, LAN, c.port) == net;
  }

  lemma WithoutRebuildWrong(net: Net, c: Config)
    requires Docsis(net, c)
    ensures Enable(net, c, false) != Ethernet(net, c)
    ensures Disable(Ethernet(net, c), c, false) != net
  {
    assert Enable(net, c, false)[c.wan].Device?;
    assert Disable(Ethernet(net, c), c, false)[c.wan].Bridge?;
  }

  /** From either topology, finalizing reaches the topology of the enabled mode if
      and only if it is already there or the recorded mode names the current one
      (anything but Ethernet standing for DOCSIS). */
  lemma FinalizeIff(net: Net, c: Config, current: bool, lastMode: int, ethWan: bool)
    requires Docsis(net, c)
    ensures Finalize(Topology(net, c, current), c, lastMode, ethWan) == Topology(net, c, ethWan)
        <==> (current == ethWan || ((lastMode == WAN_MODE_ETH) == current))
  {
    EnableReaches(net, c);
    DisableRestores(net, c);
    RepeatChangesNothing(net, c, ConfigureBridge(lastMode, ethWan));
    WithoutRebuildWrong(net, c);
  }

  /** A mode change, and the mode recorded once it is done. */
  datatype Change = Change(ethWan: bool, recorded: int)

  function ModeAfter(start: bool, changes: seq<Change>): bool {
    if changes == [] then start else changes[|changes| - 1].ethWan
  }

  function RunModes(net: Net, c: Config, lastMode: int, changes: seq<Change>): Net
    decreases changes
  {
    if changes == [] then net
    else RunModes(Finalize(net, c, lastMode, changes[0].ethWan), c, changes[0].recorded, changes[1..])
  }

  /** Over every sequence of mode changes with a truthful record, the topology is
      determined by the last enabled mode alone. */
  lemma {:induction false} RunModesDetermined(net: Net, c: Config, start: bool, lastMode: int, changes: seq<Change>)
    requires Docsis(net, c)
    requires (lastMode == WAN_MODE_ETH) == start
    requires forall ch :: ch in changes ==> (ch.recorded == WAN_MODE_ETH) == ch.ethWan
    ensures RunModes(Topology(net, c, start), c, lastMode, changes) == Topology(net, c, ModeAfter(start, changes))
    decreases changes
  {
    if changes != [] {
      FinalizeIff(net, c, start, lastMode, changes[0].ethWan);
      RunModesDetermined(net, c, changes[0].ethWan, changes[0].recorded, changes[1..]);
      assert ModeAfter(changes[0].ethWan, changes[1..]) == ModeAfter(start, changes);
    }
  }

  /** At boot the port may or may not be in the LAN bridge. The boot script reaches
      the Ethernet topology except on Puma 7 with the port still in that bridge. */
  lemma BootIff(net: Net, c: Config, dropped: bool)
    requires Docsis(net, c)
    ensures Boot(if dropped then DelPort(net, LAN, c.port) else net, c) == Ethernet(net, c)
        <==> (c.platform.Bcm? || dropped)
  {
    var pid := net[c.port].id;
    var start := if dropped then DelPort(net, LAN, c.port) else net;
    if c.platform.Bcm? || dropped {
      EnableReaches(net, c);
      var n1 := if c.platform.Bcm? then DelPort(start, LAN, c.port) else start;
      assert n1 == DelPort(net, LAN, c.port);
      var n3 := AddPort(AddBridge(Rename(n1, c.wan, c.Parked()), c.wan), c.wan, c.port);
      assert AddBridge(n3, c.wan) == n3;
      assert Boot(start, c) == Enable(net, c, true);
    } else {
      assert pid in Boot(net, c)[LAN].members;
    }
  }

  /** Started again in Ethernet mode, the boot script changes nothing. */
  lemma BootAgain(net: Net, c: Config)
    requires Docsis(net, c)
    ensures Boot(Ethernet(net, c), c) == Ethernet(net, c)
  {
    var e := Ethernet(net, c);
    assert net[c.port].id in e[c.wan].members && net[SideName(c)].id in e[c.wan].members;
    assert Enslaved(e, net[c.port].id) && Enslaved(e, net[SideName(c)].id);
  }

  /** The Ethernet topology with the port moved into the LAN bridge. */
  function PortInLan(net: Net, c: Config): Net
    requires Docsis(net, c)
  {
    Ethernet(net, c)[LAN := net[LAN]][c.wan := Bridge({net[SideName(c)].id})]
  }

  /** Without a rebuild the scripts move the port alone, one way and back. */
  lemma MoveWithoutRebuild(net: Net, c: Config)
    requires Docsis(net, c)
    ensures Disable(Ethernet(net, c), c, false) == PortInLan(net, c)
    ensures Enable(PortInLan(net, c), c, false) == Ethernet(net, c)
  {
    var pid, sid := net[c.port].id, net[SideName(c)].id;
    var e, p := Ethernet(net, c), PortInLan(net, c);
    var e1 := DelPort(e, c.wan, c.port);
    assert {pid, sid} - {pid} == {sid};
    assert e1 == e[c.wan := Bridge({sid})] && !Enslaved(e1, pid);
    assert net[LAN].members - {pid} + {pid} == net[LAN].members;
    var p1 := DelPort(p, LAN, c.port);
    assert p1 == p[LAN := Bridge(net[LAN].members - {pid})] && !Enslaved(p1, pid);
    assert {sid} + {pid} == {pid, sid};
  }
}
