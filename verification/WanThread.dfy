/** The agent that changes the WAN mode: the bridge scripts command by command,
    and the thread that sets the HAL and rolls back when something fails. */
module WanThread {
  import opened Network
  import opened WanBridge

  datatype OperState = NoReset | ResetInProgress | ResetCompleted

  /** What the outside answers to one attempt: whether the HAL takes the new
      mode, and whether the setting is then written. */
  datatype Answers = Answers(hal: bool, settings: bool)

  datatype Agent = Agent(links: Net, halEthWan: bool, lastMode: int, oper: OperState)

  // ----- specification

  /** The renames EthwanEnableWithoutReboot(FALSE) issues before it asks the HAL. */
  function EarlyRenames(net: Net, c: Config): Net {
    Rename(Rename(net, PRIMARY, c.fallback), DUMMY, PRIMARY)
  }

  function Configure(a: Agent, c: Config, enable: bool, ans: Answers): (Agent, bool) {
    var links := if enable then DelPort(a.links, LAN, c.port) else EarlyRenames(a.links, c);
    (a.(links := links, halEthWan := if ans.hal then enable else a.halEthWan), ans.hal && ans.settings)
  }

  function FinalizeAgent(a: Agent, c: Config): Agent {
    a.(links := Finalize(a.links, c, a.lastMode, a.halEthWan))
  }

  function SwitchMode(a: Agent, c: Config, enable: bool, first: Answers, second: Answers): Agent {
    var (a1, ok) := Configure(a, c, enable, first);
    var a2 := if ok then a1 else Configure(a1, c, !enable, second).0;
    FinalizeAgent(a2, c).(oper := ResetCompleted)
  }

  // ----- the code

  class EthWanAgent {
    const c: Config
    var links: Net
    var halEthWan: bool
    var lastMode: int
    var oper: OperState

    ghost function Now(): Agent
      reads this
    {
      Agent(links, halEthWan, lastMode, oper)
    }

    constructor (c: Config, a: Agent)
      ensures this.c == c && Now() == a
    {
      this.c := c;
      links, halEthWan, lastMode, oper := a.links, a.halEthWan, a.lastMode, a.oper;
    }

    /** WanBridgeConfigurationBcm */
    method ConfigureBcm(ethWan: bool, configure: bool)
      requires c.platform.Bcm?
      modifies this`links
      ensures links == if ethWan then Enable(old(links), c, configure) else Disable(old(links), c, configure)
    {
      if ethWan {
        links := DelPort(links, LAN, c.port);
        if configure {
          links := Rename(links, c.wan, "cm0");
          links := AddBridge(links, c.wan);
          links := AddPort(links, c.wan, c.port);
          links := AddPort(links, c.wan, "cm0");
        } else {
          links := AddPort(links, c.wan, c.port);
        }
      } else {
        links := DelPort(links, c.wan, c.port);
        links := AddPort(links, LAN, c.port);
        if configure {
          links := DelPort(links, c.wan, "cm0");
          links := DelBridge(links, c.wan);
          links := Rename(links, "cm0", c.wan);
        }
      }
    }

    /** WanBridgeConfigurationIntelPuma7 */
    method ConfigurePuma7(ethWan: bool, configure: bool)
      requires c.platform.Puma7?
      modifies this`links
      ensures links == if ethWan then Enable(old(links), c, configure) else Disable(old(links), c, configure)
    {
      if ethWan {
        links := DelPort(links, LAN, c.port);
        if configure {
          links := Rename(links, c.wan, DUMMY);
          links := AddBridge(links, c.wan);
          links := AddPort(links, c.wan, c.port);
          links := AddPort(links, c.wan, "dpdmta1");
        } else {
          links := AddPort(links, c.wan, c.port);
        }
      } else {
        links := DelPort(links, c.wan, c.port);
        links := AddPort(links, LAN, c.port);
        if configure {
          links := DelPort(links, c.wan, "dpdmta1");
          links := DelBridge(links, c.wan);
          links := Rename(links, DUMMY, c.wan);
        }
      }
    }

    /** CosaDmlIfaceFinalize */
    method IfaceFinalize()
      modifies this`links
      ensures Now() == FinalizeAgent(old(Now()), c)
    {
      var configure := false;
      if lastMode == WAN_MODE_DOCSIS {
        if halEthWan { configure := true; }
      } else if lastMode == WAN_MODE_ETH {
        if !halEthWan { configure := true; }
      } else {
        if halEthWan { configure := true; }
      }
      if c.platform.Bcm? {
        ConfigureBcm(halEthWan, configure);
      } else {
        ConfigurePuma7(halEthWan, configure);
      }
    }

    /** EthWanBridgeInit */
    method BridgeInit()
      modifies this`links
      ensures links == Boot(old(links), c)
    {
      if c.platform.Bcm? {
        links := DelPort(links, LAN, c.port);
        links := Rename(links, c.wan, "cm0");
      } else {
        links := Rename(links, c.wan, DUMMY);
      }
      links := AddBridge(links, c.wan);
      links := AddPort(links, c.wan, c.port);
      if c.platform.Puma7? {
        links := AddPort(links, c.wan, "dpdmta1");
      } else {
        links := AddBridge(links, c.wan);
        links := AddPort(links, c.wan, "cm0");
      }
    }

    /** EthwanEnableWithoutReboot */
    method EnableWithoutReboot(enable: bool, ans: Answers) returns (ok: bool)
      modifies this`links, this`halEthWan
      ensures halEthWan == if ans.hal then enable else old(halEthWan)
      ensures links == if enable then old(links) else EarlyRenames(old(links), c)
      ensures ok == (ans.hal && ans.settings)
    {
      if !enable {
        links := Rename(links, PRIMARY, c.fallback);
        links := Rename(links, DUMMY, PRIMARY);
      }
      if !ans.hal {
        return false;
      }
      halEthWan := enable;
      return ans.settings;
    }

    /** CosaDmlConfigureEthWan */
    method ConfigureEthWan(enable: bool, ans: Answers) returns (ok: bool)
      modifies this`links, this`halEthWan
      ensures (Now(), ok) == Configure(old(Now()), c, enable, ans)
    {
      if enable {
        links := DelPort(links, LAN, c.port);
      }
      ok := EnableWithoutReboot(enable, ans);
    }

    /** ThreadConfigEthWan */
    method ChangeMode(enable: bool, first: Answers, second: Answers)
      modifies this
      ensures Now() == SwitchMode(old(Now()), c, enable, first, second)
    {
      oper := ResetInProgress;
      var ok := ConfigureEthWan(enable, first);
      if !ok {
        var _ := ConfigureEthWan(!enable, second);
      }
      IfaceFinalize();
      oper := ResetCompleted;
    }
  }

  // ----- what the thread guarantees

  /** The topology matches the HAL's flag and the recorded mode names it. */
  ghost predicate Matching(a: Agent, net: Net, c: Config) {
    Docsis(net, c) && a.links == Topology(net, c, a.halEthWan)
  }

  ghost predicate Recorded(a: Agent) {
    (a.lastMode == WAN_MODE_ETH) == a.halEthWan
  }

  /** The compiled-in default port name is none of the names of the scripts. */
  predicate Apart(c: Config) {
    c.fallback != PRIMARY && c.fallback != DUMMY && c.fallback != c.Parked()
  }

  /** The early renames happen on the way to DOCSIS and on the way back. */
  predicate RenamesIssued(enable: bool, first: Answers) {
    !enable || !(first.hal && first.settings)
  }

  /** Neither of the early renames applies. They name erouter0, whatever the WAN
      interface is called. */
  predicate Idle(n: Net, c: Config) {
    if PRIMARY in n then c.fallback in n else DUMMY !in n
  }

  lemma EarlyRenamesIdleIff(n: Net, c: Config)
    requires Apart(c)
    ensures EarlyRenames(n, c) == n <==> Idle(n, c)
  {
    var n1 := Rename(n, PRIMARY, c.fallback);
    if PRIMARY in n && c.fallback !in n {
      assert c.fallback in EarlyRenames(n, c);
    } else {
      assert n1 == n;
      if PRIMARY !in n && DUMMY in n { assert PRIMARY in EarlyRenames(n, c); }
    }
  }

  /** The states the links pass through: the topology the thread started from,
      possibly with the port already dropped from the LAN bridge. */
  ghost predicate Between(n: Net, net: Net, c: Config, start: bool)
    requires Docsis(net, c)
  {
    n == Topology(net, c, start) || (!start && n == DelPort(net, LAN, c.port))
  }

  lemma BetweenIdle(n: Net, net: Net, c: Config, start: bool)
    requires Docsis(net, c) && Between(n, net, c, start)
    ensures n.Keys == Topology(net, c, start).Keys
    ensures Idle(n, c) == Idle(Topology(net, c, start), c)
  {
  }

  lemma ConfigureBetween(a: Agent, net: Net, c: Config, start: bool, enable: bool, ans: Answers)
    requires Docsis(net, c) && Apart(c)
    requires Between(a.links, net, c, start) && (enable || Idle(a.links, c))
    ensures Between(Configure(a, c, enable, ans).0.links, net, c, start)
    ensures Configure(a, c, enable, ans).0.lastMode == a.lastMode
  {
    if enable {
      assert net[c.port].id !in Ethernet(net, c)[LAN].members;
      assert DelPort(DelPort(net, LAN, c.port), LAN, c.port) == DelPort(net, LAN, c.port);
    } else {
      EarlyRenamesIdleIff(a.links, c);
    }
  }

  lemma FinalizeBetween(net: Net, c: Config, n: Net, start: bool, lastMode: int, ethWan: bool)
    requires Docsis(net, c) && Between(n, net, c, start)
    requires (lastMode == WAN_MODE_ETH) == start
    ensures Finalize(n, c, lastMode, ethWan) == Topology(net, c, ethWan)
  {
    FinalizeIff(net, c, start, lastMode, ethWan);
    EnableReaches(net, c);
    DisableReturnsPort(net, c, ConfigureBridge(lastMode, ethWan));
  }

  /** A name that the early renames have made. */
  function Stray(n: Net, c: Config): string {
    if PRIMARY in n then c.fallback else PRIMARY
  }

  /** A name other than the ones the scripts handle survives finalizing. */
  lemma FinalizeKeepsName(n: Net, c: Config, lastMode: int, ethWan: bool, k: string)
    requires k in n && k != c.wan && k != c.Parked()
    ensures k in Finalize(n, c, lastMode, ethWan)
  {
  }

  /** When the early renames apply, a name appears that neither topology has and that
      the scripts do not handle. */
  lemma ConfigureStrays(a: Agent, net: Net, c: Config, start: bool, ans: Answers)
    requires Docsis(net, c) && Apart(c) && Between(a.links, net, c, start) && !Idle(a.links, c)
    ensures var k := Stray(Topology(net, c, start), c);
      && k in Configure(a, c, false, ans).0.links
      && k != c.wan && k != c.Parked() && forall ethWan :: k !in Topology(net, c, ethWan)
  {
    BetweenIdle(a.links, net, c, start);
  }

  /** Whichever HAL and settings writes fail, the thread completes, and it ends with the
      topology matching the HAL's flag if and only if the early renames do not apply
      or are never issued. */
  lemma ThreadMatchesIff(a: Agent, net: Net, c: Config, enable: bool, first: Answers, second: Answers)
    requires Matching(a, net, c) && Recorded(a) && Apart(c)
    ensures var r := SwitchMode(a, c, enable, first, second);
      && r.oper == ResetCompleted && r.lastMode == a.lastMode
      && (Matching(r, net, c) <==> (Idle(a.links, c) || !RenamesIssued(enable, first)))
  {
    var start := a.halEthWan;
    var (a1, ok) := Configure(a, c, enable, first);
    var a2 := if ok then a1 else Configure(a1, c, !enable, second).0;
    if Idle(a.links, c) || !RenamesIssued(enable, first) {
      ConfigureBetween(a, net, c, start, enable, first);
      BetweenIdle(a1.links, net, c, start);
      if !ok { ConfigureBetween(a1, net, c, start, !enable, second); }
      FinalizeBetween(net, c, a2.links, start, a.lastMode, a2.halEthWan);
    } else {
      var k := Stray(a.links, c);
      if !enable {
        ConfigureStrays(a, net, c, start, first);
        DropKeepsName(a1, c, second, k);
      } else {
        ConfigureBetween(a, net, c, start, true, first);
        BetweenIdle(a1.links, net, c, start);
        ConfigureStrays(a1, net, c, start, second);
      }
      assert k in a2.links;
      FinalizeKeepsName(a2.links, c, a.lastMode, a2.halEthWan, k);
      assert k !in Topology(net, c, a2.halEthWan);
    }
  }

  lemma DropKeepsName(a: Agent, c: Config, ans: Answers, k: string)
    requires k in a.links
    ensures k in Configure(a, c, true, ans).0.links
  {
  }

  /** The mode a request ends in: the wanted one when its writes succeed; otherwise the
      one of the last HAL write that succeeded, the rollback's or its own, if any. */
  function ModeAfterRequest(before: bool, enable: bool, first: Answers, second: Answers): bool {
    if first.hal && first.settings then enable
    else if second.hal then !enable
    else if first.hal then enable
    else before
  }

  lemma ModeReached(a: Agent, c: Config, enable: bool, first: Answers, second: Answers)
    ensures SwitchMode(a, c, enable, first, second).halEthWan == ModeAfterRequest(a.halEthWan, enable, first, second)
  {
  }

  /** While an enabling request is on its way the port is out of the LAN bridge. */
  lemma EnablingDropsPort(a: Agent, c: Config, ans: Answers)
    requires IsBridge(a.links, LAN) && IsDevice(a.links, c.port)
    ensures var n := Configure(a, c, true, ans).0.links;
      IsBridge(n, LAN) && n[LAN].members == a.links[LAN].members - {a.links[c.port].id}
  {
  }

  /** A WAN interface that is not called erouter0, with the default port name held. */
  const OTHER_NAME := Config(Puma7, "wan0", "nsgmii0", "nsgmii0")
  const OTHER_NET: Net :=
    map[LAN := Bridge({1}), "nsgmii0" := Device(1), "wan0" := Device(2), "dpdmta1" := Device(3)]

  /** Leaving Ethernet mode with every write succeeding: the parked device is renamed to
      erouter0, and the WAN interface never comes back. */
  lemma OtherNameLost()
    ensures var c, a := OTHER_NAME, Agent(Ethernet(OTHER_NET, OTHER_NAME), true, WAN_MODE_ETH, NoReset);
      var r := SwitchMode(a, c, false, Answers(true, true), Answers(true, true));
      && Matching(a, OTHER_NET, c) && Recorded(a) && c.fallback in OTHER_NET
      && !Matching(r, OTHER_NET, c) && c.wan !in r.links && PRIMARY in r.links
  {
    var c, e := OTHER_NAME, Ethernet(OTHER_NET, OTHER_NAME);
    var a := Agent(e, true, WAN_MODE_ETH, NoReset);
    assert Docsis(OTHER_NET, c);
    ThreadMatchesIff(a, OTHER_NET, c, false, Answers(true, true), Answers(true, true));
    var n := EarlyRenames(e, c);
    assert DUMMY !in n && PRIMARY in n && IsBridge(n, "wan0");
  }

  /** A mode request, what the outside answers, and the mode recorded afterwards. */
  datatype Request = Request(enable: bool, first: Answers, second: Answers, recorded: int)

  function Serve(a: Agent, c: Config, requests: seq<Request>): Agent
    decreases requests
  {
    if requests == [] then a
    else
      var r := requests[0];
      Serve(SwitchMode(a, c, r.enable, r.first, r.second).(lastMode := r.recorded), c, requests[1..])
  }

  /** The mode recorded after each request is the one the HAL ended in. */
  ghost predicate Truthful(a: Agent, c: Config, requests: seq<Request>)
    decreases requests
  {
    requests != [] ==>
      var r := requests[0];
      var b := SwitchMode(a, c, r.enable, r.first, r.second).(lastMode := r.recorded);
      Recorded(b) && Truthful(b, c, requests[1..])
  }

  /** Over every run of requests, with any failures, the topology keeps matching the
      HAL's flag if the early renames apply in neither topology. */
  lemma {:induction false} ServeMatches(a: Agent, net: Net, c: Config, requests: seq<Request>)
    requires Matching(a, net, c) && Recorded(a) && Apart(c)
    requires Idle(net, c) && Idle(Ethernet(net, c), c)
    requires Truthful(a, c, requests)
    ensures Matching(Serve(a, c, requests), net, c)
    decreases requests
  {
    if requests != [] {
      var r := requests[0];
      ThreadMatchesIff(a, net, c, r.enable, r.first, r.second);
      ServeMatches(SwitchMode(a, c, r.enable, r.first, r.second).(lastMode := r.recorded), net, c, requests[1..]);
    }
  }

  /** The mode after a run of requests. */
  function ModeAfterRun(before: bool, requests: seq<Request>): bool
    decreases requests
  {
    if requests == [] then before
    else
      var r := requests[0];
      ModeAfterRun(ModeAfterRequest(before, r.enable, r.first, r.second), requests[1..])
  }

  /** Over every run of requests, with any failures, the topology is that of the mode
      which the requests and their answers lead to. */
  lemma {:induction false} ServeReaches(a: Agent, net: Net, c: Config, requests: seq<Request>)
    requires Matching(a, net, c) && Recorded(a) && Apart(c)
    requires Idle(net, c) && Idle(Ethernet(net, c), c)
    requires Truthful(a, c, requests)
    ensures Serve(a, c, requests).links == Topology(net, c, ModeAfterRun(a.halEthWan, requests))
    decreases requests
  {
    if requests != [] {
      var r := requests[0];
      ThreadMatchesIff(a, net, c, r.enable, r.first, r.second);
      ModeReached(a, c, r.enable, r.first, r.second);
      ServeReaches(SwitchMode(a, c, r.enable, r.first, r.second).(lastMode := r.recorded), net, c, requests[1..]);
    }
  }

  lemma {:induction false} LastModeWins(before: bool, requests: seq<Request>)
    requires requests != []
    ensures var r := requests[|requests| - 1];
      r.first.hal && r.first.settings ==> ModeAfterRun(before, requests) == r.enable
    decreases requests
  {
    if |requests| > 1 {
      var r := requests[0];
      LastModeWins(ModeAfterRequest(before, r.enable, r.first, r.second), requests[1..]);
    } else {
      assert requests[1..] == [];
    }
  }

  /** After a run whose last request has all its writes succeed, the topology is that of
      the mode it asks for. */
  lemma LastRequestReached(a: Agent, net: Net, c: Config, requests: seq<Request>)
    requires Matching(a, net, c) && Recorded(a) && Apart(c)
    requires Idle(net, c) && Idle(Ethernet(net, c), c)
    requires Truthful(a, c, requests) && requests != []
    ensures var r := requests[|requests| - 1];
      r.first.hal && r.first.settings ==> Serve(a, c, requests).links == Topology(net, c, r.enable)
  {
    ServeReaches(a, net, c, requests);
    LastModeWins(a.halEthWan, requests);
  }

  /** From every matching start, every run keeps the topology matching. */
  ghost predicate AlwaysMatches(net: Net, c: Config) {
    forall a, requests ::
      Matching(a, net, c) && Recorded(a) && Truthful(a, c, requests) ==> Matching(Serve(a, c, requests), net, c)
  }

  lemma AlwaysMatchesIff(net: Net, c: Config)
    requires Docsis(net, c) && Apart(c)
    ensures AlwaysMatches(net, c) <==> Idle(net, c) && Idle(Ethernet(net, c), c)
  {
    if Idle(net, c) && Idle(Ethernet(net, c), c) {
      forall a, requests | Matching(a, net, c) && Recorded(a) && Truthful(a, c, requests)
        ensures Matching(Serve(a, c, requests), net, c)
      {
        ServeMatches(a, net, c, requests);
      }
    }
    if !Idle(net, c) { OneRequestFails(net, c, false); }
    if !Idle(Ethernet(net, c), c) { OneRequestFails(net, c, true); }
  }

  lemma OneRequestFails(net: Net, c: Config, start: bool)
    requires Docsis(net, c) && Apart(c) && !Idle(Topology(net, c, start), c)
    ensures !AlwaysMatches(net, c)
  {
    var a := Agent(Topology(net, c, start), start, if start then WAN_MODE_ETH else WAN_MODE_DOCSIS, NoReset);
    var yes := Answers(true, true);
    var r := Request(false, yes, yes, WAN_MODE_DOCSIS);
    var b := SwitchMode(a, c, false, yes, yes).(lastMode := WAN_MODE_DOCSIS);
    ThreadMatchesIff(a, net, c, false, yes, yes);
    assert [r][1..] == [];
    assert Serve(b, c, []) == b && Truthful(b, c, []);
    assert Serve(a, c, [r]) == b && Truthful(a, c, [r]);
    assert !Matching(b, net, c);
  }
}
