/** The Ethernet WAN state machine: five states ticked against a shared port
    record that other threads may change between the reads of one tick. */
module EthManager {
  import opened Basics

  datatype State = Exit | Disconnected | ValidatingLink | VlanConfiguring | WanLinkUp

  /** The shared record of the watched port. */
  datatype Port = Port(upstream: bool, link: Status, wan: Status, validated: bool)

  /** What a lookup of the watched name finds; Missing is a failed lookup. */
  datatype Record = Missing | Present(port: Port)

  /** record is the watched port as the last tick left it, sent the link status the
      WAN Manager was last sent, vlan the state of the VLAN termination. */
  datatype Machine = Machine(state: State, record: Record, sent: Status, vlan: bool)

  /** What the other threads leave for the lookups of a tick: the state function's
      own, the transition's, the one that writes the WAN status, and the
      notification's. `reachable`: the WAN Manager answers and knows the port. */
  datatype Env = Env(first: Record, second: Record, written: bool, named: bool, reachable: bool)

  const START := Machine(Exit, Missing, Down, false)

  // ----- specification of a tick

  /** The notification goes out: its own lookup and that of the instance succeed. */
  predicate Delivered(env: Env) {
    env.named && env.reachable
  }

  function Send(m: Machine, status: Status, env: Env): Machine {
    if Delivered(env) then m.(sent := status) else m
  }

  /** Transition_EthPhyInterfaceDown */
  function GoDown(m: Machine, env: Env): Machine {
    match env.second
    case Missing => m.(record := Missing, state := ValidatingLink)
    case Present(p) =>
      var record := if env.written then Present(p.(wan := Down)) else Missing;
      Send(m.(record := record, vlan := false, state := Exit), Down, env)
  }

  /** Transition_EthWanLinkFound */
  function FindLink(m: Machine, env: Env): Machine {
    match env.second
    case Missing => m.(record := Missing, state := ValidatingLink)
    case Present(p) => m.(record := env.second, vlan := true, state := VlanConfiguring)
  }

  /** Transition_EthWanLinkUp */
  function GoUp(m: Machine, env: Env): Machine {
    Send(m.(state := WanLinkUp), Up, env)
  }

  /** TransitionExit */
  function Leave(m: Machine, env: Env): Machine {
    Send(m.(state := Exit), Down, env)
  }

  function Tick(m0: Machine, env: Env): Machine {
    var m := m0.(record := env.first);
    match env.first
    case Missing =>
      (match m.state
       case VlanConfiguring | WanLinkUp => m.(state := ValidatingLink)
       case _ => m)
    case Present(p) =>
      match m.state
      case Exit => if p.upstream then m.(state := Disconnected) else m
      case Disconnected =>
        if !p.upstream then Leave(m, env)
        else if p.link == Up && p.wan == Down then m.(state := ValidatingLink)
        else if p.link == Up && p.wan == Up then GoUp(m, env)
        else m
      case ValidatingLink =>
        if !p.upstream || p.link == Down then Leave(m, env)
        else if p.validated then FindLink(m, env)
        else m
      case VlanConfiguring =>
        if !p.upstream || p.link == Down then GoDown(m, env)
        else if p.wan == Up then GoUp(m, env)
        else m
      case WanLinkUp =>
        if !p.upstream || p.wan == Down || p.link == Down then GoDown(m, env)
        else m
  }

  function Run(m: Machine, envs: seq<Env>): Machine {
    if envs == [] then m
    else Tick(Run(m, envs[..|envs| - 1]), envs[|envs| - 1])
  }

  // ----- the thread

  class StateMachine {
    var state: State
    var record: Record
    var sent: Status
    var vlan: bool

    ghost function Now(): Machine
      reads this
    {
      Machine(state, record, sent, vlan)
    }

    constructor ()
      ensures Now() == START
    {
      state, record, sent, vlan := Exit, Missing, Down, false;
    }

    /** CosaDmlEthSetWanLinkStatusForWanManager */
    method Notify(status: Status, env: Env)
      modifies this`sent
      ensures Now() == Send(old(Now()), status, env)
    {
      if !env.named || !env.reachable {
        return;
      }
      sent := status;
    }

    method PhyInterfaceDown(env: Env) returns (next: State)
      modifies this
      ensures Now().(state := next) == GoDown(old(Now()), env) && state == old(state)
    {
      record := env.second;
      if record.Missing? {
        return ValidatingLink;
      }
      record := if env.written then Present(record.port.(wan := Down)) else Missing;
      vlan := false;
      Notify(Down, env);
      return Exit;
    }

    method WanLinkFound(env: Env) returns (next: State)
      modifies this
      ensures Now().(state := next) == FindLink(old(Now()), env) && state == old(state)
    {
      record := env.second;
      if record.Missing? {
        return ValidatingLink;
      }
      vlan := true;
      return VlanConfiguring;
    }

    /** One pass of the thread's loop. */
    method Step(env: Env)
      modifies this
      ensures Now() == Tick(old(Now()), env)
    {
      record := env.first;
      var next := state;
      if record.Missing? {
        next := if state == VlanConfiguring || state == WanLinkUp then ValidatingLink else state;
      } else {
        var p := record.port;
        match state {
          case Exit =>
            if p.upstream { next := Disconnected; }
          case Disconnected =>
            if !p.upstream { Notify(Down, env); next := Exit; }
            else if p.link == Up && p.wan == Down { next := ValidatingLink; }
            else if p.link == Up && p.wan == Up { Notify(Up, env); next := WanLinkUp; }
          case ValidatingLink =>
            if !p.upstream || p.link == Down { Notify(Down, env); next := Exit; }
            else if p.validated { next := WanLinkFound(env); }
          case VlanConfiguring =>
            if !p.upstream || p.link == Down { next := PhyInterfaceDown(env); }
            else if p.wan == Up { Notify(Up, env); next := WanLinkUp; }
          case WanLinkUp =>
            if !p.upstream || p.wan == Down || p.link == Down { next := PhyInterfaceDown(env); }
        }
      }
      state := next;
    }
  }

  // ----- safety over every run

  /** Three claims about a machine: "Up" was sent last exactly in WanLinkUp; "Up" was
      not sent last in Exit or Disconnected; the VLAN is enabled only while it is
      being configured or the link is up. */
  datatype Claim = UpWhenUp | DownWhenOut | VlanInPlace

  predicate Holds(claim: Claim, m: Machine) {
    match claim
    case UpWhenUp => m.sent == Up <==> m.state == WanLinkUp
    case DownWhenOut => m.state == Exit || m.state == Disconnected ==> m.sent == Down
    case VlanInPlace => m.vlan ==> m.state == VlanConfiguring || m.state == WanLinkUp
  }

  /** The state's guard for announcing the link. */
  predicate Rises(s: State, p: Port) {
    p.upstream && p.link == Up && p.wan == Up && (s == Disconnected || s == VlanConfiguring)
  }

  /** The state's guard for giving the link up. */
  predicate Falls(s: State, p: Port) {
    match s
    case Exit => false
    case Disconnected => !p.upstream
    case ValidatingLink | VlanConfiguring => !p.upstream || p.link == Down
    case WanLinkUp => !p.upstream || p.wan == Down || p.link == Down
  }

  /** The tick meets a failed lookup or a lost message where the claim needs it. */
  predicate Breaks(claim: Claim, m: Machine, env: Env) {
    match claim
    case UpWhenUp =>
      || (env.first.Present? && Rises(m.state, env.first.port) && !Delivered(env))
      || (m.state == WanLinkUp && env.first.Missing?)
      || (m.state == WanLinkUp && env.first.Present? && Falls(m.state, env.first.port)
          && (env.second.Missing? || !Delivered(env)))
    case DownWhenOut =>
      && m.sent == Up && env.first.Present? && Falls(m.state, env.first.port) && !Delivered(env)
      && (m.state == ValidatingLink || env.second.Present?)
    case VlanInPlace =>
      && m.vlan
      && (env.first.Missing? || (Falls(m.state, env.first.port) && env.second.Missing?))
  }

  /** Each claim survives a tick if and only if the tick does not break it. */
  lemma StepKeepsIff(claim: Claim, m: Machine, env: Env)
    requires Holds(claim, m)
    ensures Holds(claim, Tick(m, env)) <==> !Breaks(claim, m, env)
  {
  }

  lemma RunNext(envs: seq<Env>, k: nat)
    requires k < |envs|
    ensures Run(START, envs[..k + 1]) == Tick(Run(START, envs[..k]), envs[k])
  {
    assert envs[..k + 1][..k] == envs[..k];
  }

  ghost predicate Always(claim: Claim, envs: seq<Env>) {
    forall k :: 0 <= k <= |envs| ==> Holds(claim, Run(START, envs[..k]))
  }

  ghost predicate NeverBroken(claim: Claim, envs: seq<Env>) {
    forall k :: 0 <= k < |envs| ==> !Breaks(claim, Run(START, envs[..k]), envs[k])
  }

  /** Over every run: each claim holds throughout if and only if no tick breaks it. */
  lemma RunKeepsIff(claim: Claim, envs: seq<Env>)
    ensures Always(claim, envs) <==> NeverBroken(claim, envs)
  {
    if Always(claim, envs) {
      forall k | 0 <= k < |envs|
        ensures !Breaks(claim, Run(START, envs[..k]), envs[k])
      {
        RunNext(envs, k);
        StepKeepsIff(claim, Run(START, envs[..k]), envs[k]);
        assert Holds(claim, Run(START, envs[..k + 1]));
      }
    }
    if NeverBroken(claim, envs) {
      forall k | 0 <= k <= |envs|
        ensures Holds(claim, Run(START, envs[..k]))
      {
        HoldsUpTo(claim, envs, k);
      }
    }
  }

  lemma {:induction false} HoldsUpTo(claim: Claim, envs: seq<Env>, k: nat)
    requires k <= |envs|
    requires NeverBroken(claim, envs)
    ensures Holds(claim, Run(START, envs[..k]))
  {
    if k > 0 {
      HoldsUpTo(claim, envs, k - 1);
      RunNext(envs, k - 1);
      StepKeepsIff(claim, Run(START, envs[..k - 1]), envs[k - 1]);
    }
  }

  /** The state after a tick, by the state's guards and the two lookups. */
  lemma TickStateIff(m: Machine, env: Env)
    ensures var next, found := Tick(m, env).state, env.first.Present?;
      && (next == Exit <==>
            (m.state == Exit && !(found && env.first.port.upstream))
            || (found && Falls(m.state, env.first.port)
                && (m.state == Disconnected || m.state == ValidatingLink || env.second.Present?)))
      && (next == Disconnected <==>
            (m.state == Exit && found && env.first.port.upstream)
            || (m.state == Disconnected && (!found || (env.first.port.upstream && env.first.port.link == Down))))
      && (next == VlanConfiguring <==>
            found && !Falls(m.state, env.first.port)
            && ((m.state == ValidatingLink && env.first.port.validated && env.second.Present?)
                || (m.state == VlanConfiguring && env.first.port.wan == Down)))
      && (next == WanLinkUp <==>
            found && (Rises(m.state, env.first.port) || (m.state == WanLinkUp && !Falls(m.state, env.first.port))))
  {
  }

  /** The VLAN is enabled whenever it is being configured, over every run. */
  lemma {:induction false} RunEnablesVlan(envs: seq<Env>)
    ensures Run(START, envs).state == VlanConfiguring ==> Run(START, envs).vlan
  {
    if envs != [] { RunEnablesVlan(envs[..|envs| - 1]); }
  }

  // ----- going down

  predicate GoesDown(m: Machine, env: Env) {
    && (m.state == VlanConfiguring || m.state == WanLinkUp)
    && env.first.Present? && env.second.Present? && Falls(m.state, env.first.port)
  }

  /** Going down ends in Exit with the VLAN disabled and the WAN status cleared in the
      record as it then is; no other tick changes the record. */
  lemma TickRecord(m: Machine, env: Env)
    ensures var n := Tick(m, env);
      if GoesDown(m, env) then
        n.state == Exit && !n.vlan && (env.written ==> n.record == Present(env.second.port.(wan := Down)))
      else n.record == env.first || n.record == env.second
  {
  }

  predicate WanUp(r: Record) {
    r.Present? && r.port.wan == Up
  }

  /** The other threads never turn the WAN status Up. */
  ghost predicate NoRaise(m: Machine, envs: seq<Env>) {
    envs != [] ==>
      var p, env := envs[..|envs| - 1], envs[|envs| - 1];
      NoRaise(m, p)
      && (WanUp(env.first) ==> WanUp(Run(m, p).record)) && (WanUp(env.second) ==> WanUp(env.first))
  }

  /** After going down the machine is not in WanLinkUp again before another thread turns
      the WAN status Up. */
  lemma {:induction false} NoReturn(m: Machine, env: Env, envs: seq<Env>)
    requires GoesDown(m, env) && NoRaise(Tick(m, env), envs)
    ensures var n := Run(Tick(m, env), envs);
      n.state != WanLinkUp && !WanUp(n.record)
  {
    if envs != [] { NoReturn(m, env, envs[..|envs| - 1]); }
  }

  ghost predicate InTable(env: Env) {
    env.first.Present? && env.second.Present? && env.written && env.named
  }

  /** While the watched name stays in the port table and the WAN Manager answers, all
      three claims hold; the last one without the WAN Manager. */
  lemma RunInTable(envs: seq<Env>)
    requires forall e :: e in envs ==> InTable(e)
    ensures Holds(VlanInPlace, Run(START, envs))
    ensures (forall e :: e in envs ==> e.reachable) ==> forall claim :: Holds(claim, Run(START, envs))
  {
    assert envs[..|envs|] == envs;
    forall k | 0 <= k < |envs| ensures InTable(envs[k]) {}
    HoldsUpTo(VlanInPlace, envs, |envs|);
    if forall e :: e in envs ==> e.reachable {
      forall claim ensures Holds(claim, Run(START, envs)) {
        assert forall k :: 0 <= k < |envs| ==> envs[k] in envs;
        HoldsUpTo(claim, envs, |envs|);
      }
    }
  }

  function Steady(p: Port): Env {
    Env(Present(p), Present(p), true, true, true)
  }

  const UP_PORT := Port(true, Up, Up, true)
  const DOWN_PORT := Port(true, Up, Down, true)
  const OFF_PORT := Port(false, Up, Down, true)
  const LOST := Env(Missing, Missing, false, false, true)

  /** The link comes up, one lookup fails, and the notification's own lookup fails
      when the machine leaves. */
  const STALE_RUN: seq<Env> :=
    [Steady(UP_PORT), Steady(UP_PORT), LOST, Env(Present(OFF_PORT), Missing, false, false, true)]

  /** The VLAN is enabled, one lookup fails, and the port is taken off the WAN. */
  const LEAK_RUN: seq<Env> :=
    [Steady(DOWN_PORT), Steady(DOWN_PORT), Steady(DOWN_PORT), LOST, Steady(OFF_PORT)]

  /** With the WAN Manager reachable throughout, a machine can be in Exit while the
      WAN Manager was last told "Up". */
  lemma StaleUp()
    ensures forall e :: e in STALE_RUN ==> e.reachable
    ensures Run(START, STALE_RUN).state == Exit && Run(START, STALE_RUN).sent == Up
  {
    assert STALE_RUN[..4] == STALE_RUN;
    RunNext(STALE_RUN, 0);
    RunNext(STALE_RUN, 1);
    RunNext(STALE_RUN, 2);
    RunNext(STALE_RUN, 3);
  }

  /** A single failed lookup can leave the VLAN enabled in Exit: the machine falls
      back to ValidatingLink, and leaving from there does not disable the VLAN. */
  lemma VlanLeaks()
    ensures Run(START, LEAK_RUN).state == Exit && Run(START, LEAK_RUN).vlan
  {
    assert LEAK_RUN[..5] == LEAK_RUN;
    RunNext(LEAK_RUN, 0);
    RunNext(LEAK_RUN, 1);
    RunNext(LEAK_RUN, 2);
    RunNext(LEAK_RUN, 3);
    RunNext(LEAK_RUN, 4);
  }

  // ----- settling

  /** A tick during which nobody else touches the record. */
  function Quiet(m: Machine): Machine {
    Tick(m, Env(m.record, m.record, true, true, true))
  }

  function Quiets(m: Machine, n: nat): Machine
    decreases n
  {
    if n == 0 then m else Quiets(Quiet(m), n - 1)
  }

  /** Where the machine comes to rest. */
  function Rest(s: State, p: Port): State {
    if !p.upstream then Exit
    else if p.link == Down then Disconnected
    else if p.wan == Up then (if s == ValidatingLink && !p.validated then ValidatingLink else WanLinkUp)
    else if p.validated || s == VlanConfiguring then VlanConfiguring
    else ValidatingLink
  }

  /** Ticks needed at most. */
  function Delay(p: Port): nat {
    if !p.upstream then 1 else if p.link == Down || p.wan == Up then 2 else 4
  }

  /** Ticks still needed from state s. */
  function Left(s: State, p: Port): nat {
    if s == Rest(s, p) then 0
    else if !p.upstream then 1
    else if p.link == Down then (if s == Exit then 1 else 2)
    else if p.wan == Up then (if s == Exit then 2 else if s == ValidatingLink then 2 else 1)
    else match s
      case WanLinkUp => if p.validated then 4 else 3
      case Exit => if p.validated then 3 else 2
      case Disconnected => if p.validated then 2 else 1
      case _ => 1
  }

  /** A quiet tick keeps the resting state and comes one closer to it. */
  lemma QuietCloser(m: Machine)
    requires m.record.Present?
    ensures var p, m' := m.record.port, Quiet(m);
      && m'.record.Present?
      && (Left(m.state, p) == 0 ==> m' == m)
      && Rest(m'.state, m'.record.port) == Rest(m.state, p)
      && (Left(m.state, p) > 0 ==> Left(m'.state, m'.record.port) < Left(m.state, p))
  {
  }

  lemma {:induction false} SettlesFrom(m: Machine, n: nat)
    requires m.record.Present? && n >= Left(m.state, m.record.port)
    ensures Quiets(m, n).state == Rest(m.state, m.record.port)
    decreases n
  {
    if n > 0 {
      QuietCloser(m);
      SettlesFrom(Quiet(m), n - 1);
    }
  }

  /** Once the inputs stop changing, the machine reaches its resting state within
      four ticks (one if not upstream, two if the link is down or both link and
      WAN are up) and stays there. */
  lemma SettlesWithin(m: Machine, n: nat)
    requires m.record.Present? && n >= Delay(m.record.port)
    ensures Quiets(m, n).state == Rest(m.state, m.record.port)
  {
    SettlesFrom(m, n);
  }

  /** Reachable machines with one record settle alike. */
  ghost predicate SettlesAlike(p: Port) {
    forall a, b :: Run(START, a).record == Present(p) && Run(START, b).record == Present(p)
      ==> Quiets(Run(START, a), 4).state == Quiets(Run(START, b), 4).state
  }

  /** The settled state is fixed by the inputs alone, whatever run led to them, if
      and only if the port is validated, not upstream or its link is down. */
  lemma SettlesAlikeIff(p: Port)
    ensures SettlesAlike(p) <==> (p.validated || !p.upstream || p.link == Down)
  {
    if p.validated || !p.upstream || p.link == Down {
      forall a, b | Run(START, a).record == Present(p) && Run(START, b).record == Present(p)
        ensures Quiets(Run(START, a), 4).state == Quiets(Run(START, b), 4).state
      {
        SettlesWithin(Run(START, a), 4);
        SettlesWithin(Run(START, b), 4);
        SameRest(Run(START, a), Run(START, b), p);
      }
    } else {
      var a := Approach(p, false);
      var b := Approach(p, true);
      ApproachEnds(p, false);
      ApproachEnds(p, true);
      SettlesWithin(Run(START, a), 4);
      SettlesWithin(Run(START, b), 4);
    }
  }

  lemma SameRest(m: Machine, n: Machine, p: Port)
    requires p.validated || !p.upstream || p.link == Down
    requires m.record == Present(p) == n.record
    ensures Rest(m.state, p) == Rest(n.state, p)
  {
  }

  /** Two ways to arrive at an unvalidated port: before and after its validation. */
  function Approach(p: Port, validated: bool): seq<Env> {
    [Steady(DOWN_PORT), Steady(DOWN_PORT), Steady(DOWN_PORT.(validated := validated)), Steady(p)]
  }

  lemma ApproachEnds(p: Port, validated: bool)
    requires p.upstream && p.link == Up && !p.validated
    ensures var m := Run(START, Approach(p, validated));
      && m.record == Present(p)
      && m.state == if !validated then ValidatingLink else if p.wan == Up then WanLinkUp else VlanConfiguring
  {
    var envs := Approach(p, validated);
    assert envs[..4] == envs;
    RunNext(envs, 0);
    RunNext(envs, 1);
    RunNext(envs, 2);
    RunNext(envs, 3);
  }
}
