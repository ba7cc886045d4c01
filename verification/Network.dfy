/** Names, devices and bridges of the gateway, and the commands that change them.
    A command that does not apply changes nothing: its failure is ignored. */
module Network {

  /** A bridge's members are devices, so they stay members when renamed. */
  datatype Link = Device(id: nat) | Bridge(members: set<nat>)

  type Net = map<string, Link>

  predicate IsDevice(net: Net, name: string) {
    name in net && net[name].Device?
  }

  predicate IsBridge(net: Net, name: string) {
    name in net && net[name].Bridge?
  }

  predicate Enslaved(net: Net, id: nat) {
    exists b :: b in net && net[b].Bridge? && id in net[b].members
  }

  /** ip link set a name b */
  function Rename(net: Net, a: string, b: string): Net {
    if a in net && b !in net then (net - {a})[b := net[a]] else net
  }

  /** brctl addbr b */
  function AddBridge(net: Net, b: string): Net {
    if b in net then net else net[b := Bridge({})]
  }

  /** brctl delbr b */
  function DelBridge(net: Net, b: string): Net {
    if IsBridge(net, b) then net - {b} else net
  }

  /** brctl addif b p: refused for a device that is already in a bridge. */
  function AddPort(net: Net, b: string, p: string): Net {
    if IsBridge(net, b) && IsDevice(net, p) && !Enslaved(net, net[p].id)
    then net[b := Bridge(net[b].members + {net[p].id})]
    else net
  }

  /** brctl delif b p */
  function DelPort(net: Net, b: string, p: string): Net {
    if IsBridge(net, b) && IsDevice(net, p) && net[p].id in net[b].members
    then net[b := Bridge(net[b].members - {net[p].id})]
    else net
  }

  /** No device is in two bridges, and no device has two names. */
  ghost predicate Sound(net: Net) {
    && (forall a, b, id ::
          a in net && b in net && net[a].Bridge? && net[b].Bridge? && id in net[a].members && id in net[b].members
          ==> a == b)
    && (forall a, b :: a in net && b in net && net[a].Device? && net[b].Device? && net[a].id == net[b].id ==> a == b)
  }

  /** Every command keeps that. */
  lemma CommandsKeepSound(net: Net, a: string, b: string)
    requires Sound(net)
    ensures Sound(Rename(net, a, b)) && Sound(AddBridge(net, b)) && Sound(DelBridge(net, b))
    ensures Sound(AddPort(net, b, a)) && Sound(DelPort(net, b, a))
  {
  }
}
