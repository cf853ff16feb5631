/** The HTTP client with failover (pkg/clients/keaclient/keaclient.go:98-171). */
module Client {
  import opened Text
  import opened KeaServer

  /** The client and, behind it, the servers its URLs lead to. Calls do not overlap. */
  class KeaClient {
    const fates: Fates
    const secondaryUrl: string
    var baseUrl: string
    var currentUrl: string
    var world: World

    /** A secondary is configured exactly if there is one, and currentUrl names the peer that answered last. */
    ghost predicate Valid()
      reads this
    {
      && (secondaryUrl != "" <==> world.secondary.Some?)
      && (world.current == Some(Primary) ==> currentUrl == baseUrl)
      && (world.current == Some(Secondary) ==> secondaryUrl != "" && currentUrl == secondaryUrl)
    }

    constructor (fates: Fates, baseUrl: string, secondaryUrl: string, world: World)
      requires (secondaryUrl != "" <==> world.secondary.Some?) && world.current.None?
      ensures Valid() && this.world == world && this.fates == fates
      ensures this.baseUrl == baseUrl && this.secondaryUrl == secondaryUrl
    {
      this.fates, this.baseUrl, this.secondaryUrl, this.world, this.currentUrl := fates, baseUrl, secondaryUrl, world, "";
    }

    /** The request on its way to one peer and back: what was read of the answer, if anything. */
    method Post(peer: Peer, c: Command, fate: Fate) returns (heard: Option<Reply>)
      requires peer.Secondary? ==> world.secondary.Some?
      modifies this`world
      ensures peer.Primary? ==>
        && heard == Heard(old(world).primary, c, fate.primary)
        && world == old(world).(primary := After(old(world).primary, c, fate.primary))
      ensures peer.Secondary? ==>
        && heard == Heard(old(world).secondary.value, c, fate.secondary)
        && world == old(world).(secondary := Some(After(old(world).secondary.value, c, fate.secondary)))
    {
      if peer.Primary? {
        heard := Heard(world.primary, c, fate.primary);
        world := world.(primary := After(world.primary, c, fate.primary));
      } else {
        heard := Heard(world.secondary.value, c, fate.secondary);
        world := world.(secondary := Some(After(world.secondary.value, c, fate.secondary)));
      }
    }

    /**
     Tries the primary, then the secondary. Each peer sees the command at most once, the secondary only after
     silence from the primary; baseUrl is back in place on every path.
     */
    method Send(c: Command) returns (r: Reply)
      requires Valid()
      modifies this
      ensures Valid() && baseUrl == old(baseUrl)
      ensures (world, r) == KeaServer.Send(fates, old(world), c)
      ensures fates(|old(world).sent|).primary.Silent? && secondaryUrl != "" && !fates(|old(world).sent|).secondary.Silent? ==>
        currentUrl == secondaryUrl && Some(r) == Heard(old(world).secondary.value, c, fates(|old(world).sent|).secondary)
      ensures !r.NoReply? ==> world.current.Some? && currentUrl == if world.current == Some(Primary) then baseUrl else secondaryUrl
    {
      var fate := fates(|world.sent|);
      world := world.(sent := world.sent + [c]);
      var urls := [baseUrl] + if secondaryUrl != "" then [secondaryUrl] else [];
      ghost var start := world;
      for i := 0 to |urls|
        invariant baseUrl == old(baseUrl) && currentUrl == old(currentUrl) && Valid()
        invariant i >= 1 ==> Heard(start.primary, c, fate.primary).None?
        invariant i >= 2 ==> Heard(start.secondary.value, c, fate.secondary).None?
        invariant world == start.(primary := if i >= 1 then After(start.primary, c, fate.primary) else start.primary,
                                  secondary := if i >= 2 then Some(After(start.secondary.value, c, fate.secondary))
                                               else start.secondary)
      {
        var originalBase := baseUrl;
        baseUrl := urls[i];
        baseUrl := originalBase;
        var heard := Post(if i == 0 then Primary else Secondary, c, fate);
        if heard.Some? {
          currentUrl := urls[i];
          world := world.(current := Some(if i == 0 then Primary else Secondary));
          return heard.value;
        }
      }
      return NoReply(Wording(fate));
    }
  }
}
