/** The end of a session, across the hub and the SOCKS stream table. */
module Departure {
  import opened TapHub
  import opened HubServer
  import Socks
  import SocksServer

  /** Forgets the session's addresses, frees its slot, closes the streams of its node and stops its writer. */
  method UnregisterSession(hub: Server, streams: SocksServer.Table, fd: int)
    requires hub.Valid() && streams.Valid()
    requires streams !in hub.Repr && streams.slots !in hub.Repr
    modifies hub`view, hub.macs, hub.Repr, streams`log, streams.slots
    ensures hub.Valid() && streams.Valid()
    ensures hub.Hub() == Unregister(old(hub.Hub()), fd)
    ensures streams.View() == Socks.NodeGone(old(streams.View()), fd).0
    ensures streams.log == old(streams.log) + Socks.NodeGone(old(streams.View()), fd).1
  {
    hub.UnregisterSession(fd);
    streams.CloseNode(fd);
  }
}
