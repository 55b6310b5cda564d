/** The `/ws` endpoint of `main.py` up to its receive loop: a client is
    registered with the connection manager, then sent the history
    snapshot one event at a time. */
module Stream {
  import opened Messages
  import opened Database
  import opened Fanout
  import opened Queries

  /** Opens a session for `ws` over the tables `t`. If a send raises, the
      generic `except` removes the client again (the `ValueError` of a
      second removal is swallowed); `listening` says whether the endpoint
      goes on to wait for the client's messages. */
  method OpenSession(manager: ConnectionManager, ws: WebSocket, t: Tables) returns (listening: bool)
    modifies manager, ws
    ensures listening <==> ws.open || Snapshot(t) == []
    ensures ws.received == old(ws.received) + (if ws.open then Snapshot(t) else [])
    ensures listening ==> manager.activeConnections == old(manager.activeConnections) + [ws]
    ensures !listening ==> manager.activeConnections == RemoveFirst(old(manager.activeConnections) + [ws], ws)
  {
    manager.Connect(ws);
    var snap := Snapshot(t);
    var i := 0;
    listening := true;
    while i < |snap| && listening
      invariant 0 <= i <= |snap|
      invariant listening ==> ws.received == old(ws.received) + snap[..i]
      invariant !ws.open ==> i == 0 && ws.received == old(ws.received)
      invariant ws.open ==> listening
      invariant !listening ==> snap != []
      invariant manager.activeConnections == old(manager.activeConnections) + [ws]
      decreases |snap| - i, listening
    {
      if ws.open {
        assert snap[..i + 1] == snap[..i] + [snap[i]];
        ws.received := ws.received + [snap[i]];
        i := i + 1;
      } else {
        listening := false;
      }
    }
    if listening {
      assert snap[..i] == snap;
    } else {
      var _ := manager.Disconnect(ws);
    }
  }
}
