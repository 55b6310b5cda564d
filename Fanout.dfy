/** The websocket fan-out of `main.py`: the list of connected clients that
    live measurement events are pushed to. */
module Fanout {
  import opened Messages

  /** A connected websocket client as the manager sees it. `open` says
      whether `send_json` to it succeeds (a client that has gone away makes
      it raise) and stays fixed for the client's life; `received` is every
      event it has been sent so far. */
  class WebSocket {
    const open: bool
    var received: seq<Event>

    constructor (open: bool)
      ensures this.open == open && received == []
    {
      this.open := open;
      received := [];
    }
  }

  // ---------------------------------------------------------------------
  // List operations the manager relies on
  // ---------------------------------------------------------------------

  /** Python's `list.remove(x)` on a list that contains `x`: the first
      occurrence goes, the rest keeps its order. */
  function RemoveFirst<T(==)>(s: seq<T>, x: T): (r: seq<T>)
    ensures x in s ==> |r| == |s| - 1
    ensures x !in s ==> r == s
  {
    if s == [] then []
    else if s[0] == x then s[1..]
    else [s[0]] + RemoveFirst(s[1..], x)
  }

  /** How many times `x` occurs in `s`. */
  function Count<T(==)>(s: seq<T>, x: T): (n: nat)
    ensures n <= |s|
    ensures n == 0 <==> x !in s
  {
    if s == [] then 0
    else Count(s[..|s| - 1], x) + (if s[|s| - 1] == x then 1 else 0)
  }

  /** `n` copies of `e`. */
  function Repeat(e: Event, n: nat): (r: seq<Event>)
    ensures |r| == n
    ensures forall i :: 0 <= i < n ==> r[i] == e
  {
    if n == 0 then [] else Repeat(e, n - 1) + [e]
  }

  /** The number of entries whose send raises. */
  function ClosedEntries(s: seq<WebSocket>): (n: nat)
    ensures n <= |s|
    ensures n == 0 <==> forall i :: 0 <= i < |s| ==> s[i].open
  {
    if s == [] then 0
    else ClosedEntries(s[..|s| - 1]) + (if s[|s| - 1].open then 0 else 1)
  }

  /** Removing the element at its first occurrence `i`: everything before
      and everything after stays, in order. */
  lemma {:induction false} RemoveFirstAt<T>(s: seq<T>, x: T, i: nat)
    requires i < |s| && s[i] == x && x !in s[..i]
    ensures RemoveFirst(s, x) == s[..i] + s[i + 1..]
    decreases i
  {
    if i > 0 {
      assert s[0] != x by { assert s[0] == s[..i][0]; }
      assert s[1..][..i - 1] == s[..i][1..];
      RemoveFirstAt(s[1..], x, i - 1);
      assert s[1..][i..] == s[i + 1..];
      assert s[..i] == [s[0]] + s[1..][..i - 1];
    }
  }

  /** `remove` takes out exactly one copy of `x` and adds nothing. */
  lemma {:induction false} RemoveFirstMultiset<T>(s: seq<T>, x: T)
    requires x in s
    ensures multiset(RemoveFirst(s, x)) == multiset(s) - multiset{x}
  {
    if s[0] != x {
      assert s == [s[0]] + s[1..];
      RemoveFirstMultiset(s[1..], x);
    } else {
      assert s == [s[0]] + s[1..];
    }
  }

  /** Disconnecting a client that connected once undoes its connection. */
  lemma {:induction false} RemoveLastConnected<T>(s: seq<T>, x: T)
    requires x !in s
    ensures RemoveFirst(s + [x], x) == s
  {
    var i := |s|;
    assert (s + [x])[..i] == s;
    RemoveFirstAt(s + [x], x, i);
  }

  lemma CountSnoc<T>(s: seq<T>, y: T, x: T)
    ensures Count(s + [y], x) == Count(s, x) + (if y == x then 1 else 0)
  {
    assert (s + [y])[..|s|] == s;
  }

  lemma ClosedEntriesSnoc(s: seq<WebSocket>, c: WebSocket)
    ensures ClosedEntries(s + [c]) == ClosedEntries(s) + (if c.open then 0 else 1)
  {
    assert (s + [c])[..|s|] == s;
  }

  /** How many copies of a broadcast the client `c` receives when the
      entries of `s` are tried in turn: one per entry, if its sends succeed. */
  function Deliveries(s: seq<WebSocket>, c: WebSocket): nat {
    if c.open then Count(s, c) else 0
  }

  lemma DeliveriesSnoc(s: seq<WebSocket>, c: WebSocket, d: WebSocket)
    ensures Deliveries(s + [c], d) == Deliveries(s, d) + (if c == d && c.open then 1 else 0)
  {
    CountSnoc(s, c, d);
  }

  /** A client that occurs once in the list is sent each broadcast once. */
  lemma {:induction false} CountOnce<T>(s: seq<T>, x: T)
    requires x !in s
    ensures Count(s + [x], x) == 1
  {
    CountSnoc(s, x, x);
  }

  // ---------------------------------------------------------------------
  // The manager
  // ---------------------------------------------------------------------

  /** `ConnectionManager`: a list of clients, in connection order, that may
      hold the same client more than once. */
  class ConnectionManager {
    var activeConnections: seq<WebSocket>

    constructor ()
      ensures activeConnections == []
    {
      activeConnections := [];
    }

    /** `connect`, after the handshake (`accept`) succeeded: the client goes
        at the end and every earlier entry stays where it was. */
    method Connect(ws: WebSocket)
      modifies this
      ensures activeConnections == old(activeConnections) + [ws]
    {
      activeConnections := activeConnections + [ws];
    }

    /** `disconnect`: `list.remove` scans for the first occurrence and
        deletes it; a client that is not in the list makes it raise
        `ValueError` (`removed` false) and nothing changes. */
    method Disconnect(ws: WebSocket) returns (removed: bool)
      modifies this
      ensures removed <==> ws in old(activeConnections)
      ensures activeConnections == RemoveFirst(old(activeConnections), ws)
    {
      var i := 0;
      while i < |activeConnections| && activeConnections[i] != ws
        invariant 0 <= i <= |activeConnections|
        invariant ws !in activeConnections[..i]
      {
        i := i + 1;
      }
      if i == |activeConnections| {
        assert activeConnections[..i] == activeConnections;
        removed := false;
      } else {
        RemoveFirstAt(activeConnections, ws, i);
        activeConnections := activeConnections[..i] + activeConnections[i + 1..];
        removed := true;
      }
    }

    /** One iteration of `broadcast`: `send_json` to the entry at `i`,
        which raises when that client has gone away. Given that every
        client holds what it had at the start (`before`) plus one copy per
        earlier entry, the same holds with this entry counted too. */
    method SendStep(conns: seq<WebSocket>, i: nat, e: Event, ghost before: map<WebSocket, seq<Event>>)
      returns (failed: bool)
      requires i < |conns|
      requires forall d :: d in conns ==> d in before && d.received == before[d] + Repeat(e, Deliveries(conns[..i], d))
      modifies conns[i]
      ensures failed <==> !conns[i].open
      ensures forall d :: d in conns ==> d.received == before[d] + Repeat(e, Deliveries(conns[..i + 1], d))
    {
      var c := conns[i];
      assert conns[..i + 1] == conns[..i] + [c];
      if c.open {
        c.received := c.received + [e];
        failed := false;
      } else {
        failed := true;
      }
      forall d | d in conns
        ensures d.received == before[d] + Repeat(e, Deliveries(conns[..i + 1], d))
      {
        DeliveriesSnoc(conns[..i], c, d);
      }
    }

    /** `broadcast`: every entry is tried in list order; a send that raises
        is logged and skipped, and the loop goes on. The list itself is not
        changed and a client that failed stays in it. A client listed `k`
        times is sent the event `k` times if its sends succeed. `failures`
        counts the logged errors. */
    method Broadcast(e: Event) returns (failures: nat)
      modifies set c | c in activeConnections
      ensures activeConnections == old(activeConnections)
      ensures forall c :: c in activeConnections ==>
        c.received == old(c.received) + Repeat(e, Deliveries(activeConnections, c))
      ensures failures == ClosedEntries(activeConnections)
    {
      var conns := activeConnections;
      ghost var before := map c | c in conns :: c.received;
      var i := 0;
      failures := 0;
      while i < |conns|
        invariant 0 <= i <= |conns|
        invariant activeConnections == conns
        invariant forall c :: c in conns ==> c in before && before[c] == old(c.received)
        invariant forall c :: c in conns ==> c.received == before[c] + Repeat(e, Deliveries(conns[..i], c))
        invariant failures == ClosedEntries(conns[..i])
      {
        ClosedEntriesSnoc(conns[..i], conns[i]);
        assert conns[..i + 1] == conns[..i] + [conns[i]];
        var failed := SendStep(conns, i, e, before);
        if failed {
          failures := failures + 1;
        }
        i := i + 1;
      }
      assert conns[..i] == conns;
    }
  }
}
