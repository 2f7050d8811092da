/**
 The live-reload channel: the set of connected event-stream clients, the
 stream hooks that add and remove them, the broadcast run by the file watcher
 when a watched file's modification time changes, and the clean-up on
 shutdown.

 A client is identified by its stream controller; here a controller is a
 number handed out once. Each client's outbox records the messages that were
 enqueued on its stream, in order. Enqueueing fails for the clients in
 `broken`, an oracle for streams whose other end has gone away; closing a
 stream may fail as well, but every such failure is caught and ignored, so a
 close is recorded as attempted whatever its outcome.
 */
module LiveReload {

  type ClientId = nat

  /** The event pushed to every client when a watched file changes. */
  const ReloadEvent := "data: reload\n\n"

  class Hub {
    /** `sseClients`: the clients currently connected. */
    var clients: set<ClientId>
    /** The messages enqueued so far on each stream ever opened. */
    var outbox: map<ClientId, seq<string>>
    /** The streams the server has tried to close. */
    var closed: set<ClientId>
    /** The next controller identity to hand out. */
    var nextId: ClientId

    /**
     Every connected client has a stream, every stream was handed out before,
     and a stream the server closed is no longer connected.
     */
    ghost predicate Valid()
      reads this
    {
      && clients <= outbox.Keys
      && closed <= outbox.Keys
      && clients !! closed
      && forall c :: c in outbox ==> c < nextId
    }

    constructor ()
      ensures Valid()
      ensures clients == {} && outbox == map[] && closed == {}
    {
      clients := {};
      outbox := map[];
      closed := {};
      nextId := 0;
    }

    /**
     The stream's `start` hook: a new client with a fresh controller joins the
     set, which grows by exactly one.
     */
    method Connect() returns (id: ClientId)
      requires Valid()
      modifies this
      ensures Valid()
      ensures id !in old(outbox) && id !in old(clients)
      ensures clients == old(clients) + {id}
      ensures |clients| == |old(clients)| + 1
      ensures outbox == old(outbox)[id := []]
      ensures closed == old(closed)
    {
      id := nextId;
      nextId := nextId + 1;
      clients := clients + {id};
      outbox := outbox[id := []];
    }

    /**
     The stream's `cancel` hook: the entry whose controller is `id` is removed
     if it is present; nothing else changes.
     */
    method Cancel(id: ClientId)
      requires Valid()
      modifies this
      ensures Valid()
      ensures clients == old(clients) - {id}
      ensures id in old(clients) ==> |clients| == |old(clients)| - 1
      ensures id !in old(clients) ==> clients == old(clients)
      ensures outbox == old(outbox) && closed == old(closed) && nextId == old(nextId)
    {
      var found := id in clients;
      if found {
        clients := clients - {id};
      }
    }

    /**
     The watcher's callback for one watched file, given the previous and the
     current modification time: it broadcasts when they differ and does
     nothing otherwise.
     */
    method OnWatchTick(prevMtime: int, currMtime: int, broken: set<ClientId>)
      requires Valid()
      modifies this
      ensures Valid()
      ensures nextId == old(nextId) && outbox.Keys == old(outbox).Keys
      ensures prevMtime == currMtime ==>
        clients == old(clients) && outbox == old(outbox) && closed == old(closed)
      ensures prevMtime != currMtime ==>
        && clients == old(clients) - broken
        && closed == old(closed) + (old(clients) * broken)
        && |clients| == |old(clients)| - |old(clients) * broken|
        && (forall c :: c in old(clients) && c !in broken ==> outbox[c] == old(outbox)[c] + [ReloadEvent])
        && (forall c :: c in old(outbox) && (c !in old(clients) || c in broken) ==> outbox[c] == old(outbox)[c])
    {
      if currMtime != prevMtime {
        Broadcast(broken);
        RemainingCount(old(clients), broken);
      }
    }

    /**
     The reload event is enqueued on every connected client; a client whose
     enqueue fails is removed from the set and its stream closed, and the
     loop goes on with the rest. Afterwards the set is the old set minus
     exactly the failed clients, and every other client has received exactly
     one more reload event.
     */
    method Broadcast(broken: set<ClientId>)
      requires Valid()
      modifies this
      ensures Valid()
      ensures nextId == old(nextId) && outbox.Keys == old(outbox).Keys
      ensures clients == old(clients) - broken
      ensures closed == old(closed) + (old(clients) * broken)
      ensures forall c :: c in old(clients) && c !in broken ==> outbox[c] == old(outbox)[c] + [ReloadEvent]
      ensures forall c :: c in old(outbox) && (c !in old(clients) || c in broken) ==> outbox[c] == old(outbox)[c]
    {
      ghost var live := clients;
      ghost var done: set<ClientId> := {};
      var pending := clients;
      while pending != {}
        invariant done + pending == live && done !! pending
        invariant clients == live - (broken * done)
        invariant closed == old(closed) + (broken * done)
        invariant nextId == old(nextId) && outbox.Keys == old(outbox).Keys
        invariant forall c :: c in outbox ==> outbox[c] == if c in done - broken then old(outbox)[c] + [ReloadEvent] else old(outbox)[c]
        decreases pending
      {
        var c :| c in pending;
        if c !in broken {
          outbox := outbox[c := outbox[c] + [ReloadEvent]];
        } else {
          clients := clients - {c};
          closed := closed + {c};
        }
        pending := pending - {c};
        done := done + {c};
      }
    }

    /**
     Shutdown: a close is attempted on every connected client, whether or not
     earlier closes failed, and then the set is emptied.
     */
    method Shutdown()
      requires Valid()
      modifies this
      ensures Valid()
      ensures clients == {}
      ensures closed == old(closed) + old(clients)
      ensures outbox == old(outbox) && nextId == old(nextId)
    {
      var pending := clients;
      while pending != {}
        invariant pending <= clients == old(clients)
        invariant closed == old(closed) + (old(clients) - pending)
        invariant outbox == old(outbox) && nextId == old(nextId)
        decreases pending
      {
        var c :| c in pending;
        closed := closed + {c};
        pending := pending - {c};
      }
      clients := {};
    }
  }

  /** Removing the failed clients shrinks the set by the number of failed clients in it. */
  lemma RemainingCount(live: set<ClientId>, broken: set<ClientId>)
    ensures |live - broken| == |live| - |live * broken|
  {
  }

  /**
   Two clients connect; a watched file changes and both receive the reload
   event; the first disconnects; the file changes again and only the second
   receives it; a tick with an unchanged time sends nothing.
   */
  method DisconnectScenario() returns (first: seq<string>, second: seq<string>, connected: nat)
    ensures first == [ReloadEvent]
    ensures second == [ReloadEvent, ReloadEvent]
    ensures connected == 1
  {
    var hub := new Hub();
    var a := hub.Connect();
    var b := hub.Connect();
    assert a != b;
    hub.OnWatchTick(1000, 1500, {});
    assert hub.outbox[a] == [ReloadEvent] && hub.outbox[b] == [ReloadEvent];
    hub.Cancel(a);
    assert a !in hub.clients && b in hub.clients;
    assert hub.clients == {b};
    hub.OnWatchTick(1500, 2000, {});
    assert hub.outbox[a] == [ReloadEvent] && hub.outbox[b] == [ReloadEvent, ReloadEvent];
    hub.OnWatchTick(2000, 2000, {});
    first := hub.outbox[a];
    second := hub.outbox[b];
    assert hub.clients == {b};
    connected := |hub.clients|;
  }

  /**
   Two clients connect; the first one's stream is broken when a watched file
   changes, so it receives nothing, is closed and leaves the set, which shrinks
   by one; the next broadcast is not attempted on it, even though a push to it
   would now succeed.
   */
  method FailedPushScenario() returns (first: seq<string>, second: seq<string>, sizes: seq<nat>, firstClosed: bool)
    ensures first == []
    ensures second == [ReloadEvent, ReloadEvent]
    ensures sizes == [2, 1, 1]
    ensures firstClosed
  {
    var hub := new Hub();
    var a := hub.Connect();
    var b := hub.Connect();
    sizes := [|hub.clients|];
    hub.OnWatchTick(1000, 1500, {a});
    sizes := sizes + [|hub.clients|];
    hub.OnWatchTick(1500, 2000, {});
    sizes := sizes + [|hub.clients|];
    first := hub.outbox[a];
    second := hub.outbox[b];
    firstClosed := a in hub.closed;
  }
}
