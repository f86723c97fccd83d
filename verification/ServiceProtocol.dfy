/** The service and its clients: one thread accepts connections, sends the supported IDs and then adds the
    client; another broadcasts values to the added clients and drops those it cannot write to. Main results,
    over every interleaving of these steps: what each client was sent, who is in the set of clients, and that a
    client reading "one ID message, then values" stays in step exactly when one ID message was sent. */
module ServiceProtocol {
  import opened Framing
  import opened Options

  /** accept yields no negative file descriptor. */
  type FileDesc = nat

  /** pending: the accepted client whose IDs were sent, before it is added. */
  datatype Service = Service(clients: set<FileDesc>, sent: map<FileDesc, seq<Byte>>, pending: Option<FileDesc>)

  const IDLE_SERVICE := Service({}, map[], None)

  /** The atomic steps. Accept sends one message per drive with supported IDs; written are the places of those
      that could be written. Broadcast holds the critical section, broken are the clients that cannot be written
      to. */
  datatype Event =
    | Accept(fd: FileDesc, written: set<nat>)
    | Add(added: FileDesc)
    | Broadcast(m: Message, broken: set<FileDesc>)

  predicate Enabled(st: Service, e: Event) {
    match e
    case Accept(fd, _) => st.pending == None && fd !in st.sent
    case Add(fd) => st.pending == Some(fd)
    case Broadcast(m, _) => Sendable(m)
  }

  /** The messages at these places. */
  function AtPlaces(ids: seq<Message>, places: set<nat>): (r: seq<Message>)
    ensures forall m :: m in r ==> m in ids
  {
    if ids == [] then []
    else
      AtPlaces(ids[..|ids| - 1], places) + if |ids| - 1 in places then [ids[|ids| - 1]] else []
  }

  /** It keeps all messages if all places are given, and the one at a single place. */
  lemma {:induction false} AtAllPlaces(ids: seq<Message>, places: set<nat>)
    ensures (forall i :: 0 <= i < |ids| ==> i in places) ==> AtPlaces(ids, places) == ids
    ensures (forall i :: 0 <= i < |ids| ==> i !in places) ==> AtPlaces(ids, places) == []
  {
    if ids != [] {
      AtAllPlaces(ids[..|ids| - 1], places);
      assert ids == ids[..|ids| - 1] + [ids[|ids| - 1]];
    }
  }

  /** Splitting the messages splits what is kept, so every message is kept by its own place, in order. */
  lemma {:induction false} AtPlacesConcat(a: seq<Message>, b: seq<Message>, places: set<nat>)
    ensures AtPlaces(a + b, places) == AtPlaces(a, places) + AtPlaces(b, set i | i in places && i >= |a| :: i - |a|)
  {
    var later := set i | i in places && i >= |a| :: i - |a|;
    if b == [] {
      assert a + b == a;
    } else {
      assert (a + b)[..|a + b| - 1] == a + b[..|b| - 1];
      AtPlacesConcat(a, b[..|b| - 1], places);
      assert |b| - 1 in later <==> |a| + |b| - 1 in places by {
        if |a| + |b| - 1 in places {
          assert (|a| + |b| - 1) - |a| == |b| - 1;
        }
      }
    }
  }

  function Step(ids: seq<Message>, st: Service, e: Event): Service
    requires (forall m :: m in ids ==> Sendable(m)) && Enabled(st, e)
  {
    match e
    case Accept(fd, written) => Service(st.clients, st.sent[fd := Frames(AtPlaces(ids, written))], Some(fd))
    case Add(fd) => Service(st.clients + {fd}, st.sent, None)
    case Broadcast(m, broken) => AfterBroadcast(st, m, broken)
  }

  function AfterBroadcast(st: Service, m: Message, broken: set<FileDesc>): Service
    requires Sendable(m)
  {
    Service(st.clients - broken,
            map fd | fd in st.sent :: if fd in st.clients - broken then st.sent[fd] + Frame(m) else st.sent[fd],
            st.pending)
  }

  /** The states a run of events goes through; None if some event is not possible where it stands. */
  function Run(ids: seq<Message>, es: seq<Event>): Option<Service>
    requires forall m :: m in ids ==> Sendable(m)
  {
    if es == [] then Some(IDLE_SERVICE)
    else
      match Run(ids, es[..|es| - 1])
      case None => None
      case Some(st) => if Enabled(st, es[|es| - 1]) then Some(Step(ids, st, es[|es| - 1])) else None
  }

  // ---- One client's view of a run ----

  predicate Accepted(es: seq<Event>, fd: FileDesc) {
    exists i :: 0 <= i < |es| && es[i].Accept? && es[i].fd == fd
  }

  /** The ID messages that were written to the client. */
  function IDsSentTo(ids: seq<Message>, es: seq<Event>, fd: FileDesc): (r: seq<Message>)
    ensures forall m :: m in r ==> m in ids
  {
    if es == [] then []
    else
      var before, e := es[..|es| - 1], es[|es| - 1];
      if e.Accept? && e.fd == fd then AtPlaces(ids, e.written) else IDsSentTo(ids, before, fd)
  }

  predicate Added(es: seq<Event>, fd: FileDesc) {
    Add(fd) in es
  }

  /** A broadcast after the client was added could not be written to it. */
  predicate Broke(es: seq<Event>, fd: FileDesc) {
    exists i :: 0 <= i < |es| && es[i].Broadcast? && fd in es[i].broken && Added(es[..i], fd)
  }

  /** The broadcasts after the client was added, up to the first that could not be written to it. */
  function Delivered(es: seq<Event>, fd: FileDesc): seq<Message> {
    if es == [] then []
    else
      var before, e := es[..|es| - 1], es[|es| - 1];
      Delivered(before, fd)
      + if e.Broadcast? && Added(before, fd) && !Broke(es, fd) then [e.m] else []
  }

  /** All broadcasts after the client was added. */
  function BroadcastsSince(es: seq<Event>, fd: FileDesc): seq<Message> {
    if es == [] then []
    else
      var before, e := es[..|es| - 1], es[|es| - 1];
      BroadcastsSince(before, fd) + if e.Broadcast? && Added(before, fd) then [e.m] else []
  }

  // ---- Every run ----

  ghost predicate ClientOk(ids: seq<Message>, es: seq<Event>, st: Service, fd: FileDesc)
    requires forall m :: m in ids ==> Sendable(m)
  {
    && (fd in st.sent <==> Accepted(es, fd))
    && (fd in st.clients <==> Added(es, fd) && !Broke(es, fd))
    && (st.pending == Some(fd) ==> !Added(es, fd) && Accepted(es, fd))
    && (Added(es, fd) ==> Accepted(es, fd))
    && (forall m :: m in Delivered(es, fd) ==> Sendable(m))
    && (Accepted(es, fd) ==>
          st.sent[fd] == Frames(IDsSentTo(ids, es, fd)) + Frames(Delivered(es, fd)))
  }

  /** How the scans change with one more event. */
  lemma OneMoreEvent(es: seq<Event>, e: Event, fd: FileDesc)
    ensures Accepted(es + [e], fd) <==> Accepted(es, fd) || (e.Accept? && e.fd == fd)
    ensures Added(es + [e], fd) <==> Added(es, fd) || e == Add(fd)
    ensures Broke(es + [e], fd) <==> Broke(es, fd) || (e.Broadcast? && fd in e.broken && Added(es, fd))
    ensures (es + [e])[..|es|] == es
  {
    var es' := es + [e];
    assert es'[..|es|] == es && es'[|es|] == e;
    assert forall i :: 0 <= i < |es| ==> es'[i] == es[i] && es'[..i] == es[..i];
  }

  lemma OneMoreForIDs(ids: seq<Message>, es: seq<Event>, e: Event, fd: FileDesc)
    ensures IDsSentTo(ids, es + [e], fd) ==
            if e.Accept? && e.fd == fd then AtPlaces(ids, e.written) else IDsSentTo(ids, es, fd)
  {
    assert (es + [e])[..|es|] == es;
  }

  lemma AcceptKeepsClient(ids: seq<Message>, es: seq<Event>, st: Service, e: Event, fd: FileDesc)
    requires (forall m :: m in ids ==> Sendable(m)) && ClientOk(ids, es, st, fd) && e.Accept? && Enabled(st, e)
    ensures ClientOk(ids, es + [e], Step(ids, st, e), fd)
  {
    hide Frame, Accepted, Added, Broke;
    OneMoreEvent(es, e, fd);
    assert Delivered(es + [e], fd) == Delivered(es, fd);
    OneMoreForIDs(ids, es, e, fd);
    if e.fd == fd {
      NothingDelivered(es, fd);
      assert Frames([]) == [];
    }
  }

  lemma AddKeepsClient(ids: seq<Message>, es: seq<Event>, st: Service, e: Event, fd: FileDesc)
    requires (forall m :: m in ids ==> Sendable(m)) && ClientOk(ids, es, st, fd) && e.Add? && Enabled(st, e)
    ensures ClientOk(ids, es + [e], Step(ids, st, e), fd)
  {
    hide Frame, Frames, Accepted, Added, Broke;
    OneMoreEvent(es, e, fd);
    assert Delivered(es + [e], fd) == Delivered(es, fd);
    OneMoreForIDs(ids, es, e, fd);
    BrokeWasAdded(es, fd);
  }

  lemma BroadcastAt(st: Service, m: Message, broken: set<FileDesc>, fd: FileDesc)
    requires Sendable(m)
    ensures
      var st' := AfterBroadcast(st, m, broken);
      && st'.pending == st.pending && (fd in st'.clients <==> fd in st.clients - broken)
      && (fd in st'.sent <==> fd in st.sent)
      && (fd in st.sent ==> st'.sent[fd] == st.sent[fd] + if fd in st.clients - broken then Frame(m) else [])
  {
    hide Frame, Sendable;
  }

  /** One more message, after any bytes. */
  lemma FramesAppend(bytes: seq<Byte>, ms: seq<Message>, m: Message)
    requires (forall x :: x in ms ==> Sendable(x)) && Sendable(m)
    ensures forall x :: x in ms + [m] ==> Sendable(x)
    ensures bytes + Frames(ms + [m]) == bytes + Frames(ms) + Frame(m)
  {
    hide Frame, Sendable;
    assert (ms + [m])[..|ms|] == ms;
    assert bytes + (Frames(ms) + Frame(m)) == bytes + Frames(ms) + Frame(m);
  }

  /** What a socket was sent after the first n ID messages. */
  function IDBytes(bytes: seq<Byte>, ids: seq<Message>, n: nat, places: set<nat>): seq<Byte>
    requires n <= |ids| && forall m :: m in ids ==> Sendable(m)
  {
    bytes + Frames(AtPlaces(ids[..n], places))
  }

  lemma NoIDBytes(bytes: seq<Byte>, ids: seq<Message>, places: set<nat>)
    requires forall m :: m in ids ==> Sendable(m)
    ensures IDBytes(bytes, ids, 0, places) == bytes
  {
    assert bytes + [] == bytes;
  }

  lemma MoreIDBytes(bytes: seq<Byte>, ids: seq<Message>, n: nat, places: set<nat>)
    requires n < |ids| && forall m :: m in ids ==> Sendable(m)
    ensures IDBytes(bytes, ids, n + 1, places) ==
            IDBytes(bytes, ids, n, places) + if n in places then Frame(ids[n]) else []
  {
    hide Frame, Frames, Sendable;
    assert ids[..n + 1][..n] == ids[..n];
    var sent := AtPlaces(ids[..n], places);
    if n in places {
      FramesAppend(bytes, sent, ids[n]);
    } else {
      assert sent + [] == sent && bytes + Frames(sent) + [] == bytes + Frames(sent);
    }
  }

  lemma BroadcastKeepsClient(ids: seq<Message>, es: seq<Event>, st: Service, e: Event, fd: FileDesc)
    requires (forall m :: m in ids ==> Sendable(m)) && ClientOk(ids, es, st, fd) && e.Broadcast? && Enabled(st, e)
    ensures ClientOk(ids, es + [e], Step(ids, st, e), fd)
  {
    hide Frame, Frames, Accepted, Added, Broke, Sendable, AfterBroadcast;
    OneMoreEvent(es, e, fd);
    OneMoreForIDs(ids, es, e, fd);
    BroadcastAt(st, e.m, e.broken, fd);
    var d := Delivered(es, fd);
    if fd in st.clients - e.broken {
      assert Delivered(es + [e], fd) == d + [e.m];
      FramesAppend(Frames(IDsSentTo(ids, es, fd)), d, e.m);
    } else {
      assert Delivered(es + [e], fd) == d;
    }
  }

  lemma {:induction false} NothingDelivered(es: seq<Event>, fd: FileDesc)
    requires !Added(es, fd)
    ensures Delivered(es, fd) == []
  {
    if es != [] {
      NothingDelivered(es[..|es| - 1], fd);
    }
  }

  lemma BrokeWasAdded(es: seq<Event>, fd: FileDesc)
    ensures Broke(es, fd) ==> Added(es, fd)
  {
  }

  /** Over every run, for every client: it is in the set exactly when it was added and every broadcast since
      could be written; and the bytes it was sent are the frames of the ID messages that could be written,
      followed by those of exactly the broadcasts since it was added, in order, up to the first that failed. */
  lemma {:induction false} EveryRun(ids: seq<Message>, es: seq<Event>, fd: FileDesc)
    requires (forall m :: m in ids ==> Sendable(m)) && Run(ids, es).Some?
    ensures ClientOk(ids, es, Run(ids, es).value, fd)
  {
    if es != [] {
      var before, e := es[..|es| - 1], es[|es| - 1];
      EveryRun(ids, before, fd);
      assert es == before + [e];
      match e
      case Accept(_, _) => AcceptKeepsClient(ids, before, Run(ids, before).value, e, fd);
      case Add(_) => AddKeepsClient(ids, before, Run(ids, before).value, e, fd);
      case Broadcast(_, _) => BroadcastKeepsClient(ids, before, Run(ids, before).value, e, fd);
    }
  }

  /** Which steps are possible after any run: a file descriptor that was not accepted before is accepted once
      every accepted client was added; an accepted client is added once; a message is broadcast, at any time, if
      it can be framed. */
  lemma StepsPossible(ids: seq<Message>, es: seq<Event>, e: Event)
    requires (forall m :: m in ids ==> Sendable(m)) && Run(ids, es).Some?
    ensures Run(ids, es + [e]).Some? <==>
            match e
            case Accept(fd, _) =>
              !Accepted(es, fd) && forall other: FileDesc :: Accepted(es, other) ==> Added(es, other)
            case Add(fd) => Accepted(es, fd) && !Added(es, fd)
            case Broadcast(m, _) => |m| % 65536 < 65534
  {
    hide Accepted, Added, Broke;
    var st := Run(ids, es).value;
    assert (es + [e])[..|es|] == es;
    PendingIsNotAdded(ids, es);
    match e
    case Accept(fd, _) =>
      EveryRun(ids, es, fd);
    case Add(fd) =>
      EveryRun(ids, es, fd);
    case Broadcast(m, _) =>
      FrameBytes(m);
  }

  /** The one client that was accepted and not added yet is the pending one. */
  lemma {:induction false} PendingIsNotAdded(ids: seq<Message>, es: seq<Event>)
    requires (forall m :: m in ids ==> Sendable(m)) && Run(ids, es).Some?
    ensures forall fd: FileDesc :: Accepted(es, fd) && !Added(es, fd) <==> Run(ids, es).value.pending == Some(fd)
  {
    if es != [] {
      hide Accepted, Added, Sendable;
      var before, e := es[..|es| - 1], es[|es| - 1];
      PendingIsNotAdded(ids, before);
      assert es == before + [e];
      forall fd: FileDesc ensures Accepted(es, fd) && !Added(es, fd) <==> Run(ids, es).value.pending == Some(fd) {
        OneMoreEvent(before, e, fd);
        EveryRun(ids, before, fd);
      }
    } else {
      NobodyYet();
    }
  }

  lemma NobodyYet()
    ensures forall fd: FileDesc :: !Accepted([], fd)
  {
  }

  /** A client that failed got the broadcasts since it was added up to the first it could not be written. */
  lemma {:induction false} BrokenGetsPrefix(es: seq<Event>, fd: FileDesc, i: nat)
    requires i < |es| && !Broke(es[..i], fd) && Broke(es[..i + 1], fd)
    ensures Delivered(es, fd) == BroadcastsSince(es[..i], fd)
    decreases |es|
  {
    hide Added;
    var before, e := es[..|es| - 1], es[|es| - 1];
    assert es == before + [e];
    if i < |es| - 1 {
      assert before[..i] == es[..i] && before[..i + 1] == es[..i + 1];
      BrokenGetsPrefix(before, fd, i);
      BrokeStays(es, fd, i + 1);
    } else {
      assert es[..i + 1] == es && es[..i] == before;
      NeverBrokeGetsAll(before, fd);
    }
  }

  lemma BrokeStays(es: seq<Event>, fd: FileDesc, n: nat)
    requires n <= |es| && Broke(es[..n], fd)
    ensures Broke(es, fd)
  {
    hide Added;
    var i :| 0 <= i < n && es[..n][i].Broadcast? && fd in es[..n][i].broken && Added(es[..n][..i], fd);
    assert es[..n][..i] == es[..i];
  }

  lemma {:induction false} NeverBrokeGetsAll(es: seq<Event>, fd: FileDesc)
    requires !Broke(es, fd)
    ensures Delivered(es, fd) == BroadcastsSince(es, fd)
  {
    if es != [] {
      var before, e := es[..|es| - 1], es[|es| - 1];
      OneMoreEvent(before, e, fd);
      assert es == before + [e];
      NeverBrokeGetsAll(before, fd);
    }
  }

  // ---- The client ----

  /** GetSMARTvaluesAndUpdateUI: the first message is taken for the supported IDs, all others for values. */
  datatype Session = Session(ids: Option<Message>, values: seq<Message>)

  function ReadSession(s: seq<Byte>): Session {
    match Receive(s)
    case Failed(_) => Session(None, [])
    case Received(m, rest) => Session(Some(m), ReceiveAll(rest))
  }

  /** A session in which these messages are received. */
  function SessionOf(received: seq<Message>): Session {
    if received == [] then Session(None, []) else Session(Some(received[0]), received[1..])
  }

  lemma SessionReads(s: seq<Byte>)
    ensures ReadSession(s) == SessionOf(ReceiveAll(s))
  {
  }

  /** The values of a session after ID messages of which something arrives. */
  lemma ValuesInStep(ids: seq<Message>, values: seq<Message>)
    requires forall m :: m in ids ==> Arrives(m)
    requires forall m :: m in values ==> Sendable(m)
    ensures
      SessionOf(Arriving(ids + values)).values == values <==>
      (|ids| == 1 || ids == values == []) && forall m :: m in values ==> Transmittable(m)
  {
    hide Sendable, Transmittable, Arriving;
    var all, r := Arriving(ids + values), Arriving(values);
    ArrivingConcat(ids, values);
    ArrivingExactly(values);
    assert |r| < |values| ==> !Arrives(values[|r|]);
    if |ids| == 0 {
      assert |all| <= |values|;
    } else if |ids| == 1 {
      assert all[1..] == r;
    } else if |all| - 1 == |values| {
      // The first value of which nothing arrives stands where a received message would have to stand.
      assert Arrives(all[1..][|r|]) && !Arrives(values[|r|]);
    }
  }

  lemma NothingFollows(bytes: seq<Byte>)
    ensures bytes + [] == bytes && ReceiveAll([]) == []
  {
  }

  /** What a client that never failed reads in its session, after whatever ID messages could be written to it:
      the first message that arrives for the IDs, all others for values. If something arrives of each of these ID
      messages, its values are exactly the broadcasts since it was added exactly when one ID message was written
      (or none, and there was no broadcast) and every broadcast has 1 to 65533 bytes. */
  lemma InStepExactly(ids: seq<Message>, es: seq<Event>, fd: FileDesc)
    requires forall m :: m in ids ==> Sendable(m)
    requires Run(ids, es).Some? && Accepted(es, fd) && !Broke(es, fd)
    ensures fd in Run(ids, es).value.sent
    ensures
      var session := ReadSession(Run(ids, es).value.sent[fd]);
      var idsSent, values := IDsSentTo(ids, es, fd), BroadcastsSince(es, fd);
      && session == SessionOf(Arriving(idsSent + values))
      && ((forall m :: m in idsSent ==> Arrives(m)) ==>
            (session.values == values <==>
              (|idsSent| == 1 || idsSent == values == []) && forall m :: m in values ==> Transmittable(m)))
      && (idsSent != [] && Transmittable(idsSent[0]) ==> session.ids == Some(idsSent[0]))
  {
    hide Sendable, Transmittable, Arrives, Frames, Frame, ReceiveAll, ReadSession;
    var idsSent, values := IDsSentTo(ids, es, fd), BroadcastsSince(es, fd);
    EveryRun(ids, es, fd);
    NeverBrokeGetsAll(es, fd);
    var all := idsSent + values;
    FramesOfConcat(idsSent, values);
    FramesArrive(all, []);
    NothingFollows(Frames(all));
    SessionReads(Frames(all));
    if forall m :: m in idsSent ==> Arrives(m) {
      ValuesInStep(idsSent, values);
    }
    if idsSent != [] && Transmittable(idsSent[0]) {
      FirstArrives(all);
    }
  }

  lemma FirstArrives(ms: seq<Message>)
    requires ms != [] && Transmittable(ms[0])
    ensures Arriving(ms) != [] && Arriving(ms)[0] == ms[0]
  {
    assert ms[0][..|ms[0]|] == ms[0];
  }
}
