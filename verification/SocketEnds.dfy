/** The two ends of the sockets as objects: the service with its set of clients, the client with the bytes it has
    not read yet. A write either sends everything or fails; a read returns what is there. */
module SocketEnds {
  import opened Framing
  import opened Options
  import opened ServiceProtocol

  datatype SendResult = SuccessfullyWroteAllBytes | WriteFailed

  class SMARTmonitorService {
    var clients: set<FileDesc>              // m_clientSocketFileDescSet
    var sent: map<FileDesc, seq<Byte>>      // what each socket was sent
    var pending: Option<FileDesc>           // accepted, but not added yet

    ghost function State(): Service
      reads this
    {
      Service(clients, sent, pending)
    }

    ghost predicate Valid()
      reads this
    {
      clients <= sent.Keys && (pending.Some? ==> pending.value in sent)
    }

    constructor ()
      ensures Valid() && State() == IDLE_SERVICE
    {
      clients, sent, pending := {}, map[], None;
    }

    /** ByteArrayFromString */
    method ByteArrayFromString(m: Message) returns (bytes: array<Byte>)
      requires Sendable(m)
      ensures fresh(bytes) && bytes[..] == Frame(m)
    {
      var overall := (|m| + 2) % TWO_TO_16;
      bytes := new Byte[overall](_ => 0);
      for i := 0 to overall - 2
        invariant forall k :: 0 <= k < i ==> bytes[2 + k] == m[k]
      {
        bytes[2 + i] := m[i];
      }
      var length := |m| % TWO_TO_16;
      bytes[0], bytes[1] := length / 256, length % 256;
      assert bytes[..] == [length / 256, length % 256] + m[..overall - 2];
    }

    /** SendBytesTo1Client; writable says whether the operating system takes the bytes. */
    method SendBytesTo1Client(fd: FileDesc, m: Message, writable: bool) returns (result: SendResult)
      requires fd in sent && Sendable(m)
      modifies `sent
      ensures result == SuccessfullyWroteAllBytes <==> writable
      ensures sent == if writable then old(sent)[fd := old(sent)[fd] + Frame(m)] else old(sent)
    {
      var bytes := ByteArrayFromString(m);
      if !writable {
        return WriteFailed;
      }
      sent := sent[fd := sent[fd] + bytes[..]];
      result := SuccessfullyWroteAllBytes;
    }

    /** SendSupportedSMART_IDsToClient: one message per drive, whether or not those before could be written. */
    method SendSupportedIDs(fd: FileDesc, ids: seq<Message>, written: set<nat>)
      requires fd in sent && forall m :: m in ids ==> Sendable(m)
      modifies `sent
      ensures sent == old(sent)[fd := old(sent)[fd] + Frames(AtPlaces(ids, written))]
    {
      ghost var before := sent;
      NoIDBytes(before[fd], ids, written);
      for i := 0 to |ids|
        invariant sent.Keys == before.Keys && forall k :: k in sent && k != fd ==> sent[k] == before[k]
        invariant sent[fd] == IDBytes(before[fd], ids, i, written)
      {
        hide Frame, Sendable, IDBytes;
        MoreIDBytes(before[fd], ids, i, written);
        var _ := SendBytesTo1Client(fd, ids[i], i in written);
      }
      assert ids[..|ids|] == ids;
    }

    /** A freshly accepted socket is sent the supported IDs. */
    method AcceptClient(fd: FileDesc, ids: seq<Message>, written: set<nat>)
      requires Valid() && (forall m :: m in ids ==> Sendable(m)) && Enabled(State(), Accept(fd, written))
      modifies this
      ensures Valid() && State() == Step(ids, old(State()), Accept(fd, written))
    {
      hide Frame, Frames, Sendable;
      sent := sent[fd := []];
      SendSupportedIDs(fd, ids, written);
      assert [] + Frames(AtPlaces(ids, written)) == Frames(AtPlaces(ids, written));
      pending := Some(fd);
    }

    /** AddClient */
    method AddClient(fd: FileDesc)
      requires Valid() && Enabled(State(), Add(fd))
      modifies this
      ensures Valid() && State() == Step([], old(State()), Add(fd))
    {
      clients := clients + {fd};
      pending := None;
    }

    /** RemoveFileDescsOfBrokenSocketConns */
    method RemoveBroken(fileDescsToDelete: seq<FileDesc>)
      modifies `clients
      ensures clients == old(clients) - set fd | fd in fileDescsToDelete
    {
      for i := 0 to |fileDescsToDelete|
        invariant clients == old(clients) - set fd | fd in fileDescsToDelete[..i]
      {
        clients := clients - {fileDescsToDelete[i]};
      }
      assert fileDescsToDelete[..|fileDescsToDelete|] == fileDescsToDelete;
    }

    /** SendBytesToAllClients; the whole call holds the critical section. */
    method SendBytesToAllClients(m: Message, broken: set<FileDesc>)
      requires Valid() && Sendable(m)
      modifies this
      ensures Valid() && State() == Step([], old(State()), Broadcast(m, broken))
    {
      var todo: set<FileDesc>, fileDescsToDelete: seq<FileDesc> := clients, [];
      while todo != {}
        invariant todo <= clients == old(clients) && pending == old(pending)
        invariant forall fd :: fd in fileDescsToDelete <==> fd in (clients - todo) * broken
        invariant sent.Keys == old(sent).Keys
        invariant forall fd :: fd in sent ==>
                    sent[fd] == old(sent)[fd] + if fd in clients - todo - broken then Frame(m) else []
        decreases todo
      {
        hide Frame, Sendable;
        var fd :| fd in todo;
        var result := SendBytesTo1Client(fd, m, fd !in broken);
        if result != SuccessfullyWroteAllBytes {
          fileDescsToDelete := fileDescsToDelete + [fd];
        }
        todo := todo - {fd};
      }
      RemoveBroken(fileDescsToDelete);
      assert clients == old(clients) - broken;
      assert sent == AfterBroadcast(old(State()), m, broken).sent;
    }
  }

  class SMARTmonitorClient {
    var socket: seq<Byte>              // sent by the service, not read yet

    constructor (socket: seq<Byte>)
      ensures this.socket == socket
    {
      this.socket := socket;
    }

    /** readFromSocket2: as many bytes as asked for, or all there are. */
    method ReadFromSocket(n: nat) returns (bytes: seq<Byte>)
      modifies this
      ensures bytes + socket == old(socket)
      ensures |bytes| == if n <= |old(socket)| then n else |old(socket)|
    {
      var k := if n <= |socket| then n else |socket|;
      bytes := socket[..k];
      socket := socket[k..];
    }

    /** ReadNumFollowingBytes: -1 if the two bytes are not there. */
    method ReadNumFollowingBytes() returns (n: int)
      modifies this
      ensures if |old(socket)| < 2 then n == -1 && socket == []
              else n == 256 * (old(socket)[0] as int) + old(socket)[1] as int && socket == old(socket)[2..]
    {
      var bytes := ReadFromSocket(2);
      assert bytes == old(socket)[..|bytes|] && socket == old(socket)[|bytes|..];
      if |bytes| < 2 {
        return -1;
      }
      n := Length(bytes[0], bytes[1]);
    }

    /** The reading part of GetSupportedSMARTidsFromSrv and of GetSMARTattrValsFromSrv: length, then message. */
    method ReadMessage() returns (m: Option<Message>)
      modifies this
      ensures match Receive(old(socket))
              case Received(msg, rest) => m == Some(msg) && socket == rest
              case Failed(rest) => m == None && socket == rest
      ensures m.Some? ==> |m.value| >= 1 && |m.value| == 256 * (old(socket)[0] as int) + old(socket)[1] as int
      ensures m.Some? ==> old(socket) == old(socket)[..2] + m.value + socket
      ensures m == None <==> || |old(socket)| < 2
                             || !(1 <= 256 * (old(socket)[0] as int) + old(socket)[1] as int <= |old(socket)| - 2)
    {
      var n := ReadNumFollowingBytes();
      if n < 1 {
        return None;
      }
      label afterLength:
      var bytes := ReadFromSocket(n);
      assert old@afterLength(socket) == bytes + socket;
      if |bytes| < n {
        assert socket == [];
        return None;
      }
      assert bytes == old(socket)[2..2 + n] && socket == old(socket)[2 + n..];
      m := Some(bytes);
    }

    /** GetSMARTvaluesAndUpdateUI and the update loop it starts: the supported IDs once, then values until a
        read fails. */
    method RunSession() returns (session: Session)
      modifies this
      ensures session == ReadSession(old(socket))
    {
      var ids := ReadMessage();
      if ids == None {
        return Session(None, []);
      }
      var values: seq<Message> := [];
      var again := true;
      while again
        invariant values + (if again then ReceiveAll(socket) else []) == ReceiveAll(Receive(old(socket)).rest)
        decreases again, |socket|
      {
        ghost var before := socket;
        var m := ReadMessage();
        if m == None {
          again := false;
        } else {
          assert ReceiveAll(before) == [m.value] + ReceiveAll(socket);
          values := values + [m.value];
        }
      }
      session := Session(ids, values);
    }
  }
}
