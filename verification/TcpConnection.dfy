/** One TCP connection: reading, writing, and the callbacks a client connection keeps
    (net/tcp/tcp_connection.cc). Callbacks are numbered; a run of one is recorded with its argument. */
module TcpConnections {
  import opened Bytes
  import opened TcpBuffers
  import opened TinyPB
  import opened TinyPBLemmas
  import opened TinyPBCoder

  type Callback = nat
  type Id = seq<Byte>

  datatype TcpState = NotConnected | Connected | HalfClosing | Closed

  // ---------------------------------------------------------------------------------------------
  // Receive callbacks

  datatype Ran = Ran(callback: Callback, message: Message)

  datatype Replies = Replies(ran: seq<Ran>, left: map<Id, Callback>)

  /** The client branch of OnExcute: each decoded message runs the callback kept for its id, which is
      then erased; a message nobody waits for is dropped. */
  function RunCallbacks(cbs: map<Id, Callback>, msgs: seq<Message>): Replies
    decreases |msgs|
  {
    if msgs == [] then Replies([], cbs)
    else if msgs[0].id in cbs then
      var r := RunCallbacks(cbs - {msgs[0].id}, msgs[1..]);
      Replies([Ran(cbs[msgs[0].id], msgs[0])] + r.ran, r.left)
    else RunCallbacks(cbs, msgs[1..])
  }

  /** Messages decoded in several calls run the same callbacks as in one. */
  lemma {:induction false} RunCallbacksTwice(cbs: map<Id, Callback>, a: seq<Message>, b: seq<Message>)
    ensures var first := RunCallbacks(cbs, a); var second := RunCallbacks(first.left, b);
      RunCallbacks(cbs, a + b) == Replies(first.ran + second.ran, second.left)
    decreases |a|
  {
    if a == [] {
      assert a + b == b;
    } else {
      var cbs' := if a[0].id in cbs then cbs - {a[0].id} else cbs;
      assert (a + b)[1..] == a[1..] + b;
      RunCallbacksTwice(cbs', a[1..], b);
    }
  }

  lemma RunCallbacksSnoc(cbs: map<Id, Callback>, msgs: seq<Message>, i: nat)
    requires i < |msgs|
    ensures var r := RunCallbacks(cbs, msgs[..i]); var m := msgs[i];
      RunCallbacks(cbs, msgs[..i + 1]) ==
      if m.id in r.left then Replies(r.ran + [Ran(r.left[m.id], m)], r.left - {m.id}) else r
  {
    RunCallbacksTwice(cbs, msgs[..i], [msgs[i]]);
    assert msgs[..i + 1] == msgs[..i] + [msgs[i]] && [msgs[i]][1..] == [];
    var r := RunCallbacks(cbs, msgs[..i]);
    assert r.ran + [] == r.ran;
  }

  // ---------------------------------------------------------------------------------------------
  // Writing to the socket

  /** What write(2) may answer: it took n bytes, the socket is full (EAGAIN), or another error. */
  datatype WriteResult = Took(n: nat) | TryAgain | Failed

  /** What goes onto the socket and what stays in the buffer. */
  datatype Emission = Emission(wire: seq<Byte>, left: seq<Byte>)

  /** OnWrite's loop over `data`, when write(2) answers `results` in turn and then EAGAIN. After a short
      write, and after an error other than EAGAIN, the loop starts again at the same read index. */
  function Emit(data: seq<Byte>, results: seq<WriteResult>): Emission
    decreases |results|
  {
    if data == [] then Emission([], [])
    else if results == [] || results[0].TryAgain? then Emission([], data)
    else if results[0].Failed? then Emit(data, results[1..])
    else if results[0].n >= |data| then Emission(data, [])
    else
      var e := Emit(data, results[1..]);
      Emission(data[..results[0].n] + e.wire, e.left)
  }

  /** How many bytes short writes take. */
  function ShortBytes(data: seq<Byte>, results: seq<WriteResult>): nat
    decreases |results|
  {
    if data == [] || results == [] || results[0].TryAgain? then 0
    else if results[0].Failed? then ShortBytes(data, results[1..])
    else if results[0].n >= |data| then 0
    else results[0].n + ShortBytes(data, results[1..])
  }

  lemma {:induction false} EmitIsFaithful(data: seq<Byte>, results: seq<WriteResult>)
    ensures var e := Emit(data, results);
      && |e.wire| + |e.left| == |data| + ShortBytes(data, results)
      && (e.wire + e.left == data <==> ShortBytes(data, results) == 0)
    decreases |results|
  {
    if data != [] && results != [] && !results[0].TryAgain? {
      EmitIsFaithful(data, results[1..]);
      if results[0].Took? && results[0].n < |data| {
        var e := Emit(data, results[1..]);
        assert results[0].n == 0 ==> data[..0] + e.wire == e.wire;
      }
    }
  }

  /** No bytes are taken by short writes if every write takes nothing or everything; and a short write
      that comes first counts. */
  lemma {:induction false} ShortBytesAre(data: seq<Byte>, results: seq<WriteResult>)
    ensures (forall r :: r in results && r.Took? ==> r.n == 0 || |data| <= r.n) ==> ShortBytes(data, results) == 0
    ensures results != [] && results[0].Took? && 0 < results[0].n < |data| ==> ShortBytes(data, results) > 0
    decreases |results|
  {
    if results != [] {
      ShortBytesAre(data, results[1..]);
      assert results[0] in results;
    }
  }

  /** One call of OnWrite: the bytes added to the buffer since the last one, and the answers it gets. */
  datatype Call = Call(added: seq<Byte>, results: seq<WriteResult>)

  function EmitAll(data: seq<Byte>, calls: seq<Call>): Emission
    decreases |calls|
  {
    if calls == [] then Emission([], data)
    else
      var e := Emit(data + calls[0].added, calls[0].results);
      var f := EmitAll(e.left, calls[1..]);
      Emission(e.wire + f.wire, f.left)
  }

  function ShortInAll(data: seq<Byte>, calls: seq<Call>): nat
    decreases |calls|
  {
    if calls == [] then 0
    else
      var d := data + calls[0].added;
      ShortBytes(d, calls[0].results) + ShortInAll(Emit(d, calls[0].results).left, calls[1..])
  }

  function Added(calls: seq<Call>): seq<Byte> {
    if calls == [] then [] else calls[0].added + Added(calls[1..])
  }

  /** Over any calls of OnWrite: what went onto the socket, followed by what is still buffered, is what
      was ever put into the buffer if and only if no write of any of the calls was short; otherwise the
      socket has got more, by just the bytes that short writes took. */
  lemma {:induction false} WritesAreFaithful(data: seq<Byte>, calls: seq<Call>)
    ensures var e := EmitAll(data, calls);
      && |e.wire| + |e.left| == |data + Added(calls)| + ShortInAll(data, calls)
      && (e.wire + e.left == data + Added(calls) <==> ShortInAll(data, calls) == 0)
    decreases |calls|
  {
    hide Emit, ShortBytes;
    if calls == [] {
      assert data + [] == data && [] + data == data;
    } else {
      var d := data + calls[0].added;
      var e := Emit(d, calls[0].results);
      var f := EmitAll(e.left, calls[1..]);
      EmitIsFaithful(d, calls[0].results);
      WritesAreFaithful(e.left, calls[1..]);
      assert d + Added(calls[1..]) == data + Added(calls);
      if ShortInAll(data, calls) == 0 {
        assert e.wire + f.wire + f.left == e.wire + (f.wire + f.left);
        assert e.wire + (e.left + Added(calls[1..])) == d + Added(calls[1..]);
      }
    }
  }

  // ---------------------------------------------------------------------------------------------

  class TcpConnection {
    var myState: TcpState
    const isClient: bool
    const mySendBuffer: TCPBuffer
    const myRecvBuffer: TCPBuffer
    var mySendCbCollection: seq<(TinyProtocol, Callback)>
    var myRecvCbCollection: map<Id, Callback>

    ghost predicate Valid()
      reads this, mySendBuffer, myRecvBuffer
    {
      && mySendBuffer != myRecvBuffer && mySendBuffer.myBuffer != myRecvBuffer.myBuffer
      && mySendBuffer.Valid() && myRecvBuffer.Valid() && 0 < myRecvBuffer.mySize
    }

    constructor (isClient: bool, bufferSize: nat)
      requires 0 < bufferSize
      ensures Valid() && myState == NotConnected && mySendCbCollection == [] && myRecvCbCollection == map[]
      ensures fresh(mySendBuffer) && fresh(myRecvBuffer) && this.isClient == isClient
      ensures mySendBuffer.State() == NewWindow(bufferSize) && myRecvBuffer.State() == NewWindow(bufferSize)
    {
      this.isClient := isClient;
      myState := NotConnected;
      mySendCbCollection := [];
      myRecvCbCollection := map[];
      mySendBuffer := new TCPBuffer(bufferSize);
      myRecvBuffer := new TCPBuffer(bufferSize);
    }

    /** The check at the head of each round: a full buffer is doubled. */
    method EnsureRoom()
      requires Valid()
      modifies myRecvBuffer
      ensures Valid() && (myRecvBuffer.myBuffer == old(myRecvBuffer.myBuffer) || fresh(myRecvBuffer.myBuffer))
      ensures myRecvBuffer.State() == MadeRoom(old(myRecvBuffer.State())) && 0 < myRecvBuffer.WriteRemain()
    {
      ghost var t := myRecvBuffer.State();
      ResizedContents(t, 2 * |t.bytes|);
      if myRecvBuffer.WriteRemain() == 0 {
        var _ := myRecvBuffer.ResizeBuffer(2 * myRecvBuffer.myBuffer.Length);
      }
    }

    /** The read loop of OnRead on a socket that holds `kernel`; the peer may have closed behind it. A
        closed end is only noticed by a read that finds nothing. */
    method ReadSocket(kernel: seq<Byte>, peerClosed: bool) returns (isClosed: bool)
      requires Valid()
      modifies myRecvBuffer, myRecvBuffer.myBuffer
      ensures Valid() && (myRecvBuffer.myBuffer == old(myRecvBuffer.myBuffer) || fresh(myRecvBuffer.myBuffer))
      ensures myRecvBuffer.State() == ReadAll(old(myRecvBuffer.State()), kernel)
      ensures 0 < Room(old(myRecvBuffer.State()))
      ensures isClosed <==> peerClosed && Remainder(kernel, Room(old(myRecvBuffer.State()))) == []
    {
      hide ReadAll, Resized, Stored, WriteMoved, Remainder, MadeRoom;
      var pending := kernel;
      ghost var s := myRecvBuffer.State();
      ReadAllContents(s, []);
      while true
        invariant Valid() && (myRecvBuffer.myBuffer == old(myRecvBuffer.myBuffer) || fresh(myRecvBuffer.myBuffer))
        invariant ReadAll(s, kernel) == ReadAll(myRecvBuffer.State(), pending)
        invariant Room(myRecvBuffer.State()) == Room(s)
        invariant Remainder(kernel, Room(s)) == Remainder(pending, Room(s))
        decreases |pending|
      {
        ghost var t := myRecvBuffer.State();
        EnsureRoom();
        var readMax := myRecvBuffer.WriteRemain();
        if pending == [] {
          EmptySocket(t);
          isClosed := peerClosed;
          return;
        }
        var ret := Min(readMax, |pending|);
        ReadAllStep(t, pending);
        myRecvBuffer.StoreAtWriteIndex(pending[..ret]);
        var _ := myRecvBuffer.MoveWriteIndex(ret);
        assert myRecvBuffer.State() == Received(t, pending[..ret]);
        if ret < readMax {
          isClosed := false;
          return;
        }
        pending := pending[ret..];
      }
    }

    /** OnRead up to the call of OnExcute, of a client or a server: what the socket holds is read, and
        the connection cleared if the peer has closed it. */
    method ReadOrClose(kernel: seq<Byte>, peerClosed: bool) returns (goOn: bool)
      requires Valid()
      modifies this`myState, myRecvBuffer, myRecvBuffer.myBuffer
      ensures Valid() && (myRecvBuffer.myBuffer == old(myRecvBuffer.myBuffer) || fresh(myRecvBuffer.myBuffer))
      ensures old(myState) != Connected ==> !goOn && unchanged(this) && unchanged(myRecvBuffer)
      ensures old(myState) == Connected ==>
        var s := ReadAll(old(myRecvBuffer.State()), kernel);
        && myRecvBuffer.State() == s && myState == (if goOn then Connected else Closed)
        && (goOn <==> !(peerClosed && s.Contents() == old(myRecvBuffer.Contents())))
    {
      if myState != Connected {
        return false;
      }
      ghost var s := myRecvBuffer.State();
      ReadAllContents(s, kernel);
      var isClosed := ReadSocket(kernel, peerClosed);
      assert |s.Contents() + Remainder(kernel, Room(s))| == |s.Contents()| + |Remainder(kernel, Room(s))|;
      assert s.Contents() + [] == s.Contents();
      if isClosed {
        ClearConnection();
      }
      goOn := !isClosed;
    }

    /** OnRead of a client: what the socket holds is read, and, unless the peer has closed, decoded. */
    method OnRead(kernel: seq<Byte>, peerClosed: bool) returns (ran: seq<Ran>)
      requires Valid() && isClient
      requires myState == Connected ==>
        var s := ReadAll(myRecvBuffer.State(), kernel);
        (peerClosed && s.Contents() == myRecvBuffer.Contents()) || DecodeWindow(s).Done?
      modifies this, myRecvBuffer, myRecvBuffer.myBuffer
      ensures Valid() && (myRecvBuffer.myBuffer == old(myRecvBuffer.myBuffer) || fresh(myRecvBuffer.myBuffer))
      ensures old(myState) != Connected ==> ran == [] && unchanged(this) && unchanged(myRecvBuffer)
      ensures old(myState) == Connected ==>
        var s := ReadAll(old(myRecvBuffer.State()), kernel);
        if peerClosed && s.Contents() == old(myRecvBuffer.Contents())
        then ran == [] && myState == Closed && myRecvCbCollection == old(myRecvCbCollection)
        else myState == Connected &&
             Replies(ran, myRecvCbCollection) == RunCallbacks(old(myRecvCbCollection), DecodeWindow(s).msgs) &&
             myRecvBuffer.State() == DecodeWindow(s).window
    {
      ran := [];
      var goOn := ReadOrClose(kernel, peerClosed);
      if goOn {
        ran := OnExcute();
      }
    }

    method ClearConnection()
      modifies this`myState
      ensures myState == Closed
    {
      if myState == Closed {
        return;
      }
      myState := Closed;
    }

    /** The client branch: decode, then look every message up among the waiting callbacks. */
    method OnExcute() returns (ran: seq<Ran>)
      requires Valid() && isClient && DecodeWindow(myRecvBuffer.State()).Done?
      modifies this`myRecvCbCollection, myRecvBuffer
      ensures myRecvBuffer.myBuffer == old(myRecvBuffer.myBuffer) || fresh(myRecvBuffer.myBuffer)
      ensures Valid() && myRecvBuffer.State() == DecodeWindow(old(myRecvBuffer.State())).window
      ensures Replies(ran, myRecvCbCollection) ==
              RunCallbacks(old(myRecvCbCollection), DecodeWindow(old(myRecvBuffer.State())).msgs)
    {
      hide DecodeWindow;
      assert RunCallbacks(myRecvCbCollection, []) == Replies([], myRecvCbCollection);
      hide RunCallbacks;
      ghost var msgs := DecodeWindow(myRecvBuffer.State()).msgs;
      ghost var cbs := myRecvCbCollection;
      var results, pushed := Decode([], myRecvBuffer);
      assert results == pushed;
      ran := [];
      assert msgs[..0] == [];
      for i := 0 to |results|
        invariant Valid() && myRecvBuffer.State() == DecodeWindow(old(myRecvBuffer.State())).window
        invariant myRecvBuffer.myBuffer == old(myRecvBuffer.myBuffer) || fresh(myRecvBuffer.myBuffer)
        invariant AllDecoded(results, msgs)
        invariant RunCallbacks(cbs, msgs[..i]) == Replies(ran, myRecvCbCollection)
      {
        assert Decoded(results[i], msgs[i]);
        var messageID := results[i].myMessageID;
        RunCallbacksSnoc(cbs, msgs, i);
        if messageID in myRecvCbCollection {
          ran := ran + [Ran(myRecvCbCollection[messageID], results[i].View())];
          myRecvCbCollection := myRecvCbCollection - {messageID};
        }
      }
      assert msgs[..|results|] == msgs;
    }

    method PushSendMessage(sendMessage: TinyProtocol, sendCallBack: Callback)
      modifies this`mySendCbCollection
      ensures mySendCbCollection == old(mySendCbCollection) + [(sendMessage, sendCallBack)]
    {
      mySendCbCollection := mySendCbCollection + [(sendMessage, sendCallBack)];
    }

    /** A second callback for an id that is already waited for is ignored. */
    method PushRecvMessage(recvMessageID: Id, recvCallBack: Callback)
      modifies this`myRecvCbCollection
      ensures myRecvCbCollection == Waiting(old(myRecvCbCollection), recvMessageID, recvCallBack)
    {
      if recvMessageID !in myRecvCbCollection {
        myRecvCbCollection := myRecvCbCollection[recvMessageID := recvCallBack];
      }
    }

    method ReplyRPCResponse(replyMessage: seq<TinyProtocol>)
      requires Valid() && forall m :: m in replyMessage ==> PackageLen(WithId(m.View())) < INT32_LIMIT
      modifies replyMessage, mySendBuffer, mySendBuffer.myBuffer
      ensures Valid() && mySendBuffer.Contents() == old(mySendBuffer.Contents()) + Frames(old(Views(replyMessage)))
      ensures forall m :: m in replyMessage ==> m.View() == WithId(old(m.View()))
    {
      Encode(replyMessage, mySendBuffer);
    }

    /** The first n readable bytes of the send buffer, where write(2) finds them. */
    method Readable(n: nat) returns (bytes: seq<Byte>)
      requires Valid() && n <= mySendBuffer.ReadRemain()
      ensures bytes == mySendBuffer.Contents()[..n]
    {
      ContentsHead(mySendBuffer.State(), n);
      var readIndex := mySendBuffer.myReadIndex;
      bytes := mySendBuffer.myBuffer[readIndex..readIndex + n];
    }

    /** The write loop of OnWrite: `results` are the answers of write(2). */
    method WriteSocket(results: seq<WriteResult>) returns (isWriteAll: bool, wire: seq<Byte>)
      requires Valid()
      modifies mySendBuffer
      ensures Valid() && (mySendBuffer.myBuffer == old(mySendBuffer.myBuffer) || fresh(mySendBuffer.myBuffer))
      ensures Emission(wire, mySendBuffer.Contents()) == Emit(old(mySendBuffer.Contents()), results)
      ensures isWriteAll <==> mySendBuffer.Contents() == []
    {
      hide Emit, ReadMoved;
      wire := [];
      ghost var data := mySendBuffer.Contents();
      var rest := results;
      assert [] + Emit(data, rest).wire == Emit(data, rest).wire;
      while true
        invariant Valid() && mySendBuffer.State() == old(mySendBuffer.State())
        invariant mySendBuffer.myBuffer == old(mySendBuffer.myBuffer)
        invariant Emit(data, results) == Emission(wire + Emit(data, rest).wire, Emit(data, rest).left)
        decreases |rest|
      {
        ContentsHead(mySendBuffer.State(), 0);
        EmitStep(data, rest, wire);
        var writeMax := mySendBuffer.ReadRemain();
        if writeMax == 0 {
          return true, wire;
        }
        if rest == [] || rest[0].TryAgain? {
          return false, wire;
        }
        if rest[0].Took? {
          // write(2) takes no more than it is offered
          var ret := Min(rest[0].n, writeMax);
          var taken := Readable(ret);
          wire := wire + taken;
          if ret >= writeMax {
            var _ := mySendBuffer.MoveReadIndex(ret);
            return true, wire;
          }
        }
        rest := rest[1..];
      }
    }

    /** The bytes the next OnWrite will offer: those buffered, and, on a client, the frames of the waiting
        messages. */
    ghost function ToSend(): seq<Byte>
      reads this, mySendBuffer, mySendBuffer.myBuffer, Messages(mySendCbCollection)
      requires mySendBuffer.Valid()
    {
      mySendBuffer.Contents() + if isClient then Frames(Views(Messages(mySendCbCollection))) else []
    }

    /** A client encodes every waiting message, writes as much as possible, and runs all send callbacks,
        whether or not the socket took the bytes; a server writes what is buffered. */
    method OnWrite(results: seq<WriteResult>) returns (wire: seq<Byte>, ran: seq<Callback>)
      requires Valid()
      requires isClient ==> forall p :: p in mySendCbCollection ==> PackageLen(WithId(p.0.View())) < INT32_LIMIT
      modifies this`mySendCbCollection, mySendBuffer, mySendBuffer.myBuffer, Messages(mySendCbCollection)
      ensures Valid() && (mySendBuffer.myBuffer == old(mySendBuffer.myBuffer) || fresh(mySendBuffer.myBuffer))
      ensures old(myState) != Connected ==> wire == [] && ran == [] && unchanged(this) && unchanged(mySendBuffer)
      ensures old(myState) == Connected ==>
        && Emission(wire, mySendBuffer.Contents()) == Emit(old(ToSend()), results)
        && (isClient ==>
              var stream := old(mySendBuffer.Contents()) + Frames(old(Views(Messages(mySendCbCollection))));
              && |wire| + |mySendBuffer.Contents()| == |stream| + ShortBytes(stream, results)
              && (wire + mySendBuffer.Contents() == stream <==> ShortBytes(stream, results) == 0))
        && (!isClient ==>
              var stream := old(mySendBuffer.Contents());
              && |wire| + |mySendBuffer.Contents()| == |stream| + ShortBytes(stream, results)
              && (wire + mySendBuffer.Contents() == stream <==> ShortBytes(stream, results) == 0))
        && ran == (if isClient then Callbacks(old(mySendCbCollection)) else [])
        && mySendCbCollection == if isClient then [] else old(mySendCbCollection)
    {
      hide Emit, Frames, ShortBytes;
      wire, ran := [], [];
      if myState != Connected {
        return;
      }
      if isClient {
        var sendMessages := Messages(mySendCbCollection);
        Encode(sendMessages, mySendBuffer);
      } else {
        assert mySendBuffer.Contents() + [] == mySendBuffer.Contents();
      }
      var isWriteAll;
      ghost var data := mySendBuffer.Contents();
      EmitIsFaithful(data, results);
      isWriteAll, wire := WriteSocket(results);
      if isClient {
        ran := Callbacks(mySendCbCollection);
        mySendCbCollection := [];
      }
    }
  }

  /** Bytes added and OnWrite called, again and again, as the replies of a server are. */
  method WriteRepeatedly(connection: TcpConnection, calls: seq<Call>) returns (wire: seq<Byte>)
    requires connection.Valid() && connection.myState == Connected && connection.mySendCbCollection == []
    modifies connection`mySendCbCollection, connection.mySendBuffer, connection.mySendBuffer.myBuffer
    ensures connection.Valid()
    ensures Emission(wire, connection.mySendBuffer.Contents()) ==
            EmitAll(old(connection.mySendBuffer.Contents()), calls)
    decreases |calls|
  {
    hide Emit, Written;
    if calls == [] {
      return [];
    }
    var _ := connection.mySendBuffer.WriteToBuffer(calls[0].added);
    ghost var data := connection.mySendBuffer.Contents();
    assert data + [] == data && Frames([]) == [];
    var ran;
    wire, ran := connection.OnWrite(calls[0].results);
    var more := WriteRepeatedly(connection, calls[1..]);
    wire := wire + more;
  }

  /** Of two registrations for one id the first stands, as long as no reply has come. */
  lemma FirstRegistrationStands(cbs: map<Id, Callback>, id: Id, first: Callback, second: Callback)
    requires id !in cbs
    ensures var w := Waiting(Waiting(cbs, id, first), id, second);
      id in w && w[id] == first && w - {id} == cbs
  {
  }

  function Waiting(cbs: map<Id, Callback>, id: Id, cb: Callback): map<Id, Callback> {
    if id in cbs then cbs else cbs[id := cb]
  }

  function Messages(c: seq<(TinyProtocol, Callback)>): (ms: seq<TinyProtocol>)
    ensures |ms| == |c| && forall i :: 0 <= i < |c| ==> ms[i] == c[i].0
  {
    seq(|c|, i requires 0 <= i < |c| => c[i].0)
  }

  function Callbacks(c: seq<(TinyProtocol, Callback)>): (cs: seq<Callback>)
    ensures |cs| == |c| && forall i :: 0 <= i < |c| ==> cs[i] == c[i].1
  {
    seq(|c|, i requires 0 <= i < |c| => c[i].1)
  }

  lemma EmitStep(data: seq<Byte>, results: seq<WriteResult>, wire: seq<Byte>)
    ensures var e := Emit(data, results);
      if data == [] then Emission(wire + e.wire, e.left) == Emission(wire, [])
      else if results == [] || results[0].TryAgain? then Emission(wire + e.wire, e.left) == Emission(wire, data)
      else
        var f := Emit(data, results[1..]);
        if results[0].Failed? then e == f
        else if results[0].n >= |data| then e == Emission(data[..|data|], [])
        else Emission(wire + e.wire, e.left) == Emission(wire + data[..results[0].n] + f.wire, f.left)
  {
    assert data[..|data|] == data;
    if data != [] && results != [] && results[0].Took? && results[0].n < |data| {
      var e := Emit(data, results[1..]);
      assert wire + (data[..results[0].n] + e.wire) == wire + data[..results[0].n] + e.wire;
    }
  }

  lemma EmptySocket(s: Window)
    requires s.Valid() && 0 < |s.bytes| && 0 < Room(s)
    ensures ReadAll(s, []) == MadeRoom(s) && Remainder([], Room(s)) == []
  {
  }
}
