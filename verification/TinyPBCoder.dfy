/** The coder itself: EncodeTinyPB, Encode and Decode of net/coder/tinypb_coder.cc, in place, over
    message objects and buffers. */
module TinyPBCoder {
  import opened Bytes
  import opened TcpBuffers
  import opened TinyPB
  import opened TinyPBLemmas

  class TinyProtocol {
    var myPackageLen: int
    var myMessageIDLen: int
    var myMessageID: seq<Byte>
    var myMethodNameLen: int
    var myMethodName: seq<Byte>
    var myErrorCode: Int32
    var myErrorInfoLen: int
    var myErrorInfo: seq<Byte>
    var myPBData: seq<Byte>
    var myParseSuccess: bool

    constructor ()
      ensures View() == Message([], [], 0, [], []) && !myParseSuccess
      ensures myPackageLen == myMessageIDLen == myMethodNameLen == myErrorInfoLen == 0
    {
      myPackageLen, myMessageIDLen, myMethodNameLen, myErrorInfoLen := 0, 0, 0, 0;
      myMessageID, myMethodName, myErrorInfo, myPBData := [], [], [], [];
      myErrorCode, myParseSuccess := 0, false;
    }

    function View(): Message
      reads this
    {
      Message(myMessageID, myMethodName, myErrorCode, myErrorInfo, myPBData)
    }
  }

  /** memcpy to the cursor, which then moves on. */
  method Append(buf: array<Byte>, tmp: nat, src: seq<Byte>) returns (next: nat)
    requires tmp + |src| <= buf.Length
    modifies buf
    ensures next == tmp + |src| && buf[..next] == old(buf[..tmp]) + src
  {
    forall i | 0 <= i < |src| {
      buf[tmp + i] := src[i];
    }
    next := tmp + |src|;
  }

  /** A length and the text it announces. */
  method AppendText(buf: array<Byte>, tmp: nat, t: seq<Byte>) returns (next: nat)
    requires tmp + 4 + |t| <= buf.Length
    modifies buf
    ensures next == tmp + 4 + |t| && buf[..next] == old(buf[..tmp]) + PutInt32(|t|) + t
  {
    hide PutInt32;
    next := Append(buf, tmp, PutInt32(|t|));
    if t != [] {
      next := Append(buf, next, t);
    }
  }

  method EncodeTinyPB(message: TinyProtocol) returns (buf: array<Byte>, len: int)
    requires PackageLen(WithId(message.View())) < INT32_LIMIT
    modifies message
    ensures fresh(buf) && len == buf.Length && buf[..] == Frame(old(message.View()))
    ensures message.View() == WithId(old(message.View()))
    ensures message.myPackageLen == len && message.myMessageIDLen == |message.myMessageID|
    ensures message.myMethodNameLen == |message.myMethodName| && message.myErrorInfoLen == |message.myErrorInfo|
    ensures message.myParseSuccess
  {
    if message.myMessageID == [] {
      message.myMessageID := DEFAULT_ID;
    }
    var packageLen := 2 + |message.myMessageID| + |message.myMethodName| + |message.myErrorInfo| + 6 * 4
                      + |message.myPBData|;
    buf := new Byte[packageLen];
    PrintTo(buf, message);
    message.myPackageLen := packageLen;
    message.myMessageIDLen := |message.myMessageID|;
    message.myMethodNameLen := |message.myMethodName|;
    message.myErrorInfoLen := |message.myErrorInfo|;
    message.myParseSuccess := true;
    len := packageLen;
  }

  /** The walk of the cursor through the malloc'd array. */
  method PrintTo(buf: array<Byte>, message: TinyProtocol)
    requires buf.Length == PackageLen(message.View())
    modifies buf
    ensures buf[..] == Layout(message.View())
  {
    hide PutInt32;
    ghost var m := message.View();
    var tmp := Append(buf, 0, [PB_START]);
    tmp := Append(buf, tmp, PutInt32(buf.Length));
    assert buf[..tmp] == [PB_START] + PutInt32(PackageLen(m));
    tmp := AppendText(buf, tmp, message.myMessageID);
    assert buf[..tmp] == IdPart(m);
    hide IdPart;
    tmp := AppendText(buf, tmp, message.myMethodName);
    assert buf[..tmp] == MethodPart(m);
    hide MethodPart;
    tmp := Append(buf, tmp, PutInt32(message.myErrorCode));
    tmp := AppendText(buf, tmp, message.myErrorInfo);
    assert buf[..tmp] == ErrorPart(m);
    hide ErrorPart;
    if message.myPBData != [] {
      tmp := Append(buf, tmp, message.myPBData);
    }
    assert buf[..tmp] == ErrorPart(m) + m.pbData;
    tmp := Append(buf, tmp, PutInt32(1));
    tmp := Append(buf, tmp, [PB_END]);
    assert buf[..] == buf[..tmp];
  }

  ghost function Views(ms: seq<TinyProtocol>): (vs: seq<Message>)
    reads ms
    ensures |vs| == |ms| && forall i :: 0 <= i < |ms| ==> vs[i] == ms[i].View()
  {
    seq(|ms|, i requires 0 <= i < |ms| reads ms => ms[i].View())
  }

  lemma {:induction false} FramesSnoc(ms: seq<Message>, m: Message)
    ensures Frames(ms + [m]) == Frames(ms) + Frame(m)
  {
    hide Frame;
    if ms == [] {
      assert [] + [m] == [m] && [m][1..] == [];
      assert Frame(m) + [] == [] + Frame(m);
    } else {
      FramesSnoc(ms[1..], m);
      assert (ms + [m])[1..] == ms[1..] + [m];
    }
  }

  lemma FramesNone(start: seq<Byte>, vs: seq<Message>)
    ensures start + Frames(vs[..0]) == start && Frames(vs[..|vs|]) == Frames(vs)
  {
    assert vs[..0] == [] && vs[..|vs|] == vs && start + [] == start;
  }

  lemma FramesUpTo(start: seq<Byte>, vs: seq<Message>, i: nat)
    requires i < |vs|
    ensures start + Frames(vs[..i + 1]) == start + Frames(vs[..i]) + Frame(vs[i])
  {
    hide Frame;
    FramesSnoc(vs[..i], vs[i]);
    assert vs[..i + 1] == vs[..i] + [vs[i]];
    assert start + (Frames(vs[..i]) + Frame(vs[i])) == start + Frames(vs[..i]) + Frame(vs[i]);
  }

  lemma SameFrame(m: Message, n: Message)
    requires WithId(n) == WithId(m)
    ensures Frame(n) == Frame(m) && WithId(WithId(n)) == WithId(m)
  {
    hide Layout;
  }

  method EncodeOne(msg: TinyProtocol, sendBuffer: TCPBuffer)
    requires sendBuffer.Valid() && PackageLen(WithId(msg.View())) < INT32_LIMIT
    modifies msg, sendBuffer, sendBuffer.myBuffer
    ensures sendBuffer.Valid() && (sendBuffer.myBuffer == old(sendBuffer.myBuffer) || fresh(sendBuffer.myBuffer))
    ensures sendBuffer.Contents() == old(sendBuffer.Contents()) + Frame(old(msg.View()))
    ensures sendBuffer.myReadIndex <= old(sendBuffer.myReadIndex)
    ensures msg.View() == WithId(old(msg.View()))
  {
    hide Frame, WithId, Written;
    var buf, len := EncodeTinyPB(msg);
    if len != 0 {
      var _ := sendBuffer.WriteToBuffer(buf[..]);
    }
  }

  /** Encode appends one frame for each message, in order, to whatever the buffer holds. A message may
      occur in the list more than once. */
  method Encode(sendMessage: seq<TinyProtocol>, sendBuffer: TCPBuffer)
    requires sendBuffer.Valid()
    requires forall m :: m in sendMessage ==> PackageLen(WithId(m.View())) < INT32_LIMIT
    modifies sendMessage, sendBuffer, sendBuffer.myBuffer
    ensures sendBuffer.Valid() && (sendBuffer.myBuffer == old(sendBuffer.myBuffer) || fresh(sendBuffer.myBuffer))
    ensures sendBuffer.Contents() == old(sendBuffer.Contents()) + Frames(old(Views(sendMessage)))
    ensures sendBuffer.myReadIndex <= old(sendBuffer.myReadIndex)
    ensures forall m :: m in sendMessage ==> m.View() == WithId(old(m.View()))
  {
    hide Frame, WithId, Frames;
    ghost var start := sendBuffer.Contents();
    ghost var vs := Views(sendMessage);
    FramesNone(start, vs);
    for i := 0 to |sendMessage|
      invariant sendBuffer.Valid()
      invariant sendBuffer.myBuffer == old(sendBuffer.myBuffer) || fresh(sendBuffer.myBuffer)
      invariant sendBuffer.Contents() == start + Frames(vs[..i])
      invariant sendBuffer.myReadIndex <= old(sendBuffer.myReadIndex)
      invariant forall k :: 0 <= k < |sendMessage| ==> WithId(sendMessage[k].View()) == WithId(vs[k])
      invariant forall k :: 0 <= k < i ==> sendMessage[k].View() == WithId(vs[k])
    {
      var msg := sendMessage[i];
      SameFrame(vs[i], msg.View());
      EncodeOne(msg, sendBuffer);
      FramesUpTo(start, vs, i);
    }
  }

  // ---------------------------------------------------------------------------------------------
  // Decode

  lemma {:induction false} CStringStops(t: seq<Byte>, n: nat)
    requires n <= |t| && 0 !in t[..n] && (n < |t| ==> t[n] == 0)
    ensures CString(t) == t[..n]
    decreases n
  {
    if n > 0 {
      assert t[0] == t[..n][0];
      assert t[1..][..n - 1] == t[..n][1..];
      CStringStops(t[1..], n - 1);
      assert t[..n] == [t[0]] + t[..n][1..];
    }
  }

  /** memcpy into a zeroed char[cap], then std::string of the array. */
  method ReadCString(t: seq<Byte>, cap: nat) returns (text: seq<Byte>)
    requires Fits(t, cap)
    ensures text == CString(t)
  {
    var chars := new Byte[cap](_ => 0);
    forall i | 0 <= i < |t| {
      chars[i] := t[i];
    }
    var n := 0;
    while chars[n] != 0
      invariant n <= |t| && 0 !in t[..n]
      invariant n < cap
      decreases |t| - n
    {
      n := n + 1;
    }
    text := chars[..n];
    assert text == t[..n];
    CStringStops(t, n);
  }

  /** One length-prefixed text of a frame: its length, the C string, and the index behind it. */
  method ReadField(tmp: seq<Byte>, lenIndex: nat, endIndex: nat, cap: nat)
    returns (ok: bool, len: int, text: seq<Byte>, next: nat)
    requires ReadText(tmp, lenIndex, endIndex, cap) != Illegal
    ensures ok <==> ReadText(tmp, lenIndex, endIndex, cap).Got?
    ensures ok ==> ReadText(tmp, lenIndex, endIndex, cap) == Got(text, next) && next == lenIndex + 4 + len
  {
    hide GetInt32FromNetByte, CString, Fits;
    if lenIndex >= endIndex {
      return false, 0, [], 0;
    }
    len := GetInt32FromNetByte(tmp[lenIndex..lenIndex + 4]);
    var textIndex := lenIndex + 4;
    text := ReadCString(tmp[textIndex..textIndex + len], cap);
    ok, next := true, textIndex + len;
  }

  /** The fields in front of the payload, with the lengths as read; not ok where the code logs a parse
      error. */
  method ReadFields(tmp: seq<Byte>, startIndex: nat, endIndex: nat)
    returns (ok: bool, lens: (int, int, int), texts: (seq<Byte>, seq<Byte>, seq<Byte>), errorCode: Int32, next: nat)
    requires endIndex < |tmp| && Parse(tmp, startIndex, endIndex) != Illegal
    ensures ok <==> Parse(tmp, startIndex, endIndex).Got?
    ensures ok ==> next == startIndex + 21 + lens.0 + lens.1 + lens.2 <= endIndex - 4
    ensures ok ==>
      Parse(tmp, startIndex, endIndex) ==
      Got(Message(texts.0, texts.1, errorCode, texts.2, tmp[next..endIndex - 4]), endIndex - 4)
  {
    hide ReadText, GetInt32FromNetByte;
    var idLen, id, methodNameLenIndex, methodNameLen, methodName, errorCodeIndex;
    lens, texts, errorCode, next := (0, 0, 0), ([], [], []), 0, 0;
    ok, idLen, id, methodNameLenIndex := ReadField(tmp, startIndex + 5, endIndex, TINYPB_MSG_ID_SIZE);
    if !ok {
      return;
    }
    ok, methodNameLen, methodName, errorCodeIndex :=
      ReadField(tmp, methodNameLenIndex, endIndex, TINYPB_METHOD_NAME_SIZE);
    if !ok {
      return;
    }
    if errorCodeIndex >= endIndex {
      ok := false;
      return;
    }
    errorCode := GetInt32FromNetByte(tmp[errorCodeIndex..errorCodeIndex + 4]);
    var errorInfoLen, errorInfo;
    ok, errorInfoLen, errorInfo, next := ReadField(tmp, errorCodeIndex + 4, endIndex, TINYPB_ERROR_INFO_SIZE);
    lens, texts := (idLen, methodNameLen, errorInfoLen), (id, methodName, errorInfo);
  }

  /** The part of Decode behind a recognised frame; no message comes out where the code logs a parse
      error. As coded, an accepted message ends with myPackageLen true, that is 1, and with
      myParseSuccess still false. */
  method ParseFrame(tmp: seq<Byte>, startIndex: nat, endIndex: nat, packageLen: int)
    returns (ok: bool, message: TinyProtocol)
    requires endIndex < |tmp| && endIndex == startIndex + packageLen - 1
    requires Parse(tmp, startIndex, endIndex) != Illegal
    ensures fresh(message) && (ok <==> Parse(tmp, startIndex, endIndex).Got?)
    ensures ok ==> Decoded(message, Parse(tmp, startIndex, endIndex).value)
  {
    hide Parse;
    message := new TinyProtocol();
    var lens, texts, errorCode, protobufDataIndex;
    ok, lens, texts, errorCode, protobufDataIndex := ReadFields(tmp, startIndex, endIndex);
    if !ok {
      return;
    }
    var protobufDataLen := packageLen - 2 - lens.1 - lens.0 - lens.2 - 6 * 4;
    assert protobufDataIndex + protobufDataLen == endIndex - 4;
    message.myMessageIDLen, message.myMessageID := lens.0, texts.0;
    message.myMethodNameLen, message.myMethodName := lens.1, texts.1;
    message.myErrorCode := errorCode;
    message.myErrorInfoLen, message.myErrorInfo := lens.2, texts.2;
    message.myPBData := tmp[protobufDataIndex..protobufDataIndex + protobufDataLen];
    message.myPackageLen := 1;
  }

  ghost predicate Decoded(p: TinyProtocol, m: Message)
    reads p
  {
    p.View() == m && p.myPackageLen == 1 && !p.myParseSuccess
  }

  lemma DecodedMeans(p: TinyProtocol, m: Message)
    ensures Decoded(p, m) <==>
      && (p.myMessageID, p.myMethodName, p.myErrorCode) == (m.id, m.methodName, m.errorCode)
      && p.myErrorInfo == m.errorInfo && p.myPBData == m.pbData && p.myPackageLen == 1 && !p.myParseSuccess
  {
  }

  lemma AllDecodedMeans(ps: seq<TinyProtocol>, ms: seq<Message>)
    ensures AllDecoded(ps, ms) <==> |ps| == |ms| && forall k :: 0 <= k < |ms| ==> Decoded(ps[k], ms[k])
  {
  }

  /** The for loop that looks for a complete frame. */
  method FindFrame(tmp: seq<Byte>, readIndex: nat, writeIndex: nat)
    returns (parseSuccess: bool, startIndex: nat, endIndex: nat, packageLen: Int32)
    requires writeIndex <= |tmp| && Scan(tmp, writeIndex, readIndex) != BadRead
    ensures parseSuccess <==> Scan(tmp, writeIndex, readIndex).Found?
    ensures parseSuccess ==> Scan(tmp, writeIndex, readIndex) == Found(startIndex, endIndex, packageLen)
  {
    hide GetInt32FromNetByte;
    parseSuccess, startIndex, endIndex, packageLen := false, readIndex, 0, 0;
    var index := readIndex;
    while index < writeIndex
      invariant Scan(tmp, writeIndex, readIndex) == Scan(tmp, writeIndex, index)
    {
      if tmp[index] == PB_START {
        if index + 1 < writeIndex {
          packageLen := GetInt32FromNetByte(tmp[index + 1..index + 5]);
          var end := index + packageLen - 1;
          // an unsigned comparison: a negative end is beyond the write index too
          if 0 <= end < writeIndex && tmp[end] == PB_END {
            startIndex, endIndex, parseSuccess := index, end, true;
            return;
          }
        }
      }
      index := index + 1;
    }
  }

  /** What a round that goes on is made of. */
  lemma RoundUnfolded(s: Window)
    requires s.Valid() && RoundOf(s).Goes?
    ensures var h := Scan(s.bytes, s.w, s.r);
      && h.Found? && h.end < |s.bytes| && h.end - h.start + 1 == h.len == RoundOf(s).len
      && var p := Parse(s.bytes, h.start, h.end);
         p != Illegal && RoundOf(s) == Goes(AfterRound(s, h.len), if p.Got? then [p.value] else [], h.len)
  {
    hide Scan, Parse;
    ScanFound(s.bytes, s.w, s.r);
  }

  lemma RoundEnds(s: Window)
    requires s.Valid() && RoundOf(s) != Undefined
    ensures Scan(s.bytes, s.w, s.r) != BadRead
    ensures RoundOf(s).Goes? <==> Scan(s.bytes, s.w, s.r).Found?
  {
    hide Scan, Parse;
  }

  /** MoveReadIndex as Decode calls it, with an int. */
  method MoveReadIndexBy(recvBuffer: TCPBuffer, len: Int32)
    requires recvBuffer.Valid()
    modifies recvBuffer
    ensures recvBuffer.Valid() && (recvBuffer.myBuffer == old(recvBuffer.myBuffer) || fresh(recvBuffer.myBuffer))
    ensures recvBuffer.State() == AfterRound(old(recvBuffer.State()), len)
  {
    hide ReadMoved;
    if len >= 0 {
      var _ := recvBuffer.MoveReadIndex(len);
    }
  }

  /** One round of Decode's outer loop, on any buffer on which it is defined: also where it makes no
      progress. */
  method DecodeRound(recvBuffer: TCPBuffer) returns (found: bool, message: TinyProtocol?)
    requires recvBuffer.Valid() && RoundOf(recvBuffer.State()) != Undefined
    modifies recvBuffer
    ensures recvBuffer.Valid() && (recvBuffer.myBuffer == old(recvBuffer.myBuffer) || fresh(recvBuffer.myBuffer))
    ensures found <==> RoundOf(old(recvBuffer.State())).Goes?
    ensures !found ==> message == null && recvBuffer.State() == old(recvBuffer.State())
    ensures found ==> recvBuffer.State() == RoundOf(old(recvBuffer.State())).next
    ensures found ==> RoundOf(old(recvBuffer.State())).msgs == if message == null then [] else [message.View()]
    ensures message != null ==> fresh(message) && Decoded(message, message.View())
  {
    hide Scan, Parse, RoundOf, AfterRound;
    ghost var s := recvBuffer.State();
    message := null;
    var tmp := recvBuffer.myBuffer[..];
    RoundEnds(s);
    var startIndex, endIndex, packageLen;
    found, startIndex, endIndex, packageLen := FindFrame(tmp, recvBuffer.myReadIndex, recvBuffer.myWriteIndex);
    if !found {
      return;
    }
    RoundUnfolded(s);
    MoveReadIndexBy(recvBuffer, endIndex as int - startIndex as int + 1);
    var ok, parsed := ParseFrame(tmp, startIndex, endIndex, packageLen);
    if ok {
      message := parsed;
    }
  }

  ghost predicate AllDecoded(ps: seq<TinyProtocol>, ms: seq<Message>)
    reads ps
  {
    |ps| == |ms| && forall k :: 0 <= k < |ms| ==> Decoded(ps[k], ms[k])
  }

  /** Decode pushes the messages of the recognised frames behind those already in `recvMessage`, and
      leaves the buffer as DecodeWindow says. */
  method Decode(recvMessage: seq<TinyProtocol>, recvBuffer: TCPBuffer)
    returns (result: seq<TinyProtocol>, ghost pushed: seq<TinyProtocol>)
    requires recvBuffer.Valid() && DecodeWindow(recvBuffer.State()).Done?
    modifies recvBuffer
    ensures recvBuffer.Valid() && (recvBuffer.myBuffer == old(recvBuffer.myBuffer) || fresh(recvBuffer.myBuffer))
    ensures recvBuffer.State() == DecodeWindow(old(recvBuffer.State())).window
    ensures result == recvMessage + pushed && forall p :: p in pushed ==> fresh(p)
    ensures AllDecoded(pushed, DecodeWindow(old(recvBuffer.State())).msgs)
  {
    hide DecodeWindow, Decoded, RoundOf;
    result, pushed := recvMessage, [];
    ghost var s := recvBuffer.State();
    ghost var msgs, lens := [], [];
    PrependNothing(DecodeWindow(s));
    while true
      invariant recvBuffer.Valid()
      invariant recvBuffer.myBuffer == old(recvBuffer.myBuffer) || fresh(recvBuffer.myBuffer)
      invariant DecodeWindow(s) == Prepend(msgs, lens, DecodeWindow(recvBuffer.State()))
      invariant result == recvMessage + pushed && forall p :: p in pushed ==> fresh(p)
      invariant AllDecoded(pushed, msgs)
      decreases recvBuffer.ReadRemain(), recvBuffer.myReadIndex
    {
      ghost var t := recvBuffer.State();
      DecodeUnfolded(t);
      var found, message := DecodeRound(recvBuffer);
      if !found {
        break;
      }
      ghost var m, len := RoundOf(t).msgs, RoundOf(t).len as nat;
      PrependTwice(msgs, lens, m, [len], DecodeWindow(recvBuffer.State()));
      msgs, lens := msgs + m, lens + [len];
      if message != null {
        result, pushed := result + [message], pushed + [message];
      }
    }
    assert msgs + [] == msgs;
  }

  lemma PrependNothing(o: Outcome)
    ensures Prepend([], [], o) == o
  {
    if o.Done? {
      assert [] + o.msgs == o.msgs && [] + o.lens == o.lens;
    }
  }

  /** The coder against itself, on one buffer: whatever was encoded into an empty buffer is decoded to the
      canonical messages, in order, and nothing readable is left. */
  method EncodeThenDecode(messages: seq<TinyProtocol>, buffer: TCPBuffer) returns (result: seq<TinyProtocol>)
    requires buffer.Valid() && buffer.ReadRemain() == 0 && AllSendable(Views(messages))
    requires buffer.myReadIndex + |Frames(Views(messages))| < INT32_LIMIT
    modifies messages, buffer, buffer.myBuffer
    ensures buffer.Valid() && buffer.Contents() == []
    ensures AllDecoded(result, Canonicals(old(Views(messages))))
  {
    hide Frames, Canonicals, Fits, DecodeWindow, Decoded;
    ghost var ms := Views(messages);
    forall m | m in messages
      ensures PackageLen(WithId(m.View())) < INT32_LIMIT
    {
      var i :| 0 <= i < |messages| && messages[i] == m;
      assert Sendable(ms[i]);
    }
    Encode(messages, buffer);
    ghost var s := buffer.State();
    assert s.Contents() == Frames(ms) by {
      assert [] + Frames(ms) == Frames(ms);
    }
    ContentsHead(s, 0);
    StreamRoundTrip(s, ms);
    ghost var pushed;
    result, pushed := Decode([], buffer);
    assert result == pushed;
  }
}
