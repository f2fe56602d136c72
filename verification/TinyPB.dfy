/** The TinyPB wire format (net/coder/tinypb_coder.cc): what EncodeTinyPB prints, and what Decode
    does to the window of a buffer, as functions on values. */
module TinyPB {
  import opened Bytes
  import opened TcpBuffers

  const PB_START: Byte := 0x02
  const PB_END: Byte := 0x03
  const TINYPB_MSG_ID_SIZE: nat := 128
  const TINYPB_METHOD_NAME_SIZE: nat := 512
  const TINYPB_ERROR_INFO_SIZE: nat := 512

  /** "123456789" */
  const DEFAULT_ID: seq<Byte> := [49, 50, 51, 52, 53, 54, 55, 56, 57]

  datatype Message = Message(
    id: seq<Byte>, methodName: seq<Byte>, errorCode: Int32, errorInfo: seq<Byte>, pbData: seq<Byte>)

  // ---------------------------------------------------------------------------------------------
  // Printing

  function WithId(m: Message): Message {
    if m.id == [] then m.(id := DEFAULT_ID) else m
  }

  function PackageLen(m: Message): nat {
    2 + |m.id| + |m.methodName| + |m.errorInfo| + 24 + |m.pbData|
  }

  function IdPart(m: Message): seq<Byte> {
    [PB_START] + PutInt32(PackageLen(m)) + PutInt32(|m.id|) + m.id
  }

  function MethodPart(m: Message): seq<Byte> {
    IdPart(m) + PutInt32(|m.methodName|) + m.methodName
  }

  function ErrorPart(m: Message): seq<Byte> {
    MethodPart(m) + PutInt32(m.errorCode) + PutInt32(|m.errorInfo|) + m.errorInfo
  }

  /** The frame of a message that has an id. */
  function Layout(m: Message): (f: seq<Byte>)
    ensures |f| == PackageLen(m)
  {
    ErrorPart(m) + m.pbData + PutInt32(1) + [PB_END]
  }

  function Frame(m: Message): seq<Byte> {
    Layout(WithId(m))
  }

  function Frames(ms: seq<Message>): seq<Byte> {
    if ms == [] then [] else Frame(ms[0]) + Frames(ms[1..])
  }

  // ---------------------------------------------------------------------------------------------
  // Scanning and parsing

  /** A step of the parser over the snapshot vector: a value and the index behind it; TooShort where
      the code logs a parse error and drops the frame; Illegal where it reads outside the vector,
      overruns a C array, or throws. */
  datatype Piece<T> = Got(value: T, next: int) | TooShort | Illegal
  {
    predicate IsFailure() { !Got? }

    function PropagateFailure<U>(): Piece<U>
      requires !Got?
    {
      if TooShort? then TooShort else Illegal
    }

    function Extract(): (T, int)
      requires Got?
    {
      (value, next)
    }
  }

  function ReadInt(v: seq<Byte>, at: nat, end: int): Piece<Int32> {
    if at >= end then TooShort
    else if at + 4 > |v| then Illegal
    else Got(GetInt32FromNetByte(v[at..at + 4]), at + 4)
  }

  /** std::string(char*): the text up to the first NUL. */
  function CString(t: seq<Byte>): seq<Byte> {
    if t == [] || t[0] == 0 then [] else [t[0]] + CString(t[1..])
  }

  /** Whether a text, copied into a zeroed char[cap], is followed by a NUL inside the array. */
  predicate Fits(t: seq<Byte>, cap: nat) {
    |t| < cap || (|t| == cap && 0 in t)
  }

  function ReadText(v: seq<Byte>, at: nat, end: int, cap: nat): Piece<seq<Byte>> {
    var (n, next) :- ReadInt(v, at, end);
    if n < 0 || next + n > |v| || !Fits(v[next..next + n], cap) then Illegal
    else Got(CString(v[next..next + n]), next + n)
  }

  /** The fields of the frame that starts at `start` and whose end byte is at `end`. The payload is
      what the package length leaves over, less the checksum, which is not looked at. */
  function Parse(v: seq<Byte>, start: nat, end: nat): Piece<Message>
    requires end < |v|
  {
    var (id, i1) :- ReadText(v, start + 5, end, TINYPB_MSG_ID_SIZE);
    var (methodName, i2) :- ReadText(v, i1, end, TINYPB_METHOD_NAME_SIZE);
    var (errorCode, i3) :- ReadInt(v, i2, end);
    var (errorInfo, i4) :- ReadText(v, i3, end, TINYPB_ERROR_INFO_SIZE);
    if i4 > end - 4 then Illegal
    else Got(Message(id, methodName, errorCode, errorInfo, v[i4..end - 4]), end - 4)
  }

  datatype Hit = Found(start: nat, end: nat, len: Int32) | NoFrame | BadRead

  /** Whether the byte at i makes Decode read a package length there. */
  predicate Marked(v: seq<Byte>, w: nat, i: nat)
    requires w <= |v|
  {
    i + 1 < w && v[i] == PB_START
  }

  /** The four bytes behind the marker are in the vector (not necessarily before the write index), and
      adding the length does not overflow. */
  predicate Measurable(v: seq<Byte>, i: nat) {
    i + 5 <= |v| &&
    var len := GetInt32FromNetByte(v[i + 1..i + 5]);
    -INT32_LIMIT <= i + len - 1 && i + len < INT32_LIMIT
  }

  lemma MeasurableMeans(v: seq<Byte>, i: nat)
    requires i + 5 <= |v|
    ensures var end := i + GetInt32FromNetByte(v[i + 1..i + 5]) - 1;
      Measurable(v, i) <==> -0x8000_0000 <= end < 0x7fff_ffff
  {
  }

  /** Index of the end byte the marker at i claims. */
  function ClaimedEnd(v: seq<Byte>, i: nat): int
    requires Measurable(v, i)
  {
    i + GetInt32FromNetByte(v[i + 1..i + 5]) - 1
  }

  /** The claimed end is compared as an unsigned number, so a negative one is past the write index. */
  predicate Closed(v: seq<Byte>, w: nat, i: nat)
    requires w <= |v| && Measurable(v, i)
  {
    0 <= ClaimedEnd(v, i) < w && v[ClaimedEnd(v, i)] == PB_END
  }

  /** The for loop of Decode, from index i up to the write index. */
  function Scan(v: seq<Byte>, w: nat, i: nat): Hit
    requires w <= |v|
    decreases w - i
  {
    if i >= w then NoFrame
    else if !Marked(v, w, i) then Scan(v, w, i + 1)
    else if !Measurable(v, i) then BadRead
    else if Closed(v, w, i) then Found(i, ClaimedEnd(v, i), GetInt32FromNetByte(v[i + 1..i + 5]))
    else Scan(v, w, i + 1)
  }

  // ---------------------------------------------------------------------------------------------
  // Decode

  /** The window after MoveReadIndex(len). A negative length reaches it as an unsigned number beyond any
      buffer's size and is refused. */
  function AfterRound(s: Window, len: Int32): (t: Window)
    requires s.Valid()
    ensures t.Valid()
  {
    if len < 0 then s
    else
      ReadMovedContents(s, len);
      ReadMoved(s, len)
  }

  /** One round of Decode's outer loop: Decode returns; or it does something the language does not
      define; or it goes on, with another window and perhaps with a message. */
  datatype Round = Returns | Undefined | Goes(next: Window, msgs: seq<Message>, len: Int32)

  function RoundOf(s: Window): (round: Round)
    requires s.Valid()
    ensures round.Goes? ==> round.next.Valid()
  {
    match Scan(s.bytes, s.w, s.r)
    case NoFrame => Returns
    case BadRead => Undefined
    case Found(start, end, len) =>
      ScanFound(s.bytes, s.w, s.r);
      match Parse(s.bytes, start, end)
      case Illegal => Undefined
      case TooShort => Goes(AfterRound(s, len), [], len)
      case Got(m, _) => Goes(AfterRound(s, len), [m], len)
  }

  /** How Decode ends: normally, with the messages pushed, the lengths of the frames recognised, and
      the window left behind; or not at all, because a round leaves the window as it was and is
      repeated for ever; or in something the language does not define. */
  datatype Outcome = Done(msgs: seq<Message>, lens: seq<nat>, window: Window) | NoProgress | Faults

  function Prepend(msgs: seq<Message>, lens: seq<nat>, o: Outcome): Outcome {
    if o.Done? then Done(msgs + o.msgs, lens + o.lens, o.window) else o
  }

  lemma ScanFound(v: seq<Byte>, w: nat, i: nat)
    requires w <= |v|
    ensures var h := Scan(v, w, i);
      h.Found? ==>
        && i <= h.start < w && h.end < w && h.end == h.start + h.len - 1 && h.start + 5 <= |v|
        && v[h.start] == 0x02 && v[h.end] == 0x03 && h.len == GetInt32FromNetByte(v[h.start + 1..h.start + 5])
    decreases w - i
  {
  }

  /** MoveReadIndex within the readable bytes; by zero, it changes nothing or moves the read index down. */
  lemma MovedWidths(s: Window, n: nat)
    requires s.Valid() && n <= s.w - s.r
    ensures var t := ReadMoved(s, n);
      && t.Valid() && |t.bytes| == |s.bytes| && t.w - t.r == s.w - s.r - n && t.w <= s.w
      && (n == 0 && 3 <= |s.bytes| ==> t == s || t.r < s.r)
  {
  }

  lemma RoundIsMove(s: Window)
    requires s.Valid() && RoundOf(s).Goes?
    ensures var r := RoundOf(s);
      r.next == AfterRound(s, r.len) && 5 <= |s.bytes| && r.len <= s.w - s.r && |r.msgs| <= 1
  {
    hide Scan, Parse, AfterRound;
    ScanFound(s.bytes, s.w, s.r);
  }

  /** A round that goes on either leaves the window as it was, consumes bytes, or compacts the buffer. */
  lemma RoundShrinks(s: Window)
    requires s.Valid() && RoundOf(s).Goes?
    ensures var r := RoundOf(s);
      && r.next.Valid() && |r.next.bytes| == |s.bytes| && r.len <= s.w - s.r && |r.msgs| <= 1
      && (r.next != s ==>
            && 0 <= r.len && r.next == ReadMoved(s, r.len) && r.next.Contents() == s.Contents()[r.len..]
            && r.next.w - r.next.r == s.w - s.r - r.len && r.next.w <= s.w
            && (r.len == 0 ==> r.next.r < s.r))
  {
    hide RoundOf, ReadMoved;
    RoundIsMove(s);
    var r := RoundOf(s);
    ContentsHead(s, 0);
    if 0 <= r.len {
      MovedWidths(s, r.len);
      ReadMovedContents(s, r.len);
    }
  }

  function DecodeWindow(s: Window): (o: Outcome)
    requires s.Valid()
    ensures o.Done? ==> o.window.Valid() && |o.window.bytes| == |s.bytes|
    decreases s.w - s.r, s.r
  {
    match RoundOf(s)
    case Returns => Done([], [], s)
    case Undefined => Faults
    case Goes(t, msgs, len) =>
      RoundShrinks(s);
      if t == s then NoProgress else Prepend(msgs, [len], DecodeWindow(t))
  }
}
