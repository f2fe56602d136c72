/** What the wire format promises: what is printed is parsed back. */
module TinyPBLemmas {
  import opened Bytes
  import opened TcpBuffers
  import opened TinyPB

  /** What a message becomes on its way through the wire: an empty id is replaced, and each text goes
      through a C string. */
  function Canonical(m: Message): Message {
    var n := WithId(m);
    Message(CString(n.id), CString(n.methodName), n.errorCode, CString(n.errorInfo), n.pbData)
  }

  function Canonicals(ms: seq<Message>): (cs: seq<Message>)
    ensures |cs| == |ms|
  {
    if ms == [] then [] else [Canonical(ms[0])] + Canonicals(ms[1..])
  }

  /** The texts fit the arrays of Decode and the package length fits an int. */
  predicate Sendable(m: Message) {
    var n := WithId(m);
    && PackageLen(n) < INT32_LIMIT
    && Fits(n.id, TINYPB_MSG_ID_SIZE)
    && Fits(n.methodName, TINYPB_METHOD_NAME_SIZE)
    && Fits(n.errorInfo, TINYPB_ERROR_INFO_SIZE)
  }

  predicate AllSendable(ms: seq<Message>) {
    forall i :: 0 <= i < |ms| ==> Sendable(ms[i])
  }

  /** What can be sent, of messages without a NUL: texts of at most 127, 511 and 511 bytes, and less than
      2^31 bytes in all. */
  lemma SendableExactly(m: Message)
    requires 0 !in m.id && 0 !in m.methodName && 0 !in m.errorInfo
    ensures Sendable(m) <==>
      |m.id| <= 127 && |m.methodName| <= 511 && |m.errorInfo| <= 511 && |Frame(m)| < 0x8000_0000
  {
    hide Layout;
  }

  lemma AllSendableMeans(ms: seq<Message>)
    ensures AllSendable(ms) <==> forall m :: m in ms ==> Sendable(m)
  {
    hide Sendable;
    if forall m :: m in ms ==> Sendable(m) {
      assert forall i :: 0 <= i < |ms| ==> ms[i] in ms;
    }
  }

  lemma {:induction false} CStringIsIdentity(t: seq<Byte>)
    ensures CString(t) == t <==> 0 !in t
  {
    if t != [] && t[0] != 0 {
      CStringIsIdentity(t[1..]);
      assert t == [t[0]] + t[1..];
    }
  }

  /** A message comes back as it was exactly when it has an id and no text contains a NUL. */
  lemma CanonicalIsIdentity(m: Message)
    ensures Canonical(m) == m <==> m.id != [] && 0 !in m.id && 0 !in m.methodName && 0 !in m.errorInfo
  {
    CStringIsIdentity(WithId(m).id);
    CStringIsIdentity(m.methodName);
    CStringIsIdentity(m.errorInfo);
  }

  // ---------------------------------------------------------------------------------------------
  // Parsing a printed frame

  /** `part` stands in the vector from index `at` on. */
  predicate At(v: seq<Byte>, at: nat, part: seq<Byte>) {
    at + |part| <= |v| && v[at..at + |part|] == part
  }

  lemma AtSplit(v: seq<Byte>, at: nat, a: seq<Byte>, b: seq<Byte>)
    requires At(v, at, a + b)
    ensures At(v, at, a) && At(v, at + |a|, b)
  {
    var f := v[at..at + |a + b|];
    assert v[at..at + |a|] == f[..|a|];
    assert v[at + |a|..at + |a| + |b|] == f[|a|..];
  }

  lemma IntAt(v: seq<Byte>, at: nat, n: Int32, end: int)
    requires At(v, at, PutInt32(n)) && at < end
    ensures ReadInt(v, at, end) == Got(n, at + 4)
  {
    PutThenGet(n);
  }

  lemma GotText(v: seq<Byte>, at: nat, t: seq<Byte>, end: int, cap: nat)
    requires ReadInt(v, at, end) == Got(|t|, at + 4) && At(v, at + 4, t) && Fits(t, cap)
    ensures ReadText(v, at, end, cap) == Got(CString(t), at + 4 + |t|)
  {
    hide ReadInt, CString, Fits;
    var next := at + 4;
    assert next + |t| <= |v| && v[next..next + |t|] == t;
    hide At;
    assert ReadInt(v, at, end).Extract() == (|t| as Int32, next);
  }

  lemma TextAt(v: seq<Byte>, at: nat, t: seq<Byte>, end: int, cap: nat)
    requires |t| < INT32_LIMIT && At(v, at, PutInt32(|t|)) && At(v, at + 4, t) && at < end && Fits(t, cap)
    ensures ReadText(v, at, end, cap) == Got(CString(t), at + 4 + |t|)
  {
    hide PutInt32, ReadInt, CString, Fits, At;
    assert ReadInt(v, at, end) == Got(|t|, at + 4) by {
      IntAt(v, at, |t|, end);
    }
    GotText(v, at, t, end, cap);
  }

  lemma IdFieldsAt(v: seq<Byte>, start: nat, m: Message)
    requires At(v, start, IdPart(m))
    ensures At(v, start, [PB_START]) && At(v, start + 1, PutInt32(PackageLen(m)))
    ensures At(v, start + 5, PutInt32(|m.id|)) && At(v, start + 9, m.id)
  {
    hide PutInt32, At;
    var len := [PB_START] + PutInt32(PackageLen(m));
    AtSplit(v, start, len + PutInt32(|m.id|), m.id);
    AtSplit(v, start, len, PutInt32(|m.id|));
    AtSplit(v, start, [PB_START], PutInt32(PackageLen(m)));
  }

  lemma MethodFieldsAt(v: seq<Byte>, start: nat, m: Message)
    requires At(v, start, MethodPart(m))
    ensures var i1 := start + 9 + |m.id|;
      At(v, start, IdPart(m)) && At(v, i1, PutInt32(|m.methodName|)) && At(v, i1 + 4, m.methodName)
  {
    hide PutInt32, At;
    AtSplit(v, start, IdPart(m) + PutInt32(|m.methodName|), m.methodName);
    AtSplit(v, start, IdPart(m), PutInt32(|m.methodName|));
  }

  lemma ErrorFieldsAt(v: seq<Byte>, start: nat, m: Message)
    requires At(v, start, ErrorPart(m))
    ensures var i2 := start + 13 + |m.id| + |m.methodName|;
      At(v, start, MethodPart(m)) && At(v, i2, PutInt32(m.errorCode)) &&
      At(v, i2 + 4, PutInt32(|m.errorInfo|)) && At(v, i2 + 8, m.errorInfo)
  {
    hide PutInt32, At;
    var code := MethodPart(m) + PutInt32(m.errorCode);
    AtSplit(v, start, code + PutInt32(|m.errorInfo|), m.errorInfo);
    AtSplit(v, start, code, PutInt32(|m.errorInfo|));
    AtSplit(v, start, MethodPart(m), PutInt32(m.errorCode));
  }

  lemma LayoutAt(v: seq<Byte>, start: nat, m: Message)
    requires At(v, start, Layout(m))
    ensures At(v, start, ErrorPart(m)) && At(v, start + |ErrorPart(m)|, m.pbData)
    ensures At(v, start + PackageLen(m) - 1, [PB_END])
  {
    hide PutInt32, At;
    var body := ErrorPart(m) + m.pbData;
    AtSplit(v, start, body + PutInt32(1), [PB_END]);
    AtSplit(v, start, body, PutInt32(1));
    AtSplit(v, start, ErrorPart(m), m.pbData);
  }

  lemma ParseLayout(v: seq<Byte>, start: nat, m: Message)
    requires At(v, start, Layout(m)) && PackageLen(m) < INT32_LIMIT && Fits(m.id, TINYPB_MSG_ID_SIZE)
    requires Fits(m.methodName, TINYPB_METHOD_NAME_SIZE) && Fits(m.errorInfo, TINYPB_ERROR_INFO_SIZE)
    ensures var end := start + PackageLen(m) - 1;
      end < |v| && Parse(v, start, end) ==
      Got(Message(CString(m.id), CString(m.methodName), m.errorCode, CString(m.errorInfo), m.pbData), end - 4)
  {
    hide PutInt32, CString, Fits, ReadInt, ReadText, Layout, MethodPart, IdPart;
    var end := start + PackageLen(m) - 1;
    var i1 := start + 9 + |m.id|;
    var i2 := i1 + 4 + |m.methodName|;
    assert At(v, start, ErrorPart(m)) && v[i2 + 8 + |m.errorInfo|..end - 4] == m.pbData && end < |v| by {
      LayoutAt(v, start, m);
      assert |ErrorPart(m)| == |MethodPart(m)| + 8 + |m.errorInfo| == 21 + |m.id| + |m.methodName| + |m.errorInfo| by {
        PartLengths(m);
      }
    }
    hide At;
    ErrorFieldsAt(v, start, m);
    MethodFieldsAt(v, start, m);
    IdFieldsAt(v, start, m);
    TextAt(v, start + 5, m.id, end, TINYPB_MSG_ID_SIZE);
    TextAt(v, i1, m.methodName, end, TINYPB_METHOD_NAME_SIZE);
    IntAt(v, i2, m.errorCode, end);
    TextAt(v, i2 + 4, m.errorInfo, end, TINYPB_ERROR_INFO_SIZE);
  }

  /** The layout of every frame, byte by byte. */
  lemma FrameIs(m: Message)
    ensures var id := if m.id == [] then [49, 50, 51, 52, 53, 54, 55, 56, 57] else m.id; var f := Frame(m);
      && f == [0x02] + PutInt32(|f|) + PutInt32(|id|) + id + PutInt32(|m.methodName|) + m.methodName
              + PutInt32(m.errorCode) + PutInt32(|m.errorInfo|) + m.errorInfo + m.pbData + [0, 0, 0, 1] + [0x03]
      && f[0] == 0x02 && f[|f| - 1] == 0x03 && f[|f| - 5..|f| - 1] == [0, 0, 0, 1]
  {
    hide PutInt32;
    PutInt32Bytes(1);
    var f := Frame(m);
    assert At(f, 0, Layout(WithId(m)));
  }

  /** A C string is the text up to its first NUL. */
  lemma {:induction false} CStringIs(t: seq<Byte>)
    ensures CString(t) <= t && 0 !in CString(t) && (|CString(t)| < |t| ==> t[|CString(t)|] == 0)
  {
    if t != [] && t[0] != 0 {
      CStringIs(t[1..]);
    }
  }

  lemma PartLengths(m: Message)
    ensures |IdPart(m)| == 9 + |m.id| && |MethodPart(m)| == 13 + |m.id| + |m.methodName|
    ensures |ErrorPart(m)| == 21 + |m.id| + |m.methodName| + |m.errorInfo|
  {
  }

  /** The marker and the package length of a frame, of which at least five bytes have arrived. */
  lemma FrameHeader(v: seq<Byte>, start: nat, m: Message, p: seq<Byte>)
    requires p <= Layout(m) && At(v, start, p) && 5 <= |p| && PackageLen(m) < INT32_LIMIT
    ensures v[start] == PB_START && GetInt32FromNetByte(v[start + 1..start + 5]) == PackageLen(m)
  {
    hide PutInt32, GetInt32FromNetByte;
    var f := Layout(m);
    assert At(f, 0, f);
    LayoutAt(f, 0, m);
    ErrorFieldsAt(f, 0, m);
    MethodFieldsAt(f, 0, m);
    IdFieldsAt(f, 0, m);
    assert f[0..1] == [PB_START] && f[1..5] == PutInt32(PackageLen(m));
    assert f[0] == f[0..1][0];
    forall k | 0 <= k < |p|
      ensures v[start + k] == f[k]
    {
      assert v[start + k] == v[start..start + |p|][k] == p[k];
    }
    assert v[start + 1..start + 5] == f[1..5];
    PutThenGet(PackageLen(m));
  }

  /** A complete frame at the read index is found at once, whatever follows it. */
  lemma ScanFrame(v: seq<Byte>, w: nat, r: nat, m: Message)
    requires r + PackageLen(m) <= w <= |v| && At(v, r, Layout(m)) && w < INT32_LIMIT
    ensures Scan(v, w, r) == Found(r, r + PackageLen(m) - 1, PackageLen(m))
  {
    hide PutInt32, GetInt32FromNetByte, Layout;
    FrameHeader(v, r, m, Layout(m));
    LayoutAt(v, r, m);
    var end := r + PackageLen(m) - 1;
    assert v[end..end + 1] == [PB_END];
  }

  // ---------------------------------------------------------------------------------------------
  // Decoding a stream of frames

  lemma MovedIsCounted(s: Window, n: nat)
    requires s.Valid() && n <= s.w - s.r
    ensures ReadMoved(s, n).consumed == s.consumed + n && ReadMoved(s, n).grown == s.grown
  {
  }

  /** Decode where it is done, one round unfolded. */
  lemma DecodeUnfolded(s: Window)
    requires s.Valid() && DecodeWindow(s).Done?
    ensures var round, o := RoundOf(s), DecodeWindow(s);
      if round.Returns? then o == Done([], [], s)
      else
        && round.Goes? && 0 <= round.len <= |s.Contents()| && |round.msgs| <= 1
        && o == Prepend(round.msgs, [round.len as nat], DecodeWindow(round.next))
        && round.next.Contents() == s.Contents()[round.len..]
        && round.next.consumed == s.consumed + round.len && round.next.grown == s.grown
        && round.next.w <= s.w && round.next.w - round.next.r <= s.w - s.r
        && (round.next.w - round.next.r == s.w - s.r ==> round.next.r < s.r)
  {
    hide RoundOf, ReadMoved;
    if RoundOf(s).Goes? {
      RoundShrinks(s);
      ContentsHead(s, 0);
      MovedIsCounted(s, RoundOf(s).len);
    }
  }

  /** The window once the frames at its head have been consumed, one MoveReadIndex each. */
  ghost function PastFrames(s: Window, ms: seq<Message>): Window
    requires s.Valid()
    ensures PastFrames(s, ms).Valid() && |PastFrames(s, ms).bytes| == |s.bytes|
    decreases |ms|
  {
    if ms == [] then s
    else
      ReadMovedContents(s, |Frame(ms[0])|);
      PastFrames(ReadMoved(s, |Frame(ms[0])|), ms[1..])
  }

  function FrameLens(ms: seq<Message>): seq<nat> {
    if ms == [] then [] else [|Frame(ms[0])|] + FrameLens(ms[1..])
  }

  lemma AtReadIndex(s: Window, f: seq<Byte>, rest: seq<Byte>)
    requires s.Valid() && s.Contents() == f + rest
    ensures s.r + |f| <= s.w && At(s.bytes, s.r, f) && s.Contents()[|f|..] == rest
  {
    assert |s.Contents()| == s.w - s.r;
    assert s.bytes[s.r..s.r + |f|] == s.Contents()[..|f|];
  }

  lemma DecodeFirst(s: Window, m: Message, rest: seq<Byte>)
    requires s.Valid() && s.w < INT32_LIMIT && Sendable(m) && s.Contents() == Frame(m) + rest
    ensures var t := ReadMoved(s, |Frame(m)|);
      t.Valid() && t.w <= s.w && t.Contents() == rest &&
      DecodeWindow(s) == Prepend([Canonical(m)], [|Frame(m)|], DecodeWindow(t))
  {
    hide Layout, Fits, Scan, Parse, CString, ReadMoved;
    var n := WithId(m);
    var len := PackageLen(n);
    AtReadIndex(s, Frame(m), rest);
    ScanFrame(s.bytes, s.w, s.r, n);
    ParseLayout(s.bytes, s.r, n);
    ReadMovedContents(s, len);
    assert RoundOf(s) == Goes(ReadMoved(s, len), [Canonical(m)], len);
    assert |rest| < |s.Contents()|;
  }

  /** Frames at the head of a stream are decoded one after the other; decoding then goes on with what
      follows them, although the window may have been compacted between any two of them. */
  lemma {:induction false} DecodeFrames(s: Window, ms: seq<Message>, rest: seq<Byte>)
    requires s.Valid() && s.w < INT32_LIMIT && AllSendable(ms) && s.Contents() == Frames(ms) + rest
    ensures var t := PastFrames(s, ms);
      t.Contents() == rest && t.w <= s.w &&
      DecodeWindow(s) == Prepend(Canonicals(ms), FrameLens(ms), DecodeWindow(t))
    decreases |ms|
  {
    hide Frame, Canonical, Sendable, ReadMoved, DecodeWindow;
    if ms == [] {
      assert Frames(ms) + rest == rest;
      var o := DecodeWindow(s);
      if o.Done? {
        assert [] + o.msgs == o.msgs && [] + o.lens == o.lens;
      }
    } else {
      var rest' := Frames(ms[1..]) + rest;
      assert Frames(ms) + rest == Frame(ms[0]) + rest';
      DecodeFirst(s, ms[0], rest');
      var u := ReadMoved(s, |Frame(ms[0])|);
      DecodeFrames(u, ms[1..], rest);
      var o := DecodeWindow(PastFrames(s, ms));
      PrependTwice([Canonical(ms[0])], [|Frame(ms[0])|], Canonicals(ms[1..]), FrameLens(ms[1..]), o);
    }
  }

  lemma PrependTwice(a: seq<Message>, la: seq<nat>, b: seq<Message>, lb: seq<nat>, o: Outcome)
    ensures Prepend(a, la, Prepend(b, lb, o)) == Prepend(a + b, la + lb, o)
  {
    if o.Done? {
      assert a + (b + o.msgs) == a + b + o.msgs;
      assert la + (lb + o.lens) == la + lb + o.lens;
    }
  }

  lemma DecodeNothing(s: Window)
    requires s.Valid() && s.Contents() == []
    ensures DecodeWindow(s) == Done([], [], s)
  {
    assert |s.Contents()| == s.w - s.r;
  }

  /** The stream round trip: decoding a window that holds exactly the frames of `ms` returns the
      canonical messages in order and leaves nothing readable. */
  lemma StreamRoundTrip(s: Window, ms: seq<Message>)
    requires s.Valid() && s.w < INT32_LIMIT && AllSendable(ms) && s.Contents() == Frames(ms)
    ensures var o := DecodeWindow(s);
      o.Done? && o.msgs == Canonicals(ms) && o.lens == FrameLens(ms) &&
      o.window.Valid() && o.window.Contents() == []
  {
    assert s.Contents() == Frames(ms) + [];
    DecodeFrames(s, ms, []);
    DecodeNothing(PastFrames(s, ms));
  }
}
