/** Decode on arbitrary buffers and on streams that arrive in pieces. */
module TinyPBStreams {
  import opened Bytes
  import opened TcpBuffers
  import opened TinyPB
  import opened TinyPBLemmas

  // ---------------------------------------------------------------------------------------------
  // What is consumed

  function Sum(lens: seq<nat>): nat {
    if lens == [] then 0 else lens[0] + Sum(lens[1..])
  }

  /** Whenever Decode returns, it has consumed exactly the sum of the lengths the recognised frames
      claim, counted from the read index, wherever in the buffer it found them. */
  lemma {:induction false} DecodeAccounts(s: Window)
    requires s.Valid() && DecodeWindow(s).Done?
    ensures var o := DecodeWindow(s);
      && Sum(o.lens) <= |s.Contents()| && o.window.Contents() == s.Contents()[Sum(o.lens)..]
      && o.window.consumed == s.consumed + Sum(o.lens)
      && |o.msgs| <= |o.lens|
    decreases s.w - s.r, s.r
  {
    hide ReadMoved, RoundOf, Sum, DecodeWindow;
    DecodeUnfolded(s);
    if RoundOf(s).Goes? {
      var t, len := RoundOf(s).next, RoundOf(s).len;
      DecodeAccounts(t);
      var sum := Sum(DecodeWindow(t).lens);
      SumCons(len, DecodeWindow(t).lens);
      DropTwice(s.Contents(), len, sum);
    } else {
      NothingSummed();
    }
  }

  /** Decode neither grows the buffer nor moves its write index up. */
  lemma {:induction false} DecodeStaysInside(s: Window)
    requires s.Valid() && DecodeWindow(s).Done?
    ensures var t := DecodeWindow(s).window; t.w <= s.w && t.grown == s.grown && (Compact(s) ==> Compact(t))
    decreases s.w - s.r, s.r
  {
    hide ReadMoved, RoundOf, Compact, DecodeWindow;
    DecodeUnfolded(s);
    var round := RoundOf(s);
    if round.Goes? {
      RoundShrinks(s);
      if Compact(s) {
        ReadMovedCompact(s, round.len);
      }
      DecodeStaysInside(round.next);
    }
  }

  lemma NothingSummed()
    ensures Sum([]) == 0
  {
  }

  lemma SumCons(n: nat, lens: seq<nat>)
    ensures Sum([n] + lens) == n + Sum(lens)
  {
  }

  lemma DropTwice(c: seq<Byte>, a: nat, b: nat)
    requires a + b <= |c|
    ensures c[a..][b..] == c[a + b..]
  {
  }

  // ---------------------------------------------------------------------------------------------
  // What the scan finds

  ghost predicate Silent(v: seq<Byte>, w: nat, i: nat)
    requires w <= |v|
  {
    Marked(v, w, i) ==> Measurable(v, i) && !Closed(v, w, i)
  }

  ghost predicate AllSilent(v: seq<Byte>, w: nat, from: nat)
    requires w <= |v|
  {
    forall i :: from <= i < w ==> Silent(v, w, i)
  }

  lemma {:induction false} ScanSilent(v: seq<Byte>, w: nat, i: nat)
    requires w <= |v|
    ensures Scan(v, w, i) == NoFrame <==> AllSilent(v, w, i)
    decreases w - i
  {
    if i < w {
      ScanSilent(v, w, i + 1);
      if Silent(v, w, i) {
        assert AllSilent(v, w, i + 1) ==> AllSilent(v, w, i);
      }
    }
  }

  /** The start byte at k claims an end mark which is there, and no start byte before it does. */
  ghost predicate FirstClosed(v: seq<Byte>, w: nat, from: nat, k: nat)
    requires w <= |v|
  {
    && from <= k < w && Marked(v, w, k) && Measurable(v, k) && Closed(v, w, k)
    && forall i :: from <= i < k ==> Silent(v, w, i)
  }

  /** The scan stops at the first start byte that claims an end mark which is there, and only if it can
      measure every start byte before it. */
  lemma {:induction false} ScanFindsFirst(v: seq<Byte>, w: nat, from: nat, k: nat)
    requires w <= |v|
    ensures Scan(v, w, from).Found? && Scan(v, w, from).start == k <==> FirstClosed(v, w, from, k)
    ensures FirstClosed(v, w, from, k) ==>
      Scan(v, w, from) == Found(k, ClaimedEnd(v, k), GetInt32FromNetByte(v[k + 1..k + 5]))
    decreases w - from
  {
    hide GetInt32FromNetByte;
    if from < w {
      ScanFindsFirst(v, w, from + 1, k);
      assert from < k && Silent(v, w, from) && (forall i :: from + 1 <= i < k ==> Silent(v, w, i)) ==>
        forall i :: from <= i < k ==> Silent(v, w, i);
    }
  }

  // ---------------------------------------------------------------------------------------------
  // When Decode does not return

  /** Whether Decode's outer loop completes n rounds and goes on. */
  ghost predicate GoesOn(s: Window, n: nat)
    requires s.Valid()
    decreases n
  {
    n == 0 || (RoundOf(s).Goes? && GoesOn(RoundOf(s).next, n - 1))
  }

  /** The window after n rounds, or after the last one before that. */
  ghost function Rounds(s: Window, n: nat): (t: Window)
    requires s.Valid()
    ensures t.Valid()
    decreases n
  {
    if n == 0 || !RoundOf(s).Goes? then s else Rounds(RoundOf(s).next, n - 1)
  }

  /** Step by step. */
  lemma RoundsMean(s: Window, n: nat)
    requires s.Valid()
    ensures GoesOn(s, 0) && Rounds(s, 0) == s
    ensures GoesOn(s, n + 1) <==> RoundOf(s).Goes? && GoesOn(RoundOf(s).next, n)
    ensures Rounds(s, n + 1) == if RoundOf(s).Goes? then Rounds(RoundOf(s).next, n) else s
    ensures NeverReturns(s) ==> GoesOn(s, n)
  {
    hide RoundOf;
  }

  ghost predicate NeverReturns(s: Window)
    requires s.Valid()
  {
    forall n: nat :: GoesOn(s, n)
  }

  lemma {:induction false} StillGoing(s: Window, n: nat)
    requires s.Valid() && DecodeWindow(s) == NoProgress
    ensures GoesOn(s, n)
    decreases n
  {
    hide RoundOf;
    if n > 0 {
      RoundShrinks(s);
      StillGoing(RoundOf(s).next, n - 1);
    }
  }

  lemma {:induction false} ComesToAnEnd(s: Window) returns (n: nat)
    requires s.Valid() && DecodeWindow(s) != NoProgress
    ensures !GoesOn(s, n)
    decreases s.w - s.r, s.r
  {
    hide RoundOf;
    n := 0;
    if RoundOf(s).Goes? {
      RoundShrinks(s);
      n := ComesToAnEnd(RoundOf(s).next);
    }
    n := n + 1;
  }

  /** NoProgress means that the outer loop runs for ever, neither more nor less. */
  lemma NoProgressMeansForever(s: Window)
    requires s.Valid()
    ensures DecodeWindow(s) == NoProgress <==> NeverReturns(s)
  {
    hide DecodeWindow;
    if DecodeWindow(s) == NoProgress {
      forall n: nat
        ensures GoesOn(s, n)
      {
        StillGoing(s, n);
      }
    } else {
      var n := ComesToAnEnd(s);
    }
  }

  /** The first start byte whose claimed end mark is there claims a length below zero, or of zero while the
      read index is in the first third of the buffer, where it always is. */
  ghost predicate StuckAt(s: Window)
    requires s.Valid()
  {
    exists k :: FirstClosed(s.bytes, s.w, s.r, k) &&
      var len := GetInt32FromNetByte(s.bytes[k + 1..k + 5]);
      len < 0 || (len == 0 && s.r < |s.bytes| / 3)
  }

  /** One round changes nothing exactly there. */
  lemma StuckExactly(s: Window)
    requires s.Valid()
    ensures RoundOf(s).Goes? && RoundOf(s).next == s <==> StuckAt(s)
  {
    hide GetInt32FromNetByte, Scan, FirstClosed, ReadText;
    var h := Scan(s.bytes, s.w, s.r);
    if h.Found? {
      var k := h.start;
      ScanFound(s.bytes, s.w, s.r);
      ScanFindsFirst(s.bytes, s.w, s.r, k);
      MovedIsCounted(s, 0);
      OnlyFirst(s, k);
      if h.len > 0 {
        MovedIsCounted(s, h.len);
      } else {
        TooShortToParse(s.bytes, k, h.end);
      }
    } else if StuckAt(s) {
      var k :| FirstClosed(s.bytes, s.w, s.r, k);
      ScanFindsFirst(s.bytes, s.w, s.r, k);
    }
  }

  lemma OnlyFirst(s: Window, k: nat)
    requires s.Valid() && FirstClosed(s.bytes, s.w, s.r, k)
    ensures var len := GetInt32FromNetByte(s.bytes[k + 1..k + 5]);
      StuckAt(s) <==> len < 0 || (len == 0 && s.r < |s.bytes| / 3)
  {
    hide GetInt32FromNetByte, Scan;
    forall j | FirstClosed(s.bytes, s.w, s.r, j)
      ensures j == k
    {
      ScanFindsFirst(s.bytes, s.w, s.r, k);
      ScanFindsFirst(s.bytes, s.w, s.r, j);
    }
  }

  /** Where the read index is in the first third, that is: claims a length of zero or less. */
  lemma StuckIfCompact(s: Window, k: nat)
    requires s.Valid() && Compact(s) && FirstClosed(s.bytes, s.w, s.r, k)
    ensures StuckAt(s) <==> GetInt32FromNetByte(s.bytes[k + 1..k + 5]) <= 0
  {
    OnlyFirst(s, k);
  }

  lemma TooShortToParse(v: seq<Byte>, start: nat, end: nat)
    requires end < start + 5 && end < |v|
    ensures Parse(v, start, end) == TooShort
  {
  }

  lemma {:induction false} StuckForever(s: Window, n: nat)
    requires s.Valid()
    ensures DecodeWindow(Rounds(s, n)) == NoProgress ==> DecodeWindow(s) == NoProgress
    decreases n
  {
    hide RoundOf;
    if n > 0 && RoundOf(s).Goes? {
      RoundShrinks(s);
      StuckForever(RoundOf(s).next, n - 1);
    }
  }

  lemma {:induction false} GetsStuck(s: Window) returns (n: nat)
    requires s.Valid() && DecodeWindow(s) == NoProgress
    ensures GoesOn(s, n) && StuckAt(Rounds(s, n))
    decreases s.w - s.r, s.r
  {
    hide RoundOf, ReadMoved, StuckAt;
    RoundShrinks(s);
    StuckExactly(s);
    n := 0;
    if RoundOf(s).next != s {
      n := GetsStuck(RoundOf(s).next);
      n := n + 1;
    }
  }

  /** Decode never returns if and only if after some number of rounds it is stuck. */
  lemma HangsExactly(s: Window)
    requires s.Valid()
    ensures NeverReturns(s) <==> exists n: nat :: GoesOn(s, n) && StuckAt(Rounds(s, n))
  {
    hide DecodeWindow, StuckAt, RoundOf, NeverReturns, GoesOn, Rounds;
    NoProgressMeansForever(s);
    if NeverReturns(s) {
      var n := GetsStuck(s);
    }
    forall n: nat | GoesOn(s, n) && StuckAt(Rounds(s, n))
      ensures NeverReturns(s)
    {
      var t := Rounds(s, n);
      StuckExactly(t);
      RoundRepeats(t);
      StuckForever(s, n);
    }
  }

  lemma RoundRepeats(s: Window)
    requires s.Valid() && RoundOf(s).Goes? && RoundOf(s).next == s
    ensures DecodeWindow(s) == NoProgress
  {
    hide RoundOf;
  }

  // ---------------------------------------------------------------------------------------------
  // A condition under which it returns

  /** Every readable start byte, except one that is the last byte, has its whole package length before
      the write index, and that length is positive and does not overflow. */
  ghost predicate WellHeaded(s: Window)
    requires s.Valid()
  {
    forall i :: s.r <= i < s.w && Marked(s.bytes, s.w, i) ==>
      i + 5 <= s.w && 0 < GetInt32FromNetByte(s.bytes[i + 1..i + 5]) < INT32_LIMIT - i
  }

  lemma {:induction false} WellHeadedScan(s: Window, i: nat)
    requires s.Valid() && WellHeaded(s) && s.r <= i
    ensures var h := Scan(s.bytes, s.w, i); !h.BadRead? && (h.Found? ==> 0 < h.len)
    decreases s.w - i
  {
    if i < s.w && !(Marked(s.bytes, s.w, i) && Closed(s.bytes, s.w, i)) {
      WellHeadedScan(s, i + 1);
    }
  }

  lemma MovedBytes(s: Window, n: nat)
    requires s.Valid() && n <= s.w - s.r
    ensures var t := ReadMoved(s, n); var d := s.r + n - t.r;
      t.Valid() && 0 <= d && t.w == s.w - d &&
      forall i :: t.r <= i < t.w ==> t.bytes[i] == s.bytes[i + d]
  {
  }

  lemma WellHeadedMoved(s: Window, n: nat)
    requires s.Valid() && WellHeaded(s) && n <= s.w - s.r
    ensures ReadMoved(s, n).Valid() && WellHeaded(ReadMoved(s, n))
  {
    hide ReadMoved, GetInt32FromNetByte;
    var t := ReadMoved(s, n);
    MovedBytes(s, n);
    var d := s.r + n - t.r;
    forall i | t.r <= i < t.w && Marked(t.bytes, t.w, i)
      ensures i + 5 <= t.w && 0 < GetInt32FromNetByte(t.bytes[i + 1..i + 5]) < INT32_LIMIT - i
    {
      assert t.bytes[i] == s.bytes[i + d];
      assert Marked(s.bytes, s.w, i + d);
      assert i + d + 5 <= s.w && i + 5 <= t.w;
      SameLength(t.bytes, s.bytes, i, d);
    }
  }

  lemma SameLength(a: seq<Byte>, b: seq<Byte>, i: nat, d: nat)
    requires i + 5 <= |a| && i + d + 5 <= |b| && forall k :: i <= k < i + 5 ==> a[k] == b[k + d]
    ensures a[i + 1..i + 5] == b[i + d + 1..i + d + 5]
  {
    assert a[i + 1] == b[i + 1 + d] && a[i + 2] == b[i + 2 + d] && a[i + 3] == b[i + 3 + d] && a[i + 4] == b[i + 4 + d];
  }

  /** On such a buffer Decode always makes progress: the number of readable bytes strictly decreases
      from round to round, so it returns unless a field of a recognised frame is unreadable. */
  lemma {:induction false} DecodeTerminates(s: Window)
    requires s.Valid()
    requires forall i :: s.r <= i < s.w - 1 && s.bytes[i] == 0x02 ==>
      i + 5 <= s.w && 0 < GetInt32FromNetByte(s.bytes[i + 1..i + 5]) < INT32_LIMIT - i
    ensures !NeverReturns(s) && DecodeWindow(s) != NoProgress
  {
    WellHeadedProgresses(s);
    NoProgressMeansForever(s);
  }

  lemma {:induction false} WellHeadedProgresses(s: Window)
    requires s.Valid() && WellHeaded(s)
    ensures DecodeWindow(s) != NoProgress
    decreases s.w - s.r
  {
    hide ReadMoved, Parse, WellHeaded;
    WellHeadedScan(s, s.r);
    var round := RoundOf(s);
    if round.Goes? {
      RoundShrinks(s);
      MovedIsCounted(s, round.len);
      WellHeadedMoved(s, round.len);
      WellHeadedProgresses(round.next);
    }
  }

  // ---------------------------------------------------------------------------------------------
  // Complete frames, and any bytes behind them

  lemma {:induction false} PastFramesCompact(s: Window, ms: seq<Message>)
    requires s.Valid() && Compact(s)
    ensures Compact(PastFrames(s, ms))
    decreases |ms|
  {
    hide ReadMoved, Compact, Frame;
    if ms != [] {
      ReadMovedContents(s, |Frame(ms[0])|);
      ReadMovedCompact(s, |Frame(ms[0])|);
      PastFramesCompact(ReadMoved(s, |Frame(ms[0])|), ms[1..]);
    }
  }

  /** After complete frames with any bytes behind them, Decode recognises exactly those frames, and holds
      back exactly those bytes, if and only if no start byte among the bytes held back claims an end
      that is already there and holds the end mark. */
  lemma HeldBackExactly(s: Window, ms: seq<Message>, p: seq<Byte>)
    requires s.Valid() && s.w < INT32_LIMIT && AllSendable(ms) && s.Contents() == Frames(ms) + p
    ensures var o := DecodeWindow(s); var t := PastFrames(s, ms);
      && (AllSilent(t.bytes, t.w, t.r) ==> o == Done(Canonicals(ms), FrameLens(ms), t) && t.Contents() == p)
      && (o.Done? && o.lens == FrameLens(ms) ==> AllSilent(t.bytes, t.w, t.r))
      && (Compact(s) && o.Done? && o.msgs == Canonicals(ms) && o.window.Contents() == p ==>
            AllSilent(t.bytes, t.w, t.r))
  {
    hide Scan, Parse, Compact, AllSilent, Frames, ReadMoved;
    var t := PastFrames(s, ms);
    DecodeFrames(s, ms, p);
    ScanSilent(t.bytes, t.w, t.r);
    var o := DecodeWindow(t);
    if AllSilent(t.bytes, t.w, t.r) {
      assert o == Done([], [], t);
      assert Canonicals(ms) + [] == Canonicals(ms) && FrameLens(ms) + [] == FrameLens(ms);
    } else if o.Done? {
      FoundIsCounted(t);
      assert |DecodeWindow(s).lens| == |FrameLens(ms)| + |o.lens|;
      if Compact(s) {
        PastFramesCompact(s, ms);
        assert |o.window.Contents()| < |p|;
      }
    }
  }

  lemma FoundIsCounted(t: Window)
    requires t.Valid()
    ensures Scan(t.bytes, t.w, t.r) != NoFrame && DecodeWindow(t).Done? ==>
      && DecodeWindow(t).lens != []
      && (Compact(t) ==> |DecodeWindow(t).window.Contents()| < |t.Contents()|)
  {
    hide Scan, Parse, ReadMoved, Compact;
    var round := RoundOf(t);
    if round.Goes? && DecodeWindow(t).Done? {
      RoundShrinks(t);
      DecodeAccounts(round.next);
      if Compact(t) && round.len == 0 {
        StuckAtZero(t);
      }
    }
  }

  lemma StuckAtZero(t: Window)
    requires t.Valid() && Compact(t) && RoundOf(t).Goes? && RoundOf(t).len == 0
    ensures RoundOf(t).next == t
  {
    hide Scan, Parse;
    ScanFound(t.bytes, t.w, t.r);
  }

  // ---------------------------------------------------------------------------------------------
  // Chunked delivery

  /** A plain piece of an unfinished frame: not cut inside the package length, and without another
      start byte. */
  predicate Plain(p: seq<Byte>) {
    |p| <= 1 || (5 <= |p| && PB_START !in p[1..])
  }

  lemma PlainMeans(p: seq<Byte>)
    ensures Plain(p) <==> p == [] || |p| == 1 || (5 <= |p| && forall i :: 1 <= i < |p| ==> p[i] != 0x02)
  {
    if 5 <= |p| {
      assert forall i :: 1 <= i < |p| ==> p[i] == p[1..][i - 1];
    }
  }

  lemma PlainIsSilent(t: Window, m: Message)
    requires t.Valid() && Plain(t.Contents()) && t.Contents() <= Layout(m) && |t.Contents()| < PackageLen(m)
    requires PackageLen(m) + |t.bytes| < INT32_LIMIT
    ensures AllSilent(t.bytes, t.w, t.r)
  {
    hide GetInt32FromNetByte, Layout;
    var p := t.Contents();
    assert |p| == t.w - t.r;
    forall i | t.r <= i < t.w
      ensures Silent(t.bytes, t.w, i)
    {
      if i > t.r {
        assert t.bytes[i] == p[i - t.r] == p[1..][i - t.r - 1];
      } else if 5 <= |p| {
        FrameHeader(t.bytes, t.r, m, p);
      }
    }
  }

  function Concat(chunks: seq<seq<Byte>>): seq<Byte> {
    if chunks == [] then [] else chunks[0] + Concat(chunks[1..])
  }

  /** OnRead and Decode for each chunk the socket delivers. */
  function Deliver(s: Window, chunks: seq<seq<Byte>>): (o: Outcome)
    requires s.Valid() && 0 < |s.bytes|
    ensures o.Done? ==> o.window.Valid()
    decreases |chunks|
  {
    if chunks == [] then Done([], [], s)
    else
      match DecodeWindow(ReadAll(s, chunks[0]))
      case Done(msgs, lens, t) => Prepend(msgs, lens, Deliver(t, chunks[1..]))
      case NoProgress => NoProgress
      case Faults => Faults
  }

  /** How many whole frames the first n bytes of the stream contain. */
  function Whole(ms: seq<Message>, n: int): (k: nat)
    ensures k <= |ms|
  {
    if ms == [] || n < |Frame(ms[0])| then 0 else 1 + Whole(ms[1..], n - |Frame(ms[0])|)
  }

  /** What is left of the first bytes `b` of the stream when its whole frames are cut off. */
  function HeldBack(ms: seq<Message>, b: seq<Byte>): seq<Byte>
    decreases |ms|
  {
    if ms == [] || |b| < |Frame(ms[0])| then b else HeldBack(ms[1..], b[|Frame(ms[0])|..])
  }

  lemma {:induction false} SplitFrames(ms: seq<Message>, k: nat)
    requires k <= |ms|
    ensures Frames(ms) == Frames(ms[..k]) + Frames(ms[k..])
    decreases k
  {
    hide Frame;
    if k == 0 {
      assert ms[0..] == ms;
      assert Frames(ms) == [] + Frames(ms);
    } else {
      var tail := ms[1..];
      SplitFrames(tail, k - 1);
      assert ms[..k][1..] == tail[..k - 1] && tail[k - 1..] == ms[k..];
      assert Frames(ms) == Frame(ms[0]) + Frames(tail[..k - 1]) + Frames(ms[k..]);
    }
  }

  lemma {:induction false} SplitCanonicals(ms: seq<Message>, k: nat)
    requires k <= |ms|
    ensures Canonicals(ms) == Canonicals(ms[..k]) + Canonicals(ms[k..])
    decreases k
  {
    hide Canonical;
    if k == 0 {
      assert ms[0..] == ms;
      assert Canonicals(ms) == [] + Canonicals(ms);
    } else {
      var tail := ms[1..];
      SplitCanonicals(tail, k - 1);
      assert ms[..k][1..] == tail[..k - 1] && tail[k - 1..] == ms[k..];
      assert Canonicals(ms) == [Canonical(ms[0])] + Canonicals(tail[..k - 1]) + Canonicals(ms[k..]);
    }
  }

  lemma {:induction false} SplitLens(ms: seq<Message>, k: nat)
    requires k <= |ms|
    ensures FrameLens(ms) == FrameLens(ms[..k]) + FrameLens(ms[k..])
    decreases k
  {
    hide Frame;
    if k == 0 {
      assert ms[0..] == ms;
      assert FrameLens(ms) == [] + FrameLens(ms);
    } else {
      var tail := ms[1..];
      SplitLens(tail, k - 1);
      assert ms[..k][1..] == tail[..k - 1] && tail[k - 1..] == ms[k..];
      assert FrameLens(ms) == [|Frame(ms[0])|] + FrameLens(tail[..k - 1]) + FrameLens(ms[k..]);
    }
  }

  lemma {:induction false} WholeFramesFirst(ms: seq<Message>, b: seq<Byte>)
    requires b <= Frames(ms)
    ensures b == Frames(ms[..Whole(ms, |b|)]) + HeldBack(ms, b)
    decreases |ms|
  {
    hide Frame;
    var k := Whole(ms, |b|);
    if k == 0 {
      assert ms[..0] == [] && Frames(ms[..0]) + b == b;
    } else {
      var f, tail := Frame(ms[0]), ms[1..];
      PrefixPast(f, Frames(tail), b);
      WholeFramesFirst(tail, b[|f|..]);
      assert ms[..k][1..] == tail[..k - 1];
      assert f + (Frames(tail[..k - 1]) + HeldBack(ms, b)) == Frames(ms[..k]) + HeldBack(ms, b);
    }
  }

  lemma {:induction false} HeldBackIsPartial(ms: seq<Message>, b: seq<Byte>)
    requires b <= Frames(ms)
    ensures var k := Whole(ms, |b|); var p := HeldBack(ms, b);
      if k < |ms| then p <= Frame(ms[k]) && |p| < |Frame(ms[k])| else p == []
    decreases |ms|
  {
    hide Frame;
    if ms != [] {
      var f := Frame(ms[0]);
      PrefixPast(f, Frames(ms[1..]), b);
      if |f| <= |b| {
        HeldBackIsPartial(ms[1..], b[|f|..]);
      }
    }
  }

  lemma PrefixPast(f: seq<Byte>, g: seq<Byte>, b: seq<Byte>)
    requires b <= f + g
    ensures |b| <= |f| ==> b <= f
    ensures |f| <= |b| ==> b == f + b[|f|..] && b[|f|..] <= g
  {
    assert b == (f + g)[..|b|];
    if |f| <= |b| {
      assert b[..|f|] == (f + g)[..|f|] == f;
      assert (f + g)[|f|..|b|] == g[..|b| - |f|];
    }
  }

  lemma CutStream(ms: seq<Message>, b: seq<Byte>, rest: seq<Byte>)
    requires b + rest == Frames(ms)
    ensures var k := Whole(ms, |b|); var p := HeldBack(ms, b);
      && b == Frames(ms[..k]) + p && p + rest == Frames(ms[k..]) && Whole(ms[k..], |p|) == 0
      && if k < |ms| then p <= Frame(ms[k]) && |p| < |Frame(ms[k])| else p == []
  {
    hide Frame;
    var k := Whole(ms, |b|);
    WholeFramesFirst(ms, b);
    HeldBackIsPartial(ms, b);
    SplitFrames(ms, k);
    CancelPrefix(Frames(ms[..k]), HeldBack(ms, b) + rest, Frames(ms[k..]));
  }

  lemma CancelPrefix(a: seq<Byte>, b: seq<Byte>, c: seq<Byte>)
    requires a + b == a + c
    ensures b == c
  {
    assert (a + b)[|a|..] == b && (a + c)[|a|..] == c;
  }

  /** The buffer has room and holds the first bytes of the stream, less than a frame of it; `rest` is
      still to come. */
  ghost predicate Arriving(s: Window, ms: seq<Message>, rest: seq<Byte>) {
    && s.Valid() && s.w < |s.bytes| < INT32_LIMIT && AllSendable(ms)
    && s.Contents() + rest == Frames(ms) && Whole(ms, |s.Contents()|) == 0
  }

  /** Keeping up: reading one chunk and decoding recognises all frames that are complete by now, in
      order, pushes their messages, and holds back the rest. */
  ghost predicate KeepsUp(s: Window, ms: seq<Message>, chunk: seq<Byte>)
    requires s.Valid() && 0 < |s.bytes|
  {
    var b := s.Contents() + chunk;
    var k := Whole(ms, |b|);
    var o := DecodeWindow(ReadAll(s, chunk));
    o.Done? && o.msgs == Canonicals(ms[..k]) && o.lens == FrameLens(ms[..k]) && o.window.Contents() == HeldBack(ms, b)
  }

  /** The window once a chunk has been received and the frames it completes have been consumed. */
  ghost function PastChunk(s: Window, ms: seq<Message>, chunk: seq<Byte>): (t: Window)
    requires s.Valid() && 0 < |s.bytes|
    ensures t.Valid() && 0 < |t.bytes|
  {
    PastFrames(ReadAll(s, chunk), ms[..Whole(ms, |s.Contents() + chunk|)])
  }

  /** A chunk cuts well if it leaves room in the buffer, and no start byte of the unfinished frame
      behind it claims an end that is already there and holds the end mark. */
  ghost predicate CutsWell(s: Window, ms: seq<Message>, chunk: seq<Byte>)
    requires s.Valid() && 0 < |s.bytes|
  {
    |chunk| < Room(s) && var t := PastChunk(s, ms, chunk); AllSilent(t.bytes, t.w, t.r)
  }

  /** The first chunk cut well, then the next one, and so on. */
  ghost predicate WellCut(s: Window, ms: seq<Message>, chunks: seq<seq<Byte>>)
    requires s.Valid() && 0 < |s.bytes|
    decreases |chunks|
  {
    chunks != [] ==>
      && CutsWell(s, ms, chunks[0])
      && WellCut(PastChunk(s, ms, chunks[0]), ms[Whole(ms, |s.Contents() + chunks[0]|)..], chunks[1..])
  }

  ghost predicate AlwaysKeepsUp(s: Window, ms: seq<Message>, chunks: seq<seq<Byte>>)
    requires s.Valid() && 0 < |s.bytes|
    decreases |chunks|
  {
    chunks != [] ==>
      && KeepsUp(s, ms, chunks[0])
      && AlwaysKeepsUp(DecodeWindow(ReadAll(s, chunks[0])).window,
                       ms[Whole(ms, |s.Contents() + chunks[0]|)..], chunks[1..])
  }

  lemma {:induction false} SumOfFrames(ms: seq<Message>)
    ensures Sum(FrameLens(ms)) == |Frames(ms)|
  {
    hide Frame;
    if ms != [] {
      SumOfFrames(ms[1..]);
      SumCons(|Frame(ms[0])|, FrameLens(ms[1..]));
    }
  }

  /** A chunk that leaves no room is cut short, and what is decoded then is not all there should be. */
  lemma LostChunk(s: Window, ms: seq<Message>, k: nat, chunk: seq<Byte>, p: seq<Byte>)
    requires s.Valid() && 0 < |s.bytes| && Room(s) <= |chunk|
    requires k <= |ms| && s.Contents() + chunk == Frames(ms[..k]) + p
    ensures var o := DecodeWindow(ReadAll(s, chunk));
      !(o.Done? && o.lens == FrameLens(ms[..k]) && o.window.Contents() == p)
  {
    hide DecodeWindow, ReadAll, Frame, Frames, Remainder;
    ReadAllContents(s, chunk);
    var t := ReadAll(s, chunk);
    var o := DecodeWindow(t);
    if o.Done? && o.lens == FrameLens(ms[..k]) {
      DecodeAccounts(t);
      SumOfFrames(ms[..k]);
      assert |t.Contents()| < |s.Contents() + chunk|;
    }
  }

  /** For one chunk: Decode keeps up if and only if the chunk cuts well. */
  lemma ChunkStep(s: Window, ms: seq<Message>, chunk: seq<Byte>, rest: seq<Byte>)
    requires Arriving(s, ms, chunk + rest)
    ensures KeepsUp(s, ms, chunk) <==> CutsWell(s, ms, chunk)
    ensures CutsWell(s, ms, chunk) ==>
      var k := Whole(ms, |s.Contents() + chunk|); var t := PastChunk(s, ms, chunk);
      && DecodeWindow(ReadAll(s, chunk)) == Done(Canonicals(ms[..k]), FrameLens(ms[..k]), t)
      && Arriving(t, ms[k..], rest) && |t.bytes| == |s.bytes| && t.Contents() == HeldBack(ms, s.Contents() + chunk)
  {
    hide Frame, Frames, ReadAll, DecodeWindow, Sendable, Canonical, HeldBack, PastFrames, Whole, Remainder, AllSilent;
    var b := s.Contents() + chunk;
    var k, p := Whole(ms, |b|), HeldBack(ms, b);
    assert b + rest == s.Contents() + (chunk + rest);
    CutStream(ms, b, rest);
    if |chunk| < Room(s) {
      var u := ReadAll(s, chunk);
      ReadAllIsLossless(s, chunk);
      ReadAllNeverGrows(s, chunk);
      HeldBackExactly(u, ms[..k], p);
      PastFramesInside(u, ms[..k]);
    } else {
      LostChunk(s, ms, k, chunk, p);
    }
  }

  lemma {:induction false} PastFramesInside(s: Window, ms: seq<Message>)
    requires s.Valid()
    ensures PastFrames(s, ms).w <= s.w
    decreases |ms|
  {
    hide ReadMoved, Frame;
    if ms != [] {
      ReadMovedContents(s, |Frame(ms[0])|);
      PastFramesInside(ReadMoved(s, |Frame(ms[0])|), ms[1..]);
    }
  }

  /** However a stream of frames is cut into chunks: Decode keeps up with every chunk if and only if
      every chunk cuts well. */
  lemma {:induction false} KeepsUpExactly(s: Window, ms: seq<Message>, chunks: seq<seq<Byte>>)
    requires Arriving(s, ms, Concat(chunks))
    ensures AlwaysKeepsUp(s, ms, chunks) <==> WellCut(s, ms, chunks)
    decreases |chunks|
  {
    hide Arriving, KeepsUp, CutsWell, ReadAll, DecodeWindow, PastChunk, Whole;
    assert s.Valid() && 0 < |s.bytes| by {
      ArrivingIsValid(s, ms, Concat(chunks));
    }
    if chunks != [] {
      ChunkStep(s, ms, chunks[0], Concat(chunks[1..]));
      if CutsWell(s, ms, chunks[0]) {
        var k := Whole(ms, |s.Contents() + chunks[0]|);
        KeepsUpExactly(PastChunk(s, ms, chunks[0]), ms[k..], chunks[1..]);
      }
    }
  }

  /** A new buffer, and the whole stream to come. */
  lemma ArrivesAtNew(capacity: nat, ms: seq<Message>, stream: seq<Byte>)
    requires AllSendable(ms) && 0 < capacity < INT32_LIMIT && stream == Frames(ms)
    ensures NewWindow(capacity).Valid() && Arriving(NewWindow(capacity), ms, stream)
  {
    hide Frame;
    var s := NewWindow(capacity);
    assert s.Contents() == [] && [] + stream == stream;
    if ms != [] {
      LastByte(ms[0]);
    }
  }

  /** A stream that leaves room may come in one chunk. */
  lemma OneChunkIsWellCut(capacity: nat, ms: seq<Message>)
    requires AllSendable(ms) && |Frames(ms)| < capacity < INT32_LIMIT
    ensures NewWindow(capacity).Valid() && WellCut(NewWindow(capacity), ms, [Frames(ms)])
  {
    hide Frames, Arriving, CutsWell, PastChunk, AllSendable;
    var s := NewWindow(capacity);
    ArrivesAtNew(capacity, ms, Frames(ms));
    assert Frames(ms) + [] == Frames(ms) && s.Contents() + Frames(ms) == Frames(ms);
    NothingHeldBack(ms);
    FrameEndCutsWell(s, ms, Frames(ms), []);
  }

  lemma {:induction false} NothingHeldBack(ms: seq<Message>)
    ensures HeldBack(ms, Frames(ms)) == []
  {
    hide Frame;
    if ms != [] {
      NothingHeldBack(ms[1..]);
    }
  }

  lemma ArrivingIsValid(s: Window, ms: seq<Message>, rest: seq<Byte>)
    requires Arriving(s, ms, rest)
    ensures s.Valid() && 0 < |s.bytes|
  {
  }

  /** Chunked delivery: if the stream is well cut, its messages come out once each, in order, and nothing
      is left behind. */
  lemma {:induction false} ChunkedDelivery(s: Window, ms: seq<Message>, chunks: seq<seq<Byte>>)
    requires Arriving(s, ms, Concat(chunks)) && WellCut(s, ms, chunks)
    ensures var o := Deliver(s, chunks);
      o.Done? && o.msgs == Canonicals(ms) && o.lens == FrameLens(ms) && o.window.Contents() == []
    decreases |chunks|
  {
    hide Frame, Canonical, ReadAll, DecodeWindow, Sendable, PastChunk, CutsWell, KeepsUp;
    if chunks == [] {
      assert s.Contents() == Frames(ms);
      NothingWhole(ms);
    } else {
      var k := Whole(ms, |s.Contents() + chunks[0]|);
      ChunkStep(s, ms, chunks[0], Concat(chunks[1..]));
      SplitCanonicals(ms, k);
      SplitLens(ms, k);
      ChunkedDelivery(PastChunk(s, ms, chunks[0]), ms[k..], chunks[1..]);
    }
  }

  lemma NothingWhole(ms: seq<Message>)
    requires Whole(ms, |Frames(ms)|) == 0
    ensures ms == []
  {
    hide Frame;
  }

  /** Neither reading a chunk nor any number of rounds of decoding grows the buffer or fills it; nor, if
      Decode returns, do the chunks after it. */
  ghost predicate NeverGrows(s: Window, chunks: seq<seq<Byte>>)
    requires s.Valid() && 0 < |s.bytes|
    decreases |chunks|
  {
    chunks != [] ==>
      var u := ReadAll(s, chunks[0]);
      && (forall n: nat :: var t := Rounds(u, n); t.w < |t.bytes| == |s.bytes| && t.grown == s.grown)
      && (DecodeWindow(u).Done? ==> NeverGrows(DecodeWindow(u).window, chunks[1..]))
  }

  lemma {:induction false} RoundsStayInside(s: Window, n: nat)
    requires s.Valid()
    ensures var t := Rounds(s, n); t.w <= s.w && |t.bytes| == |s.bytes| && t.grown == s.grown
    decreases n
  {
    hide RoundOf, ReadMoved;
    var round := RoundOf(s);
    if n > 0 && round.Goes? {
      RoundShrinks(s);
      if round.next != s {
        MovedIsCounted(s, round.len);
      }
      RoundsStayInside(round.next, n - 1);
    }
  }

  lemma NeverGrowsMeans(s: Window, chunk: seq<Byte>, chunks: seq<seq<Byte>>)
    requires s.Valid() && 0 < |s.bytes|
    ensures var u := ReadAll(s, chunk);
      NeverGrows(s, [chunk] + chunks) ==>
      && (forall n: nat :: var t := Rounds(u, n); t.w < |t.bytes| == |s.bytes| && t.grown == s.grown)
      && (DecodeWindow(u).Done? ==> NeverGrows(DecodeWindow(u).window, chunks))
  {
    hide ReadAll, DecodeWindow, Rounds;
    var all := [chunk] + chunks;
    var u := ReadAll(s, chunk);
    assert all != [] && all[0] == chunk && all[1..] == chunks && ReadAll(s, all[0]) == u;
    if NeverGrows(s, all) {
      forall n: nat
        ensures var t := Rounds(u, n); t.w < |t.bytes| == |s.bytes| && t.grown == s.grown
      {
      }
      if DecodeWindow(u).Done? {
        assert NeverGrows(DecodeWindow(u).window, chunks);
      }
    }
  }

  /** Whatever the socket delivers, a buffer that has room is never grown. */
  lemma {:induction false} DeliverNeverGrows(s: Window, chunks: seq<seq<Byte>>)
    requires s.Valid() && s.w < |s.bytes|
    ensures NeverGrows(s, chunks)
    decreases |chunks|
  {
    hide ReadAll, DecodeWindow, Rounds;
    if chunks != [] {
      var u := ReadAll(s, chunks[0]);
      var o := DecodeWindow(u);
      ReadAllNeverGrows(s, chunks[0]);
      forall n: nat
        ensures var t := Rounds(u, n); t.w < |t.bytes| == |s.bytes| && t.grown == s.grown
      {
        RoundsStayInside(u, n);
      }
      if o.Done? {
        DecodeStaysInside(u);
        DeliverNeverGrows(o.window, chunks[1..]);
      }
    }
  }

  /** And no frame as long as the buffer, or longer, is ever recognised. */
  lemma {:induction false} LongFramesNeverArrive(s: Window, chunks: seq<seq<Byte>>)
    requires s.Valid() && s.w < |s.bytes| && Deliver(s, chunks).Done?
    ensures forall len :: len in Deliver(s, chunks).lens ==> len < |s.bytes|
    decreases |chunks|
  {
    hide ReadAll, DecodeWindow;
    if chunks != [] {
      var u := ReadAll(s, chunks[0]);
      var t := DecodeWindow(u).window;
      ReadAllNeverGrows(s, chunks[0]);
      DecodeStaysInside(u);
      LensAreShort(u);
      LongFramesNeverArrive(t, chunks[1..]);
      assert Deliver(s, chunks).lens == DecodeWindow(u).lens + Deliver(t, chunks[1..]).lens;
    }
  }

  lemma LensAreShort(u: Window)
    requires u.Valid() && u.w < |u.bytes| && DecodeWindow(u).Done?
    ensures forall len :: len in DecodeWindow(u).lens ==> len < |u.bytes|
  {
    hide DecodeWindow;
    DecodeAccounts(u);
    ContentsHead(u, 0);
    forall len | len in DecodeWindow(u).lens
      ensures len < |u.bytes|
    {
      AtMostSum(DecodeWindow(u).lens, len);
    }
  }

  lemma {:induction false} AtMostSum(lens: seq<nat>, len: nat)
    requires len in lens
    ensures len <= Sum(lens)
  {
    if lens[0] != len {
      AtMostSum(lens[1..], len);
    }
  }

  // ---------------------------------------------------------------------------------------------
  // A condition on the bytes alone

  /** What each chunk leaves of an unfinished frame is plain. `held` is held back at the start. */
  predicate PlainlyCut(ms: seq<Message>, held: seq<Byte>, chunks: seq<seq<Byte>>)
    decreases |chunks|
  {
    chunks != [] ==>
      var b := held + chunks[0];
      Plain(HeldBack(ms, b)) && PlainlyCut(ms[Whole(ms, |b|)..], HeldBack(ms, b), chunks[1..])
  }

  /** The scan's indices stay below the limit of an int. */
  predicate Indexable(ms: seq<Message>, capacity: nat) {
    forall i :: 0 <= i < |ms| ==> PackageLen(WithId(ms[i])) + capacity < INT32_LIMIT
  }

  /** What the first bytes `b` of the stream leave of a frame is nothing, or plain. */
  predicate LeavesPlain(ms: seq<Message>, b: seq<Byte>, capacity: nat) {
    var p := HeldBack(ms, b);
    p == [] || (Plain(p) && Indexable(ms, capacity))
  }

  lemma PlainlyCutMeans(ms: seq<Message>, held: seq<Byte>, chunk: seq<Byte>, chunks: seq<seq<Byte>>, capacity: nat)
    ensures PlainlyCut(ms, held, [])
    ensures var b := held + chunk;
      PlainlyCut(ms, held, [chunk] + chunks) <==>
      Plain(HeldBack(ms, b)) && PlainlyCut(ms[Whole(ms, |b|)..], HeldBack(ms, b), chunks)
    ensures Indexable(ms, capacity) <==> forall m :: m in ms ==> |Frame(m)| + capacity < 0x8000_0000
  {
    hide Plain, HeldBack, Whole, Layout;
    assert ([chunk] + chunks)[0] == chunk && ([chunk] + chunks)[1..] == chunks;
    assert forall i :: 0 <= i < |ms| ==> ms[i] in ms;
    forall m | m in ms
      ensures |Frame(m)| == PackageLen(WithId(m))
    {
    }
  }

  /** A chunk that leaves a plain part of a frame cuts well if and only if it leaves room. */
  lemma PlainCutsWell(s: Window, ms: seq<Message>, chunk: seq<Byte>, rest: seq<Byte>)
    requires Arriving(s, ms, chunk + rest) && LeavesPlain(ms, s.Contents() + chunk, |s.bytes|)
    ensures CutsWell(s, ms, chunk) <==> |chunk| < Room(s)
  {
    hide Frame, Frames, ReadAll, DecodeWindow, Sendable, Canonical, HeldBack, PastFrames, Whole, Plain, AllSilent;
    hide Remainder, Indexable;
    var b := s.Contents() + chunk;
    var k, p := Whole(ms, |b|), HeldBack(ms, b);
    assert b + rest == s.Contents() + (chunk + rest);
    CutStream(ms, b, rest);
    if |chunk| < Room(s) {
      var u := ReadAll(s, chunk);
      ReadAllIsLossless(s, chunk);
      ReadAllNeverGrows(s, chunk);
      DecodeFrames(u, ms[..k], p);
      PartIsSilent(PastFrames(u, ms[..k]), ms, k, p);
    }
  }

  lemma PartIsSilent(t: Window, ms: seq<Message>, k: nat, p: seq<Byte>)
    requires t.Valid() && t.Contents() == p && k <= |ms|
    requires p == [] || (Plain(p) && Indexable(ms, |t.bytes|))
    requires if k < |ms| then p <= Frame(ms[k]) && |p| < |Frame(ms[k])| else p == []
    ensures AllSilent(t.bytes, t.w, t.r)
  {
    hide Layout, Plain;
    if p == [] {
      assert |t.Contents()| == t.w - t.r;
    } else {
      PlainIsSilent(t, WithId(ms[k]));
    }
  }

  /** In particular one that ends with a frame. */
  lemma FrameEndCutsWell(s: Window, ms: seq<Message>, chunk: seq<Byte>, rest: seq<Byte>)
    requires Arriving(s, ms, chunk + rest) && HeldBack(ms, s.Contents() + chunk) == []
    ensures CutsWell(s, ms, chunk) <==> |chunk| < Room(s)
  {
    hide Arriving, CutsWell, HeldBack;
    PlainCutsWell(s, ms, chunk, rest);
  }

  /** Every chunk leaves room. */
  ghost predicate FitsAll(s: Window, ms: seq<Message>, chunks: seq<seq<Byte>>)
    requires s.Valid() && 0 < |s.bytes|
    decreases |chunks|
  {
    chunks != [] ==>
      && |chunks[0]| < Room(s)
      && FitsAll(PastChunk(s, ms, chunks[0]), ms[Whole(ms, |s.Contents() + chunks[0]|)..], chunks[1..])
  }

  /** A plainly cut stream is well cut if and only if every chunk leaves room. */
  lemma {:induction false} PlainCutsExactly(s: Window, ms: seq<Message>, chunks: seq<seq<Byte>>)
    requires Arriving(s, ms, Concat(chunks)) && Indexable(ms, |s.bytes|) && PlainlyCut(ms, s.Contents(), chunks)
    ensures WellCut(s, ms, chunks) <==> FitsAll(s, ms, chunks)
    decreases |chunks|
  {
    hide Arriving, CutsWell, PastChunk, Whole, Plain, HeldBack, ReadAll, DecodeWindow;
    assert s.Valid() && 0 < |s.bytes| by {
      ArrivingIsValid(s, ms, Concat(chunks));
    }
    if chunks != [] {
      var rest := Concat(chunks[1..]);
      PlainCutsWell(s, ms, chunks[0], rest);
      ChunkStep(s, ms, chunks[0], rest);
      if CutsWell(s, ms, chunks[0]) {
        PlainCutsExactly(PastChunk(s, ms, chunks[0]), ms[Whole(ms, |s.Contents() + chunks[0]|)..], chunks[1..]);
      }
    }
  }

  /** In a buffer as its operations leave it, anything below two thirds of the capacity leaves room. */
  lemma TwoThirdsFit(s: Window, chunk: seq<Byte>)
    requires s.Valid() && Compact(s) && 0 < |s.bytes| && |s.Contents() + chunk| < |s.bytes| - |s.bytes| / 3
    ensures |chunk| < Room(s)
  {
    assert |s.Contents()| == s.w - s.r;
  }

  // ---------------------------------------------------------------------------------------------
  // Where the condition on the cuts bites

  /** A package length of which only zeros have arrived, over zeros left in the vector, claims length
      zero; its end is the byte before it, the end mark of the frame just consumed. */
  lemma ZeroLengthIsFound(s: Window)
    requires s.Valid() && Compact(s) && 1 <= s.r && s.r + 1 < s.w && s.r + 5 <= |s.bytes| && s.w < INT32_LIMIT
    requires s.bytes[s.r - 1] == PB_END && s.bytes[s.r] == PB_START && s.bytes[s.r + 1..s.r + 5] == [0, 0, 0, 0]
    ensures DecodeWindow(s) == NoProgress
  {
    ZeroBytes();
    assert GetInt32FromNetByte(s.bytes[s.r + 1..s.r + 5]) == 0;
    hide Parse, GetInt32FromNetByte;
    assert Scan(s.bytes, s.w, s.r) == Found(s.r, s.r - 1, 0);
    TooShortToParse(s.bytes, s.r, s.r - 1);
    hide Scan;
    assert RoundOf(s).next == s;
  }

  /** The first frame of a new 128-byte buffer, received and decoded: the buffer is compacted if the frame
      reached a third of it. */
  lemma FirstFrameInPlace(m: Message)
    requires Sendable(m) && |Frame(m)| < 128
    ensures var s := ReadAll(NewWindow(128), Frame(m)); var n := |Frame(m)|; var t := ReadMoved(s, n);
      && s.Valid() && s == Window(Frame(m) + Zeros(128 - n), 0, n, n, 0, 0, 0) && 0 < n && s.bytes[n - 1] == PB_END
      && t.Valid() && t.Contents() == [] && DecodeWindow(s) == Done([Canonical(m)], [n], t)
  {
    hide Layout, RoundOf, ReadAll, Zeros, ReadMoved;
    var f := Frame(m);
    var n := |f|;
    var s := ReadAll(NewWindow(128), f);
    LastByte(m);
    FirstReceive(f);
    hide Frame;
    assert s.bytes[n - 1] == f[n - 1];
    assert s.Contents() == f + [];
    DecodeFirst(s, m, []);
    DecodeNothing(ReadMoved(s, n));
  }

  lemma FirstReceive(f: seq<Byte>)
    requires 0 < |f| < 128
    ensures var s := ReadAll(NewWindow(128), f); s == Window(f + Zeros(128 - |f|), 0, |f|, |f|, 0, 0, 0)
  {
    hide ReadAll;
    ShortReceive(NewWindow(128), f);
    assert Zeros(128)[..0] + f + Zeros(128)[|f|..] == f + Zeros(128 - |f|);
  }

  lemma LastByte(m: Message)
    ensures 0 < |Frame(m)| && Frame(m)[|Frame(m)| - 1] == PB_END
  {
    hide Layout;
    var f := Frame(m);
    assert At(f, 0, Layout(WithId(m)));
    LayoutAt(f, 0, WithId(m));
    assert f[|f| - 1..|f|] == [PB_END];
  }

  lemma ShortReceive(t: Window, c: seq<Byte>)
    requires t.Valid() && t.r < |t.bytes| / 3 && 0 < |c| < |t.bytes| - t.w
    ensures ReadAll(t, c) == Stored(t, c).(w := t.w + |c|, written := t.written + |c|)
  {
    assert c[..|c|] == c;
  }

  lemma FourZeros(v: seq<Byte>, i: nat)
    requires i + 4 <= |v| && v[i] == 0 && v[i + 1] == 0 && v[i + 2] == 0 && v[i + 3] == 0
    ensures v[i..i + 4] == [0, 0, 0, 0]
  {
  }

  lemma HeaderOverZeros(t: Window)
    requires t.Valid() && 1 <= t.r == t.w <= 41 && |t.bytes| == 128 && t.bytes[t.r - 1] == PB_END
    requires t.bytes[t.r..] == Zeros(128 - t.r)
    ensures var s := ReadAll(t, [PB_START, 0]);
      DecodeWindow(s) == NoProgress && s.w == t.w + 2 && NeverReturns(s)
  {
    hide DecodeWindow, ReadAll, NeverReturns, GetInt32FromNetByte;
    var n := t.r;
    ShortReceive(t, [PB_START, 0]);
    var u := ReadAll(t, [PB_START, 0]);
    assert u.bytes[n] == PB_START && u.bytes[n + 1] == 0 && u.bytes[n - 1] == PB_END;
    assert u.bytes[n + 2] == t.bytes[n..][2] && u.bytes[n + 3] == t.bytes[n..][3] && u.bytes[n + 4] == t.bytes[n..][4];
    FourZeros(u.bytes, n + 1);
    assert u.bytes[n + 1..n + 5] == [0, 0, 0, 0];
    ZeroLengthIsFound(u);
    NoProgressMeansForever(u);
  }

  /** In an empty buffer that was compacted there is nothing before the start byte that could be taken for
      its end. */
  lemma HeaderAtFront(t: Window)
    requires t.Valid() && t.r == t.w == 0 && t.bytes == Zeros(128)
    ensures var s := ReadAll(t, [PB_START, 0]); DecodeWindow(s) == Done([], [], s) && !NeverReturns(s)
  {
    hide ReadAll, DecodeWindow, GetInt32FromNetByte;
    ShortReceive(t, [PB_START, 0]);
    var s := ReadAll(t, [PB_START, 0]);
    FourZeros(s.bytes, 1);
    assert GetInt32FromNetByte([0, 0, 0, 0]) == 0 by {
      ZeroBytes();
    }
    ScanSilent(s.bytes, s.w, s.r);
    NothingFound(s);
    NoProgressMeansForever(s);
  }

  lemma NothingFound(s: Window)
    requires s.Valid() && Scan(s.bytes, s.w, s.r) == NoFrame
    ensures DecodeWindow(s) == Done([], [], s)
  {
    hide Scan;
  }

  /** On a new 128-byte buffer, once a frame has been received and decoded, the first two bytes of the next
      frame, arriving alone, make Decode loop for ever if and only if that frame had at most 41 bytes. One
      with an id of sixteen bytes or more, such as the generator's, has more. */
  lemma ShortHeaderHangs(m: Message)
    requires Sendable(m) && |Frame(m)| < 128
    ensures var o := DecodeWindow(ReadAll(NewWindow(128), Frame(m)));
      && o.Done? && o.msgs == [Canonical(m)] && o.window.Contents() == []
      && var s := ReadAll(o.window, [PB_START, 0]);
         && (NeverReturns(s) <==> |Frame(m)| <= 41)
         && (16 <= |m.id| ==> DecodeWindow(s) == Done([], [], s))
  {
    hide DecodeWindow, ReadAll, Zeros, NeverReturns, Layout;
    FirstFrameInPlace(m);
    var s := ReadAll(NewWindow(128), Frame(m));
    var n := |Frame(m)|;
    var t := ReadMoved(s, n);
    assert 16 <= |m.id| ==> n >= 42;
    hide Frame;
    AfterFirst(s, n);
    if n <= 41 {
      HeaderOverZeros(t);
    } else {
      HeaderAtFront(t);
    }
  }

  lemma AfterFirst(s: Window, n: nat)
    requires s.Valid() && s.r == 0 && 0 < s.w == n < |s.bytes| == 128 && s.bytes[n..] == Zeros(128 - n)
    ensures var t := ReadMoved(s, n);
      if n <= 41 then t == s.(r := n, consumed := s.consumed + n)
      else t.r == t.w == 0 && t.bytes == Zeros(128)
  {
    if n > 41 {
      assert s.bytes[n..n] + Zeros(128) == Zeros(128);
    }
  }
}
