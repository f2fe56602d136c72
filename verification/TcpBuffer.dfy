/** The growable byte window of net/tcp/tcp_buffer.cc.

    `Window` is the state of a TCPBuffer as a value, with one function for each operation; the class
    below performs the operations in place and is proved equal to them. Four running totals, which no
    operation reads, measure what the operations cost. */
module TcpBuffers {
  import opened Bytes

  datatype Window = Window(
    bytes: seq<Byte>, r: nat, w: nat,
    written: nat, consumed: nat,      // bytes accepted and bytes given up so far
    grown: nat, compacted: nat)       // bytes copied by ResizeBuffer and by AdjustBuffer so far
  {
    ghost predicate Valid() {
      r <= w <= |bytes|
    }

    function Contents(): seq<Byte>
      requires Valid()
    {
      bytes[r..w]
    }
  }

  function Zeros(n: nat): (z: seq<Byte>)
    ensures |z| == n
  {
    seq(n, _ => 0)
  }

  function NewWindow(size: nat): Window {
    Window(Zeros(size), 0, 0, 0, 0, 0, 0)
  }

  function Min(a: nat, b: nat): nat {
    if a < b then a else b
  }

  function Resized(s: Window, newSize: nat): Window
    requires s.Valid()
  {
    var count := Min(s.w - s.r, newSize);
    s.(bytes := s.bytes[s.r..s.r + count] + Zeros(newSize - count), r := 0, w := count, grown := s.grown + count)
  }

  function Adjusted(s: Window): Window
    requires s.Valid()
  {
    if s.r < |s.bytes| / 3 then s
    else
      var count := s.w - s.r;
      s.(bytes := s.bytes[s.r..s.w] + Zeros(|s.bytes| - count), r := 0, w := count, compacted := s.compacted + count)
  }

  /** Bytes stored from the write index on; the index itself stays. */
  function Stored(s: Window, src: seq<Byte>): Window
    requires s.Valid() && s.w + |src| <= |s.bytes|
  {
    s.(bytes := s.bytes[..s.w] + src + s.bytes[s.w + |src|..])
  }

  function Written(s: Window, src: seq<Byte>): Window
    requires s.Valid()
  {
    var t := if |src| > |s.bytes| - s.w then Resized(s, 2 * (s.w + |src|)) else s;
    Stored(t, src).(w := t.w + |src|, written := t.written + |src|)
  }

  /** MoveReadIndex: a move past the write index is refused. */
  function ReadMoved(s: Window, n: nat): Window
    requires s.Valid()
  {
    if n > s.w - s.r then s else Adjusted(s.(r := s.r + n, consumed := s.consumed + n))
  }

  /** ReadFromBuffer: takes what there is, up to n bytes. */
  function Taken(s: Window, n: nat): Window
    requires s.Valid()
  {
    if s.w == s.r then s else ReadMoved(s, Min(n, s.w - s.r))
  }

  /** MoveWriteIndex: a move that would leave no room is refused as well. */
  function WriteMoved(s: Window, n: nat): Window
    requires s.Valid()
  {
    if n >= |s.bytes| - s.w then s else Adjusted(s.(w := s.w + n, written := s.written + n))
  }

  // ---------------------------------------------------------------------------------------------
  // Each operation against an unbounded queue of bytes

  lemma ContentsHead(s: Window, n: nat)
    requires s.Valid() && n <= s.w - s.r
    ensures |s.Contents()| == s.w - s.r && s.bytes[s.r..s.r + n] == s.Contents()[..n]
  {
    forall k | 0 <= k < n
      ensures s.bytes[s.r..s.r + n][k] == s.Contents()[..n][k]
    {
    }
  }

  lemma ResizedContents(s: Window, newSize: nat)
    requires s.Valid()
    ensures var t := Resized(s, newSize);
      t.Valid() && t.r == 0 && |t.bytes| == newSize && t.Contents() == s.Contents()[..Min(s.w - s.r, newSize)]
  {
    var count := Min(s.w - s.r, newSize);
    ContentsHead(s, count);
    assert Resized(s, newSize).Contents() == s.bytes[s.r..s.r + count];
  }

  lemma AdjustedContents(s: Window)
    requires s.Valid()
    ensures var t := Adjusted(s); t.Valid() && |t.bytes| == |s.bytes| && t.Contents() == s.Contents()
  {
  }

  lemma WrittenContents(s: Window, src: seq<Byte>)
    requires s.Valid()
    ensures var t := Written(s, src);
      t.Valid() && t.Contents() == s.Contents() + src && |s.bytes| <= |t.bytes| && t.r <= s.r
  {
    if |src| > |s.bytes| - s.w {
      ResizedContents(s, 2 * (s.w + |src|));
    }
  }

  lemma WrittenIsStored(s: Window, t: Window, src: seq<Byte>)
    requires s.Valid() && t.Valid() && t.w + |src| <= |t.bytes|
    requires t == if |src| > |s.bytes| - s.w then Resized(s, 2 * (s.w + |src|)) else s
    ensures Written(s, src) == Stored(t, src).(w := t.w + |src|, written := t.written + |src|)
  {
  }

  lemma ReadMovedContents(s: Window, n: nat)
    requires s.Valid()
    ensures var t := ReadMoved(s, n);
      t.Valid() && |t.bytes| == |s.bytes| && t.w <= s.w &&
      t.Contents() == if n > |s.Contents()| then s.Contents() else s.Contents()[n..]
  {
    if n <= s.w - s.r {
      AdjustedContents(s.(r := s.r + n, consumed := s.consumed + n));
    }
  }

  lemma WriteMovedContents(s: Window, src: seq<Byte>)
    requires s.Valid() && s.w + |src| <= |s.bytes|
    ensures var t := WriteMoved(Stored(s, src), |src|);
      t.Valid() && |t.bytes| == |s.bytes| &&
      t.Contents() == if |src| < |s.bytes| - s.w then s.Contents() + src else s.Contents()
  {
    var u := Stored(s, src);
    assert u.bytes[s.r..s.w] == s.bytes[s.r..s.w];
    if |src| < |s.bytes| - s.w {
      AdjustedContents(u.(w := u.w + |src|, written := u.written + |src|));
    }
  }

  // ---------------------------------------------------------------------------------------------
  // Runs of operations

  /** What the rest of the program does to a buffer. Receive is one round of OnRead: grow if there is
      no room at all, let the socket store `chunk`, move the write index. */
  datatype Op = Write(src: seq<Byte>) | Read(n: nat) | Consume(n: nat) | Receive(chunk: seq<Byte>)

  function MadeRoom(s: Window): Window
    requires s.Valid()
  {
    if s.w == |s.bytes| then Resized(s, 2 * |s.bytes|) else s
  }

  function Room(s: Window): nat
    requires s.Valid()
  {
    |MadeRoom(s).bytes| - MadeRoom(s).w
  }

  /** One round of OnRead on a chunk that fits into the room. */
  function Received(s: Window, chunk: seq<Byte>): Window
    requires s.Valid() && |chunk| <= Room(s)
  {
    WriteMoved(Stored(MadeRoom(s), chunk), |chunk|)
  }

  ghost predicate Applies(s: Window, op: Op) {
    s.Valid() && (op.Receive? ==> |op.chunk| <= Room(s))
  }

  function Step(s: Window, op: Op): Window
    requires Applies(s, op)
  {
    match op
    case Write(src) => Written(s, src)
    case Read(n) => Taken(s, n)
    case Consume(n) => ReadMoved(s, n)
    case Receive(chunk) => Received(s, chunk)
  }

  /** The same operation on an unbounded queue. */
  function QueueStep(q: seq<Byte>, op: Op): seq<Byte> {
    match op
    case Write(src) => q + src
    case Read(n) => q[Min(n, |q|)..]
    case Consume(n) => if n > |q| then q else q[n..]
    case Receive(chunk) => q + chunk
  }

  ghost predicate FillsUp(s: Window, op: Op)
    requires s.Valid()
  {
    op.Receive? && 0 < |op.chunk| == Room(s)
  }

  lemma ReceivedContents(s: Window, chunk: seq<Byte>)
    requires s.Valid() && |chunk| <= Room(s)
    ensures var t := Received(s, chunk);
      t.Valid() && |t.bytes| == |MadeRoom(s).bytes| &&
      t.Contents() == if |chunk| < Room(s) then s.Contents() + chunk else s.Contents()
  {
    ResizedContents(s, 2 * |s.bytes|);
    WriteMovedContents(MadeRoom(s), chunk);
  }

  /** One operation agrees with the queue exactly when it is not a receive that fills the room to the
      last byte: such a receive is refused by MoveWriteIndex and the received bytes are lost. */
  lemma StepRefinesQueue(s: Window, op: Op)
    requires Applies(s, op)
    ensures var t := Step(s, op); t.Valid() && |s.bytes| <= |t.bytes|
    ensures Step(s, op).Contents() == QueueStep(s.Contents(), op) <==> !FillsUp(s, op)
    ensures FillsUp(s, op) ==> Step(s, op).Contents() == s.Contents()
  {
    match op
    case Write(src) => WrittenContents(s, src);
    case Read(n) => ReadMovedContents(s, Min(n, s.w - s.r));
    case Consume(n) => ReadMovedContents(s, n);
    case Receive(chunk) =>
      ReceivedContents(s, chunk);
      if FillsUp(s, op) {
        assert |s.Contents() + chunk| != |s.Contents()|;
      }
  }

  /** The read index is in the first third: true of a new buffer, and restored by every index move. */
  predicate Compact(s: Window) {
    s.r == 0 || s.r < |s.bytes| / 3
  }

  lemma AdjustedCompact(s: Window)
    requires s.Valid()
    ensures Compact(Adjusted(s))
  {
  }

  lemma WrittenCompact(s: Window, src: seq<Byte>)
    requires s.Valid() && Compact(s)
    ensures Compact(Written(s, src))
  {
    if |src| > |s.bytes| - s.w {
      ResizedContents(s, 2 * (s.w + |src|));
    }
  }

  lemma ReadMovedCompact(s: Window, n: nat)
    requires s.Valid() && Compact(s)
    ensures Compact(ReadMoved(s, n))
  {
    hide Adjusted;
    if n <= s.w - s.r {
      AdjustedCompact(s.(r := s.r + n, consumed := s.consumed + n));
    }
  }

  lemma ReceivedCompact(s: Window, chunk: seq<Byte>)
    requires s.Valid() && Compact(s) && |chunk| <= Room(s)
    ensures Compact(Received(s, chunk))
  {
    hide Adjusted;
    ResizedContents(s, 2 * |s.bytes|);
    var u := Stored(MadeRoom(s), chunk);
    if |chunk| < |u.bytes| - u.w {
      AdjustedCompact(u.(w := u.w + |chunk|, written := u.written + |chunk|));
    }
  }

  lemma StepCompact(s: Window, op: Op)
    requires Applies(s, op) && Compact(s)
    ensures Compact(Step(s, op))
  {
    hide Written, ReadMoved, Received, Compact;
    match op
    case Write(src) => WrittenCompact(s, src);
    case Read(n) => ReadMovedCompact(s, Min(n, s.w - s.r));
    case Consume(n) => ReadMovedCompact(s, n);
    case Receive(chunk) => ReceivedCompact(s, chunk);
  }

  ghost predicate AppliesAll(s: Window, ops: seq<Op>)
    decreases |ops|
  {
    s.Valid() && (ops != [] ==> Applies(s, ops[0]) && AppliesAll(Step(s, ops[0]), ops[1..]))
  }

  /** What a buffer can be put through: anything, as long as no chunk is longer than the room for it. */
  lemma RunApplies(s: Window, op: Op, ops: seq<Op>)
    requires s.Valid() && (op.Receive? ==> |op.chunk| <= Room(s))
    ensures Applies(s, op) && AppliesAll(s, []) && (AppliesAll(s, [op] + ops) <==> AppliesAll(Step(s, op), ops))
    ensures NewWindow(|s.bytes|).Valid() && Compact(NewWindow(|s.bytes|))
  {
    hide Step;
    assert ([op] + ops)[1..] == ops;
  }

  ghost function Run(s: Window, ops: seq<Op>): Window
    requires AppliesAll(s, ops)
    decreases |ops|
  {
    if ops == [] then s else Run(Step(s, ops[0]), ops[1..])
  }

  function QueueRun(q: seq<Byte>, ops: seq<Op>): seq<Byte>
    decreases |ops|
  {
    if ops == [] then q else QueueRun(QueueStep(q, ops[0]), ops[1..])
  }

  /** A run takes its operations one after the other, on the buffer and on the queue. */
  lemma RunsStepByStep(s: Window, q: seq<Byte>, op: Op, ops: seq<Op>)
    requires Applies(s, op) && AppliesAll(Step(s, op), ops)
    ensures AppliesAll(s, [op] + ops) && Run(s, [op] + ops) == Run(Step(s, op), ops)
    ensures QueueRun(q, [op] + ops) == QueueRun(QueueStep(q, op), ops) && QueueRun(q, []) == q
  {
    hide Step, QueueStep;
    RunApplies(s, op, ops);
    assert ([op] + ops)[1..] == ops;
  }

  ghost predicate NeverFillsUp(s: Window, ops: seq<Op>)
    requires AppliesAll(s, ops)
    decreases |ops|
  {
    ops != [] ==> !FillsUp(s, ops[0]) && NeverFillsUp(Step(s, ops[0]), ops[1..])
  }

  /** The buffer holds what the queue holds, now and after every operation. */
  ghost predicate Mirrors(s: Window, q: seq<Byte>, ops: seq<Op>)
    requires AppliesAll(s, ops)
    decreases |ops|
  {
    s.Contents() == q && (ops != [] ==> Mirrors(Step(s, ops[0]), QueueStep(q, ops[0]), ops[1..]))
  }

  /** That is so over a whole run if and only if no receive fills the room to the last byte. */
  lemma {:induction false} MirrorsExactly(s: Window, ops: seq<Op>)
    requires AppliesAll(s, ops)
    ensures Mirrors(s, s.Contents(), ops) <==> NeverFillsUp(s, ops)
    decreases |ops|
  {
    hide Step, QueueStep, FillsUp;
    if ops != [] {
      StepRefinesQueue(s, ops[0]);
      MirrorsExactly(Step(s, ops[0]), ops[1..]);
    }
  }

  /** Over a whole run the buffer is an unbounded FIFO queue, whatever it compacts and grows. */
  lemma {:induction false} RunRefinesQueue(s: Window, ops: seq<Op>)
    requires AppliesAll(s, ops) && NeverFillsUp(s, ops)
    ensures Run(s, ops).Valid() && Run(s, ops).Contents() == QueueRun(s.Contents(), ops)
    decreases |ops|
  {
    if ops != [] {
      StepRefinesQueue(s, ops[0]);
      RunRefinesQueue(Step(s, ops[0]), ops[1..]);
    }
  }

  // ---------------------------------------------------------------------------------------------
  // OnRead's loop over a socket that holds `kernel`

  /** read(2) hands over as much as fits. A read that fills the room is followed by another one; the
      loop ends with the first read that leaves room, or when the socket is empty. */
  function ReadAll(s: Window, kernel: seq<Byte>): Window
    requires s.Valid() && 0 < |s.bytes|
    ensures ReadAll(s, kernel).Valid() && 0 < |ReadAll(s, kernel).bytes|
    decreases |kernel|
  {
    ResizedContents(s, 2 * |s.bytes|);
    var t := MadeRoom(s);
    if kernel == [] then t
    else
      var n := Min(Room(s), |kernel|);
      ReceivedContents(s, kernel[..n]);
      var u := Received(s, kernel[..n]);
      if n == Room(s) then ReadAll(u, kernel[n..]) else u
  }

  /** What is left of `kernel` after cutting off whole rooms. */
  function Remainder(kernel: seq<Byte>, room: nat): (k: seq<Byte>)
    requires 0 < room
    ensures |k| < room && |k| <= |kernel|
    decreases |kernel|
  {
    if |kernel| < room then kernel else Remainder(kernel[room..], room)
  }

  /** Only the remainder arrives; every whole room before it has been overwritten in place. */
  lemma {:induction false} ReadAllContents(s: Window, kernel: seq<Byte>)
    requires s.Valid() && 0 < |s.bytes|
    ensures Room(s) > 0 && ReadAll(s, kernel).Contents() == s.Contents() + Remainder(kernel, Room(s))
    decreases |kernel|
  {
    ResizedContents(s, 2 * |s.bytes|);
    var room := Room(s);
    if kernel == [] {
      assert s.Contents() + [] == s.Contents();
    } else if |kernel| < room {
      assert kernel[..|kernel|] == kernel;
      ReceivedContents(s, kernel);
    } else {
      var u := Received(s, kernel[..room]);
      ReceivedContents(s, kernel[..room]);
      assert Room(u) == room && u.Contents() == s.Contents();
      ReadAllContents(u, kernel[room..]);
    }
  }

  /** Reading everything the socket holds appends it exactly when it is shorter than the room. */
  lemma ReadAllIsLossless(s: Window, kernel: seq<Byte>)
    requires s.Valid() && 0 < |s.bytes|
    ensures ReadAll(s, kernel).Contents() == s.Contents() + kernel <==> |kernel| < Room(s)
  {
    ReadAllContents(s, kernel);
    if |kernel| >= Room(s) {
      assert |s.Contents() + Remainder(kernel, Room(s))| < |s.Contents() + kernel|;
    }
  }

  /** One full room: what is overwritten does not change what the rest of the loop does. */
  lemma ReadAllStep(s: Window, kernel: seq<Byte>)
    requires s.Valid() && 0 < |s.bytes| && kernel != []
    ensures var n := Min(Room(s), |kernel|); var u := Received(s, kernel[..n]);
      && 0 < n && u.Valid() && |u.bytes| == |MadeRoom(s).bytes|
      && if n == Room(s)
         then ReadAll(s, kernel) == ReadAll(u, kernel[n..]) && Room(u) == Room(s) &&
              Remainder(kernel, Room(s)) == Remainder(kernel[n..], Room(s))
         else ReadAll(s, kernel) == u && Remainder(kernel, Room(s)) != []
  {
    ResizedContents(s, 2 * |s.bytes|);
    ReceivedContents(s, kernel[..Min(Room(s), |kernel|)]);
  }

  /** Read-and-consume runs never need the growth branch: a buffer that has room keeps its room. */
  lemma {:induction false} ReadAllNeverGrows(s: Window, kernel: seq<Byte>)
    requires s.Valid() && s.w < |s.bytes|
    ensures var t := ReadAll(s, kernel); t.w < |t.bytes| == |s.bytes| && t.grown == s.grown
    decreases |kernel|
  {
    if kernel != [] {
      var n := Min(Room(s), |kernel|);
      ReceivedContents(s, kernel[..n]);
      if n == Room(s) {
        ReadAllNeverGrows(Received(s, kernel[..n]), kernel[n..]);
      }
    }
  }

  /** The remainder is what lies behind the last whole room of what the socket holds. */
  lemma {:induction false} RemainderIs(kernel: seq<Byte>, room: nat) returns (rooms: nat)
    requires 0 < room
    ensures rooms * room <= |kernel| < rooms * room + room && Remainder(kernel, room) == kernel[rooms * room..]
    decreases |kernel|
  {
    rooms := 0;
    if |kernel| >= room {
      var n := RemainderIs(kernel[room..], room);
      rooms := n + 1;
      assert rooms * room == n * room + room;
      assert kernel[room..][n * room..] == kernel[room + n * room..];
    }
  }

  // ---------------------------------------------------------------------------------------------
  // Amortised cost

  /** What the totals count: growing and compacting copy the bytes that stay readable. */
  lemma CopiesAreCounted(s: Window, newSize: nat)
    requires s.Valid()
    ensures var t := Resized(s, newSize); t.grown == s.grown + |t.Contents()| && t.compacted == s.compacted
    ensures var t := Adjusted(s);
      t.grown == s.grown && t.compacted == s.compacted + if s.r < |s.bytes| / 3 then 0 else |s.Contents()|
  {
  }

  /** Every byte written has been consumed or is readable. */
  lemma StepBalanced(s: Window, op: Op)
    requires Applies(s, op) && s.written == s.consumed + |s.Contents()|
    ensures var t := Step(s, op); t.Valid() && t.written == t.consumed + |t.Contents()|
    ensures op.Write? ==> Step(s, op).written == s.written + |op.src|
    ensures op.Receive? ==> Step(s, op).consumed == s.consumed
    ensures op.Consume? && op.n <= |s.Contents()| ==> Step(s, op).consumed == s.consumed + op.n
  {
    StepRefinesQueue(s, op);
    match op
    case Write(src) => WrittenCounts(s, src);
    case Read(n) => ReadMovedCounts(s, Min(n, s.w - s.r));
    case Consume(n) => ReadMovedCounts(s, n);
    case Receive(chunk) => ReceivedCounts(s, chunk);
  }

  lemma WrittenCounts(s: Window, src: seq<Byte>)
    requires s.Valid()
    ensures Written(s, src).written == s.written + |src| && Written(s, src).consumed == s.consumed
  {
    hide Resized, Stored;
    ResizedContents(s, 2 * (s.w + |src|));
    ResizedCounts(s, 2 * (s.w + |src|));
    var t := if |src| > |s.bytes| - s.w then Resized(s, 2 * (s.w + |src|)) else s;
    StoredCounts(t, src);
  }

  lemma ResizedCounts(s: Window, newSize: nat)
    requires s.Valid()
    ensures Resized(s, newSize).written == s.written && Resized(s, newSize).consumed == s.consumed
  {
  }

  lemma StoredCounts(s: Window, src: seq<Byte>)
    requires s.Valid() && s.w + |src| <= |s.bytes|
    ensures Stored(s, src).written == s.written && Stored(s, src).consumed == s.consumed && Stored(s, src).w == s.w
    ensures Stored(s, src).r == s.r && |Stored(s, src).bytes| == |s.bytes|
  {
  }

  lemma ReadMovedCounts(s: Window, n: nat)
    requires s.Valid()
    ensures ReadMoved(s, n).written == s.written
    ensures ReadMoved(s, n).consumed == if n > s.w - s.r then s.consumed else s.consumed + n
  {
  }

  lemma ReceivedCounts(s: Window, chunk: seq<Byte>)
    requires s.Valid() && |chunk| <= Room(s)
    ensures Received(s, chunk).consumed == s.consumed
    ensures Received(s, chunk).written == if |chunk| < Room(s) then s.written + |chunk| else s.written
  {
    hide Resized, Stored;
    ResizedContents(s, 2 * |s.bytes|);
    ResizedCounts(s, 2 * |s.bytes|);
    StoredCounts(MadeRoom(s), chunk);
  }

  /** Growing is paid by the writes: every byte beyond half of the capacity has two copies in hand.
      Compacting is paid by the reads: every byte the read index has passed has four. */
  ghost predicate Paid(s: Window) {
    && s.Valid() && 3 <= |s.bytes|
    && s.grown <= 2 * s.written
    && s.grown + 2 * s.w - |s.bytes| <= 2 * s.written
    && s.compacted + 4 * s.r <= 4 * s.consumed
  }

  lemma AdjustedPaid(s: Window)
    requires Paid(s)
    ensures Paid(Adjusted(s))
  {
    AdjustedContents(s);
  }

  lemma WrittenPaid(s: Window, src: seq<Byte>)
    requires Paid(s)
    ensures Paid(Written(s, src))
  {
    WrittenContents(s, src);
    if |src| > |s.bytes| - s.w {
      ResizedContents(s, 2 * (s.w + |src|));
    }
  }

  lemma MadeRoomPaid(s: Window)
    requires Paid(s)
    ensures Paid(MadeRoom(s))
  {
    ResizedContents(s, 2 * |s.bytes|);
  }

  lemma WriteMovedPaid(s: Window, n: nat)
    requires Paid(s)
    ensures Paid(WriteMoved(s, n))
  {
    if n < |s.bytes| - s.w {
      var t := s.(w := s.w + n, written := s.written + n);
      assert Paid(t);
      AdjustedPaid(t);
    }
  }

  lemma ReadMovedPaid(s: Window, n: nat)
    requires Paid(s)
    ensures Paid(ReadMoved(s, n))
  {
    if n <= s.w - s.r {
      AdjustedPaid(s.(r := s.r + n, consumed := s.consumed + n));
    }
  }

  lemma ReceivedPaid(s: Window, chunk: seq<Byte>)
    requires Paid(s) && |chunk| <= Room(s)
    ensures Paid(Received(s, chunk))
  {
    MadeRoomPaid(s);
    WriteMovedPaid(Stored(MadeRoom(s), chunk), |chunk|);
  }

  lemma StepPaid(s: Window, op: Op)
    requires Applies(s, op) && Paid(s)
    ensures Paid(Step(s, op))
  {
    match op
    case Write(src) => WrittenPaid(s, src);
    case Read(n) => ReadMovedPaid(s, Min(n, s.w - s.r));
    case Consume(n) => ReadMovedPaid(s, n);
    case Receive(chunk) => ReceivedPaid(s, chunk);
  }

  /** From an empty buffer of at least three bytes, over any run: growing copies at most twice the
      bytes written, compacting at most four times the bytes consumed. */
  lemma {:induction false} AmortisedCopying(size: nat, ops: seq<Op>)
    requires 3 <= size && AppliesAll(NewWindow(size), ops)
    ensures var t := Run(NewWindow(size), ops); t.grown <= 2 * t.written && t.compacted <= 4 * t.consumed
  {
    RunPaid(NewWindow(size), ops);
  }

  lemma {:induction false} RunPaid(s: Window, ops: seq<Op>)
    requires AppliesAll(s, ops) && Paid(s)
    ensures Paid(Run(s, ops))
    decreases |ops|
  {
    if ops != [] {
      StepPaid(s, ops[0]);
      RunPaid(Step(s, ops[0]), ops[1..]);
    }
  }

  /** The size bound cannot be dropped: in a buffer of two bytes a single unread byte is compacted over
      and over while nothing is consumed. */
  lemma TinyBufferOvercharges(s: Window)
    requires s.Valid() && s.r == 0 && s.w == 1 && |s.bytes| == 2
    ensures var t := Step(s, Consume(0));
      t.r == 0 && t.w == 1 && |t.bytes| == 2 && t.compacted == s.compacted + 1 && t.consumed == s.consumed
  {
  }

  // ---------------------------------------------------------------------------------------------
  // The class

  class TCPBuffer {
    var myReadIndex: nat
    var myWriteIndex: nat
    var mySize: nat
    var myBuffer: array<Byte>
    ghost var written: nat
    ghost var consumed: nat
    ghost var grown: nat
    ghost var compacted: nat

    ghost predicate Valid()
      reads this
    {
      myReadIndex <= myWriteIndex <= mySize == myBuffer.Length
    }

    ghost function State(): Window
      reads this, myBuffer
    {
      Window(myBuffer[..], myReadIndex, myWriteIndex, written, consumed, grown, compacted)
    }

    ghost function Contents(): seq<Byte>
      reads this, myBuffer
      requires Valid()
    {
      State().Contents()
    }

    constructor (size: nat)
      ensures Valid() && fresh(myBuffer) && State() == NewWindow(size) && Contents() == []
    {
      mySize := size;
      myBuffer := new Byte[size](_ => 0);
      myReadIndex, myWriteIndex := 0, 0;
      written, consumed, grown, compacted := 0, 0, 0, 0;
      new;
      assert myBuffer[..] == Zeros(size);
    }

    function ReadRemain(): nat
      reads this
      requires Valid()
    {
      myWriteIndex - myReadIndex
    }

    function WriteRemain(): nat
      reads this
      requires Valid()
    {
      mySize - myWriteIndex
    }

    method WriteToBuffer(src: seq<Byte>) returns (count: nat)
      requires Valid()
      modifies this, myBuffer
      ensures Valid() && (myBuffer == old(myBuffer) || fresh(myBuffer))
      ensures State() == Written(old(State()), src)
      ensures Contents() == old(Contents()) + src && count == |src| && myReadIndex <= old(myReadIndex)
    {
      hide Resized, Stored, Written, Zeros;
      ghost var s := State();
      if |src| > WriteRemain() {
        var newSize := 2 * (myWriteIndex + |src|);
        ResizedContents(s, newSize);
        var _ := ResizeBuffer(newSize);
      }
      ghost var t := State();
      StoreAtWriteIndex(src);
      myWriteIndex := myWriteIndex + |src|;
      written := written + |src|;
      count := |src|;
      WrittenIsStored(s, t, src);
      WrittenContents(s, src);
    }

    /** The memcpy of WriteToBuffer, and the effect of read(2) on the vector in OnRead. */
    method StoreAtWriteIndex(src: seq<Byte>)
      requires Valid() && |src| <= WriteRemain()
      modifies myBuffer
      ensures State() == Stored(old(State()), src)
    {
      forall i | 0 <= i < |src| {
        myBuffer[myWriteIndex + i] := src[i];
      }
      assert myBuffer[..] == old(myBuffer[..myWriteIndex]) + src + old(myBuffer[myWriteIndex + |src|..]);
    }

    /** When nothing is readable the destination vector is left as it was. */
    method ReadFromBuffer(dest: seq<Byte>, size: nat) returns (dest': seq<Byte>, count: nat)
      requires Valid()
      modifies this
      ensures Valid() && (myBuffer == old(myBuffer) || fresh(myBuffer))
      ensures State() == Taken(old(State()), size)
      ensures count == Min(size, |old(Contents())|)
      ensures dest' == if old(Contents()) == [] then dest else old(Contents())[..count]
      ensures Contents() == old(Contents())[count..]
    {
      hide Adjusted;
      ghost var s := State();
      if ReadRemain() == 0 {
        return dest, 0;
      }
      var readAble := if ReadRemain() > size then size else ReadRemain();
      dest' := myBuffer[myReadIndex..myReadIndex + readAble];
      ContentsHead(s, readAble);
      myReadIndex := myReadIndex + readAble;
      consumed := consumed + readAble;
      var _ := AdjustBuffer();
      count := readAble;
      assert State() == ReadMoved(s, readAble);
      ReadMovedContents(s, readAble);
    }

    /** A new zeroed vector, with the first `count` readable bytes copied to its front. */
    method CopyReadable(size: nat, count: nat) returns (tmp: array<Byte>)
      requires Valid() && count <= ReadRemain() && count <= size
      ensures fresh(tmp) && tmp.Length == size
      ensures tmp[..] == State().bytes[myReadIndex..myReadIndex + count] + Zeros(size - count)
    {
      tmp := new Byte[size](_ => 0);
      forall i | 0 <= i < count {
        tmp[i] := myBuffer[myReadIndex + i];
      }
    }

    method ResizeBuffer(newSize: nat) returns (ok: int)
      requires Valid()
      modifies this
      ensures Valid() && fresh(myBuffer) && ok == 1
      ensures State() == Resized(old(State()), newSize)
      ensures Contents() == old(Contents())[..Min(|old(Contents())|, newSize)]
    {
      var count := Min(ReadRemain(), newSize);
      var tmp := CopyReadable(newSize, count);
      myBuffer := tmp;
      myReadIndex := 0;
      myWriteIndex := myReadIndex + count;
      mySize := newSize;
      grown := grown + count;
      ok := 1;
    }

    method AdjustBuffer() returns (moved: int)
      requires Valid()
      modifies this
      ensures Valid() && (myBuffer == old(myBuffer) || fresh(myBuffer))
      ensures State() == Adjusted(old(State())) && Contents() == old(Contents())
      ensures moved == if old(myReadIndex) < old(mySize) / 3 then 0 else 1
    {
      if myReadIndex < mySize / 3 {
        return 0;
      }
      ghost var s := State();
      var count := ReadRemain();
      var tmp := CopyReadable(mySize, count);
      myBuffer := tmp;
      myReadIndex := 0;
      myWriteIndex := myReadIndex + count;
      compacted := compacted + count;
      moved := 1;
      assert myBuffer[..] == s.bytes[s.r..s.w] + Zeros(|s.bytes| - count);
      AdjustedContents(s);
    }

    method MoveReadIndex(size: nat) returns (ok: int)
      requires Valid()
      modifies this
      ensures Valid() && (myBuffer == old(myBuffer) || fresh(myBuffer))
      ensures State() == ReadMoved(old(State()), size)
      ensures ok == if size > |old(Contents())| then -1 else 1
      ensures Contents() == if size > |old(Contents())| then old(Contents()) else old(Contents())[size..]
    {
      hide Adjusted;
      ReadMovedContents(State(), size);
      if size > ReadRemain() {
        return -1;
      }
      myReadIndex := myReadIndex + size;
      consumed := consumed + size;
      var _ := AdjustBuffer();
      ok := 1;
    }

    method MoveWriteIndex(size: nat) returns (ok: int)
      requires Valid()
      modifies this
      ensures Valid() && (myBuffer == old(myBuffer) || fresh(myBuffer))
      ensures State() == WriteMoved(old(State()), size)
      ensures ok == if size >= old(WriteRemain()) then -1 else 1
    {
      hide Adjusted;
      if size >= WriteRemain() {
        return -1;
      }
      myWriteIndex := myWriteIndex + size;
      written := written + size;
      var _ := AdjustBuffer();
      ok := 1;
    }
  }
}
