// The framed serial link: send_frame of tools/kernel_prog.py on the host, and the receiver of
// bootloader/src/frame.c on the target.
module Frames {
  import opened Bytes
  import opened Crc

  const START_BYTE: Byte := 0xAA
  const END_BYTE: Byte := 0x55
  const MAX_PAYLOAD: nat := 512
  const MAX_SIZE: nat := 513        // the byte behind the payload is the frame's fcs field

  const RESP_OK: Byte := 0x00
  const RESP_ERROR: Byte := 0x01
  const RESP_FLASH_ERROR: Byte := 0x08
  const RESP_FCS_ERROR: Byte := 0x10
  const RESP_FRAME_ERROR: Byte := 0x40

  // ---------- the host ----------

  function Header(cmd: Byte, n: nat): seq<Byte> { [cmd, Low(n), Low(n / 0x100)] }

  function Frame(cmd: Byte, payload: seq<Byte>): seq<Byte> {
    [START_BYTE] + Header(cmd, |payload|) + payload + [Fcs(Header(cmd, |payload|) + payload), END_BYTE]
  }

  // calculate_fcs
  method CalculateFcs(data: seq<Byte>) returns (crc: Byte)
    ensures crc == Fcs(data)
  {
    hide Xor, Shifts;
    crc := 0;
    for i := 0 to |data|
      invariant crc == From(0, data[..i], POLYNOMIAL)
    {
      FromAppend(0, data[..i], data[i], POLYNOMIAL);
      assert data[..i + 1] == data[..i] + [data[i]];
      crc := ShiftByte(Xor(crc, data[i]), POLYNOMIAL);
    }
    assert data[..|data|] == data;
  }

  // The bytes send_frame writes to the serial port
  method SendFrame(cmd: Byte, payload: seq<Byte>) returns (bytes: seq<Byte>)
    requires |payload| < 0x1_0000
    ensures bytes == Frame(cmd, payload)
  {
    hide Low, Fcs;
    var size := [Low(|payload|), Low(|payload| / 0x100)];
    assert [cmd] + size + payload == Header(cmd, |payload|) + payload;
    var fcs := CalculateFcs([cmd] + size + payload);
    assert [cmd] + size == Header(cmd, |payload|);
    bytes := [START_BYTE] + ([cmd] + size) + payload + [fcs, END_BYTE];
  }

  // ---------- the receiver as a state machine ----------

  datatype Bus = Idle | Cmd | Size | Payload | Check | End

  // overflow: a byte has been written behind the frame structure; what that does to the rest
  // of the memory is not part of the model, which stops there.
  datatype Rx = Rx(bus: Bus, cmd: Byte, size: nat, payload: seq<Byte>, fcs: Byte, index: nat,
                   received: bool, sent: seq<Byte>, overflow: bool)

  function Respond(s: Rx, code: Byte): Rx { s.(received := false, sent := s.sent + [code]) }

  // The bytes the receiver sums up: the packed structure from the command on.
  function Summed(s: Rx): seq<Byte>
    requires s.size <= |s.payload| + 1
  {
    Header(s.cmd, s.size) + (s.payload + [s.fcs])[..s.size]
  }

  ghost predicate Ok(s: Rx) {
    && |s.payload| == MAX_PAYLOAD
    && (s.bus == Size ==> s.index < 2 && (if s.index == 0 then s.size == 0 else s.size < 0x100))
    && (s.bus == Payload || s.bus == Check || s.bus == End ==> s.size < 0x1_0000)
    && (s.bus == Check || s.bus == End ==> s.size <= MAX_SIZE)
    && (s.bus == Payload ==>
          s.index <= MAX_SIZE && (s.size > 0 ==> s.index < s.size) && (s.size == 0 ==> s.index == 0))
  }

  ghost function Step(s: Rx, data: Byte): Rx
    requires Ok(s)
  {
    if s.overflow then s
    else match s.bus
      case Idle => (if data == 0 then Respond(s, RESP_OK) else s).(bus := if data == START_BYTE then Cmd else Idle)
      case Cmd => s.(cmd := data, bus := Size, index := 0, size := 0)
      case Size =>
        if s.index == 0 then s.(size := Val(data), index := 1)
        else s.(size := s.size + Val(data) * 0x100, index := 0, bus := Payload)
      case Payload =>
        if s.index > MAX_PAYLOAD then s.(overflow := true)
        else
          var t := if s.index < MAX_PAYLOAD then s.(payload := s.payload[s.index := data]) else s.(fcs := data);
          t.(index := s.index + 1, bus := if s.index + 1 >= s.size then Check else Payload)
      case Check => s.(fcs := data, bus := End)
      case End =>
        if data != END_BYTE then Respond(s, RESP_ERROR | RESP_FRAME_ERROR).(bus := Idle)
        else if Fcs(Summed(s)) == s.fcs then s.(received := true, bus := Idle)
        else Respond(s, RESP_ERROR | RESP_FCS_ERROR).(bus := Idle)
  }

  lemma PayloadOk(s: Rx, data: Byte)
    requires Ok(s) && s.bus == Payload
    ensures Ok(Step(s, data))
  {
    hide Val, Fcs, Header, Low, Summed;
  }

  lemma OtherOk(s: Rx, data: Byte)
    requires Ok(s) && s.bus != Payload
    ensures Ok(Step(s, data))
  {
    hide Val, Fcs, Header, Low, Summed;
  }

  lemma StepOk(s: Rx, data: Byte)
    requires Ok(s)
    ensures Ok(Step(s, data))
  {
    hide Ok, Step;
    if s.bus == Payload {
      PayloadOk(s, data);
    } else {
      OtherOk(s, data);
    }
  }

  ghost function Feed(s: Rx, bytes: seq<Byte>): (r: Rx)
    requires Ok(s)
    ensures Ok(r)
    decreases |bytes|
  {
    if bytes == [] then s else (StepOk(s, bytes[0]); Feed(Step(s, bytes[0]), bytes[1..]))
  }

  // The timer expires.
  function Timeout(s: Rx): Rx { s.(bus := Idle) }

  lemma {:induction false} FeedConcat(s: Rx, a: seq<Byte>, b: seq<Byte>)
    requires Ok(s)
    ensures Feed(s, a + b) == Feed(Feed(s, a), b)
    decreases |a|
  {
    hide Step, Ok;
    if a == [] {
      assert a + b == b;
    } else {
      StepOk(s, a[0]);
      assert (a + b)[1..] == a[1..] + b;
      FeedConcat(Step(s, a[0]), a[1..], b);
    }
  }

  // ---------- what a frame does to the receiver ----------

  // The receiver after the start byte, the command and the size of a payload of n bytes.
  ghost function Opened(s: Rx, cmd: Byte, n: nat): Rx {
    s.(bus := Payload, cmd := cmd, size := n, index := 0)
  }

  lemma FeedHeader(s: Rx, cmd: Byte, n: nat)
    requires Ok(s) && s.bus == Idle && !s.overflow && n <= MAX_PAYLOAD
    ensures Feed(s, [START_BYTE] + Header(cmd, n)) == Opened(s, cmd, n)
  {
    hide Ok, Respond;
    hide Val, Low, Fcs;
    var lo, hi := Low(n), Low(n / 0x100);
    assert [START_BYTE] + Header(cmd, n) == [START_BYTE, cmd, lo, hi];
    FeedFour(s, START_BYTE, cmd, lo, hi);
    hide Feed;
    Le16Low(n);
    var s2 := s.(bus := Size, cmd := cmd, index := 0, size := 0);
    assert Step(Step(s, START_BYTE), cmd) == s2;
    assert Step(Step(s2, lo), hi) == Opened(s, cmd, n);
  }

  lemma FeedOne(s: Rx, b: Byte)
    requires Ok(s)
    ensures Feed(s, [b]) == Step(s, b)
  {
    hide Step, Ok;
    StepOk(s, b);
    assert [b][1..] == [];
  }

  lemma FeedTwo(s: Rx, a: Byte, b: Byte)
    requires Ok(s)
    ensures Ok(Step(s, a)) && Feed(s, [a, b]) == Step(Step(s, a), b)
  {
    hide Step, Ok;
    StepOk(s, a);
    assert [a, b] == [a] + [b];
    FeedConcat(s, [a], [b]);
    FeedOne(s, a);
    FeedOne(Step(s, a), b);
  }

  lemma FeedFour(s: Rx, a: Byte, b: Byte, c: Byte, d: Byte)
    requires Ok(s)
    ensures Ok(Step(s, a)) && Ok(Step(Step(s, a), b)) && Ok(Step(Step(Step(s, a), b), c))
    ensures Feed(s, [a, b, c, d]) == Step(Step(Step(Step(s, a), b), c), d)
  {
    hide Step, Ok;
    FeedTwo(s, a, b);
    StepOk(Step(s, a), b);
    FeedTwo(Step(Step(s, a), b), c, d);
    assert [a, b, c, d] == [a, b] + [c, d];
    FeedConcat(s, [a, b], [c, d]);
  }

  // The payload ends up in the buffer, and what was behind it stays.
  ghost function Filled(s: Rx, data: seq<Byte>): Rx
    requires s.index + |data| <= |s.payload|
  {
    s.(payload := Splice(s.payload, s.index, data), index := s.index + |data|,
       bus := if s.index + |data| >= s.size then Check else Payload)
  }

  lemma StepPayload(s: Rx, data: Byte)
    requires Ok(s) && s.bus == Payload && !s.overflow && s.index < s.size <= MAX_PAYLOAD
    ensures Step(s, data) == s.(payload := s.payload[s.index := data], index := s.index + 1,
                                bus := if s.index + 1 >= s.size then Check else Payload)
    ensures Ok(Step(s, data))
  {
    StepOk(s, data);
  }

  lemma {:induction false} FeedPayload(s: Rx, data: seq<Byte>)
    requires Ok(s) && s.bus == Payload && !s.overflow && data != [] && s.size <= MAX_PAYLOAD
    requires s.index + |data| <= s.size
    ensures Feed(s, data) == Filled(s, data)
    decreases |data|
  {
    hide Step, Splice, Summed;
    StepPayload(s, data[0]);
    SpliceFirst(s.payload, s.index, data);
    if |data| == 1 {
      SpliceNone(s.payload[s.index := data[0]], s.index + 1);
    } else {
      FeedPayload(Step(s, data[0]), data[1..]);
    }
  }

  lemma SpliceNone(p: seq<Byte>, i: nat)
    requires i <= |p|
    ensures Splice(p, i, []) == p
  {
  }

  function Splice(p: seq<Byte>, i: nat, data: seq<Byte>): seq<Byte>
    requires i + |data| <= |p|
  {
    p[..i] + data + p[i + |data|..]
  }

  lemma SpliceFirst(p: seq<Byte>, i: nat, data: seq<Byte>)
    requires data != [] && i + |data| <= |p|
    ensures Splice(p, i, data) == Splice(p[i := data[0]], i + 1, data[1..])
  {
    var q := p[i := data[0]];
    assert q[..i + 1] == p[..i] + [data[0]];
    assert q[i + |data|..] == p[i + |data|..];
    assert data == [data[0]] + data[1..];
  }

  // The receiver has taken in a frame.
  ghost predicate Took(s: Rx, cmd: Byte, payload: seq<Byte>, r: Rx) {
    && r.bus == Idle && r.received && !r.overflow && r.sent == s.sent
    && r.cmd == cmd && r.size == |payload| <= |r.payload| && r.payload[..r.size] == payload
  }

  // The receiver has turned a frame down.
  ghost predicate Refused(s: Rx, code: Byte, r: Rx) {
    r.bus == Idle && !r.received && !r.overflow && r.sent == s.sent + [code]
  }

  lemma FeedTail(s: Rx, fcs: Byte)
    requires Ok(s) && s.bus == Check && !s.overflow && s.size <= MAX_PAYLOAD
    ensures var t := s.(fcs := fcs, bus := Idle);
            Feed(s, [fcs, END_BYTE]) ==
            if Fcs(Summed(s)) == fcs then t.(received := true) else Respond(t, RESP_ERROR | RESP_FCS_ERROR)
  {
    hide Fcs, Feed;
    FeedTwo(s, fcs, END_BYTE);
    assert (s.payload + [fcs])[..s.size] == (s.payload + [s.fcs])[..s.size];
    assert Summed(Step(s, fcs)) == Summed(s);
  }

  // The bytes of a frame with a given check byte.
  function FrameWith(cmd: Byte, payload: seq<Byte>, fcs: Byte): seq<Byte> {
    [START_BYTE] + Header(cmd, |payload|) + payload + [fcs, END_BYTE]
  }

  lemma FeedFrame(s: Rx, cmd: Byte, payload: seq<Byte>, fcs: Byte)
    requires Ok(s) && s.bus == Idle && !s.overflow && 1 <= |payload| <= MAX_PAYLOAD
    ensures var r := Feed(s, FrameWith(cmd, payload, fcs));
            if fcs == Fcs(Header(cmd, |payload|) + payload) then Took(s, cmd, payload, r)
            else Refused(s, RESP_ERROR | RESP_FCS_ERROR, r)
  {
    hide Fcs, Header, Step, Feed;
    var head, tail := [START_BYTE] + Header(cmd, |payload|), [fcs, END_BYTE];
    FeedConcat(s, head + payload, tail);
    FeedConcat(s, head, payload);
    FeedHeader(s, cmd, |payload|);
    var o := Opened(s, cmd, |payload|);
    FeedPayload(o, payload);
    var f := Filled(o, payload);
    assert f.payload[..f.size] == payload;
    assert (f.payload + [f.fcs])[..f.size] == payload;
    FeedTail(f, fcs);
  }

  // A frame that ends in another byte than 0x55 is refused with the frame error, whatever else it
  // holds.
  lemma WrongEnd(s: Rx, cmd: Byte, payload: seq<Byte>, fcs: Byte, end: Byte)
    requires Ok(s) && s.bus == Idle && !s.overflow && 1 <= |payload| <= MAX_PAYLOAD && end != 0x55
    ensures var frame := [START_BYTE] + Header(cmd, |payload|) + payload + [fcs, end];
            Refused(s, 0x41, Feed(s, frame))
  {
    hide Fcs, Header, Step, Feed;
    var head, tail := [START_BYTE] + Header(cmd, |payload|), [fcs, end];
    FeedConcat(s, head + payload, tail);
    FeedConcat(s, head, payload);
    FeedHeader(s, cmd, |payload|);
    var o := Opened(s, cmd, |payload|);
    FeedPayload(o, payload);
    WrongTail(Filled(o, payload), fcs, end);
  }

  lemma WrongTail(s: Rx, fcs: Byte, end: Byte)
    requires Ok(s) && s.bus == Check && !s.overflow && s.size <= MAX_PAYLOAD && end != END_BYTE
    ensures Feed(s, [fcs, end]) == Respond(s.(fcs := fcs, bus := Idle), 0x41)
  {
    hide Fcs, Feed;
    FeedTwo(s, fcs, end);
    assert RESP_ERROR | RESP_FRAME_ERROR == 0x41;
  }

  // Between frames a zero byte is answered, and every byte but 0x00 and 0xAA is passed over.
  lemma {:induction false} BetweenFrames(s: Rx, b: seq<Byte>)
    requires Ok(s) && s.bus == Idle && !s.overflow && 0xAA !in b
    ensures var r := Feed(s, b);
            && r.bus == Idle && !r.overflow && r.payload == s.payload && r.cmd == s.cmd
            && r.received == (s.received && 0x00 !in b) && r.sent == s.sent + Answers(b)
    decreases |b|
  {
    if b != [] {
      assert b == [b[0]] + b[1..];
      StepOk(s, b[0]);
      BetweenFrames(Step(s, b[0]), b[1..]);
    }
  }

  // One response 0x00 for each zero byte
  function Answers(b: seq<Byte>): seq<Byte> {
    if b == [] then [] else (if b[0] == 0 then [0x00] else []) + Answers(b[1..])
  }

  // What goes over the line for a command with four bytes of zeros.
  lemma OnTheLine()
    ensures Frame(0x06, [0x00, 0x00, 0x00, 0x00])
            == [0xAA, 0x06, 0x04, 0x00, 0x00, 0x00, 0x00, 0x00, Fcs([0x06, 0x04, 0x00, 0x00, 0x00, 0x00, 0x00]), 0x55]
  {
    hide Fcs;
    LowFour();
    assert Header(0x06, 4) + [0x00, 0x00, 0x00, 0x00] == [0x06, 0x04, 0x00, 0x00, 0x00, 0x00, 0x00];
  }

  lemma LowFour()
    ensures Low(4) == 0x04 && Low(4 / 0x100) == 0x00
  {
  }

  // Every frame the host sends from 1 to 512 bytes is received as it was sent.
  lemma RoundTrip(s: Rx, cmd: Byte, payload: seq<Byte>)
    requires Ok(s) && s.bus == Idle && !s.overflow && 1 <= |payload| <= MAX_PAYLOAD
    ensures Took(s, cmd, payload, Feed(s, Frame(cmd, payload)))
  {
    hide Fcs, Took;
    FeedFrame(s, cmd, payload, Fcs(Header(cmd, |payload|) + payload));
    assert Frame(cmd, payload) == FrameWith(cmd, payload, Fcs(Header(cmd, |payload|) + payload));
  }

  // A frame without payload is taken for one with a payload of a byte: the receiver is still
  // waiting when the frame is over. Of the frames a host may send, no other does that.
  lemma EmptyFrame(s: Rx, cmd: Byte, payload: seq<Byte>)
    requires Ok(s) && s.bus == Idle && !s.overflow && |payload| <= MAX_PAYLOAD
    ensures Feed(s, Frame(cmd, payload)).bus == Idle <==> |payload| >= 1
  {
    if |payload| >= 1 {
      RoundTrip(s, cmd, payload);
    } else {
      var fcs := Fcs(Header(cmd, 0) + payload);
      var head := [START_BYTE] + Header(cmd, 0);
      assert Frame(cmd, payload) == head + [fcs, END_BYTE];
      FeedConcat(s, head, [fcs, END_BYTE]);
      FeedHeader(s, cmd, 0);
      EmptyTail(Opened(s, cmd, 0), fcs);
    }
  }

  lemma EmptyTail(s: Rx, fcs: Byte)
    requires Ok(s) && s.bus == Payload && s.size == 0 && !s.overflow
    ensures Feed(s, [fcs, END_BYTE]).bus == End
  {
    hide Fcs, Feed;
    FeedTwo(s, fcs, END_BYTE);
  }

  // A frame in which one byte of the payload has been altered is refused, unless the byte was
  // altered by 0xB3, in which case the altered payload is taken for the real one.
  lemma AlteredPayload(s: Rx, cmd: Byte, payload: seq<Byte>, k: nat, m: Byte)
    requires Ok(s) && s.bus == Idle && !s.overflow && 1 <= |payload| <= MAX_PAYLOAD && k < |payload| && m != 0
    ensures var altered := payload[k := Xor(payload[k], m)];
            var r := Feed(s, FrameWith(cmd, altered, Fcs(Header(cmd, |payload|) + payload)));
            if m == 0xB3 then Took(s, cmd, altered, r) else Refused(s, RESP_ERROR | RESP_FCS_ERROR, r)
  {
    hide Fcs, Header, Xor, Took, Refused;
    var altered := payload[k := Xor(payload[k], m)];
    var h := Header(cmd, |payload|);
    HeaderLength(cmd, |payload|);
    FeedFrame(s, cmd, altered, Fcs(h + payload));
    OneByteAltered(h + payload, 3 + k, m);
    assert (h + payload)[3 + k] == payload[k];
    assert (h + payload)[3 + k := Xor(payload[k], m)] == h + altered;
  }

  lemma HeaderLength(cmd: Byte, n: nat)
    ensures |Header(cmd, n)| == 3
  {
  }

  // ---------- bytes that are no frame ----------

  function Most(a: nat, b: nat): nat { if a >= b then a else b }

  // Read as the receiver reads them from the idle state, do the bytes write behind the frame
  // structure? They do exactly if a frame that claims more than 513 bytes goes on for so long.
  ghost predicate Overruns(b: seq<Byte>)
    decreases |b|
  {
    if b == [] then false
    else if b[0] != START_BYTE then Overruns(b[1..])
    else
      |b| >= 4 &&
      var size := Le16(b[2], b[3]);
      if size > MAX_SIZE then |b| - 4 > MAX_SIZE
      else |b| >= 6 + Most(size, 1) && Overruns(b[6 + Most(size, 1)..])
  }

  // The same from any state.
  ghost predicate OverrunsFrom(s: Rx, b: seq<Byte>)
    requires Ok(s)
  {
    match s.bus
    case Idle => Overruns(b)
    case Cmd => Overruns([START_BYTE] + b)
    case Size =>
      if s.index == 0 then Overruns([START_BYTE, 0] + b)
      else
        |b| >= 1 &&
        var size := s.size + Val(b[0]) * 0x100;
        if size > MAX_SIZE then |b| - 1 > MAX_SIZE
        else |b| >= 3 + Most(size, 1) && Overruns(b[3 + Most(size, 1)..])
    case Payload =>
      if s.size > MAX_SIZE then s.index + |b| > MAX_SIZE
      else
        var left := Most(s.size, 1) - s.index + 2;
        |b| >= left && Overruns(b[left..])
    case Check => |b| >= 2 && Overruns(b[2..])
    case End => |b| >= 1 && Overruns(b[1..])
  }

  lemma NothingOverruns(s: Rx)
    requires Ok(s)
    ensures !OverrunsFrom(s, [])
  {
    hide Le16, Low;
  }

  lemma OverrunHeader(s: Rx, b: seq<Byte>)
    requires Ok(s) && !s.overflow && b != [] && (s.bus == Idle || s.bus == Cmd || s.bus == Size)
    ensures Ok(Step(s, b[0])) && !Step(s, b[0]).overflow
    ensures OverrunsFrom(Step(s, b[0]), b[1..]) <==> OverrunsFrom(s, b)
  {
    hide Low, Fcs, Val;
    StepOk(s, b[0]);
    match s.bus
    case Idle => if b[0] == START_BYTE { assert b == [START_BYTE] + b[1..]; }
    case Cmd => OverrunCmd(b);
    case Size => if s.index == 0 { OverrunLow(s, b); } else { OverrunHigh(s, b); }
  }

  // The command byte is not looked at.
  lemma OverrunCmd(b: seq<Byte>)
    requires b != []
    ensures Overruns([START_BYTE] + b) <==> Overruns([START_BYTE, 0] + b[1..])
  {
    hide Le16;
    var x, y := [START_BYTE] + b, [START_BYTE, 0] + b[1..];
    assert forall i :: 0 <= i < |x| && i != 1 ==> x[i] == y[i];
    assert forall n :: 2 <= n <= |x| ==> x[n..] == y[n..];
  }

  // The low byte of the size
  lemma OverrunLow(s: Rx, b: seq<Byte>)
    requires Ok(s) && !s.overflow && b != [] && s.bus == Size && s.index == 0
    ensures OverrunsFrom(Step(s, b[0]), b[1..]) <==> OverrunsFrom(s, b)
  {
    hide Low, Fcs, Val;
    var x := [START_BYTE, 0] + b;
    assert x[2] == b[0] && (|b| >= 2 ==> x[3] == b[1]);
    if |b| >= 2 {
      var n := Most(Le16(b[0], b[1]), 1);
      if |b| >= 4 + n { assert x[6 + n..] == b[1..][3 + n..]; }
    }
  }

  // The high byte of the size
  lemma OverrunHigh(s: Rx, b: seq<Byte>)
    requires Ok(s) && !s.overflow && b != [] && s.bus == Size && s.index == 1
    ensures OverrunsFrom(Step(s, b[0]), b[1..]) <==> OverrunsFrom(s, b)
  {
    hide Low, Fcs, Val, Overruns;
    var t := Step(s, b[0]);
    var n := Most(t.size, 1);
    if t.size <= MAX_SIZE && |b| >= 3 + n { assert b[3 + n..] == b[1..][n + 2..]; }
  }

  lemma OverrunPayload(s: Rx, b: seq<Byte>)
    requires Ok(s) && !s.overflow && b != [] && s.bus == Payload
    ensures Ok(Step(s, b[0]))
    ensures Step(s, b[0]).overflow || OverrunsFrom(Step(s, b[0]), b[1..]) <==> OverrunsFrom(s, b)
  {
    hide Low, Fcs, Val, Le16, Overruns, Summed;
    StepOk(s, b[0]);
    var left := Most(s.size, 1) - s.index + 2;
    if s.size <= MAX_SIZE && |b| >= left { assert b[left..] == b[1..][left - 1..]; }
  }

  lemma OverrunTail(s: Rx, b: seq<Byte>)
    requires Ok(s) && !s.overflow && b != [] && (s.bus == Check || s.bus == End)
    ensures Ok(Step(s, b[0]))
    ensures Step(s, b[0]).overflow || OverrunsFrom(Step(s, b[0]), b[1..]) <==> OverrunsFrom(s, b)
  {
    hide Low, Fcs, Val, Le16, Overruns, Summed;
    StepOk(s, b[0]);
    if s.bus == Check && |b| >= 2 {
      assert b[2..] == b[1..][1..];
    }
  }

  // The bytes decide, in every state of the receiver, whether it writes behind its frame.
  lemma {:induction false} OverflowExactly(s: Rx, b: seq<Byte>)
    requires Ok(s) && !s.overflow
    ensures Feed(s, b).overflow <==> OverrunsFrom(s, b)
    decreases |b|
  {
    hide Step, Ok, OverrunsFrom;
    if b == [] {
      NothingOverruns(s);
    } else {
      StepOk(s, b[0]);
      OverrunStep(s, b);
      if Step(s, b[0]).overflow {
        StaysOver(Step(s, b[0]), b[1..]);
      } else {
        OverflowExactly(Step(s, b[0]), b[1..]);
      }
    }
  }

  lemma OverrunStep(s: Rx, b: seq<Byte>)
    requires Ok(s) && !s.overflow && b != []
    ensures Ok(Step(s, b[0]))
    ensures Step(s, b[0]).overflow || OverrunsFrom(Step(s, b[0]), b[1..]) <==> OverrunsFrom(s, b)
  {
    hide Step, Ok, OverrunsFrom;
    if s.bus == Idle || s.bus == Cmd || s.bus == Size {
      OverrunHeader(s, b);
    } else if s.bus == Payload {
      OverrunPayload(s, b);
    } else {
      OverrunTail(s, b);
    }
  }

  lemma {:induction false} StaysOver(s: Rx, b: seq<Byte>)
    requires Ok(s) && s.overflow
    ensures Feed(s, b) == s
    decreases |b|
  {
    hide Fcs, Val, Ok;
    if b != [] {
      StepOk(s, b[0]);
      StaysOver(s, b[1..]);
    }
  }

  // Whatever the receiver was doing and whatever bytes came, after a timeout the next frame is
  // received, exactly unless those bytes have run over the frame structure.
  lemma AfterGarbage(s: Rx, garbage: seq<Byte>, cmd: Byte, payload: seq<Byte>)
    requires Ok(s) && !s.overflow && 1 <= |payload| <= MAX_PAYLOAD
    ensures var t := Timeout(Feed(s, garbage));
            && Ok(t) && (t.overflow <==> OverrunsFrom(s, garbage))
            && (!OverrunsFrom(s, garbage) <==> Took(t, cmd, payload, Feed(t, Frame(cmd, payload))))
  {
    hide Step, OverrunsFrom, Frame;
    OverflowExactly(s, garbage);
    var t := Timeout(Feed(s, garbage));
    if t.overflow {
      StaysOver(t, Frame(cmd, payload));
    } else {
      RoundTrip(t, cmd, payload);
    }
  }

  // From an idle receiver it takes more than 517 bytes to run over.
  lemma {:induction false} ShortGarbage(b: seq<Byte>)
    requires |b| <= 517
    ensures !Overruns(b)
    decreases |b|
  {
    hide Le16;
    if b != [] && b[0] != START_BYTE {
      ShortGarbage(b[1..]);
    } else if |b| >= 4 {
      var n := 6 + Most(Le16(b[2], b[3]), 1);
      if |b| >= n { ShortGarbage(b[n..]); }
    }
  }

  // 518 bytes are enough: a header that claims 65535 bytes, and 514 more.
  lemma OversizedFrame(data: seq<Byte>)
    ensures Overruns([START_BYTE, 0x00, 0xFF, 0xFF] + data) <==> |data| > 513
  {
    var b := [START_BYTE, 0x00, 0xFF, 0xFF] + data;
    assert b[0] == START_BYTE && b[2] == 0xFF && b[3] == 0xFF;
    assert Le16(0xFF, 0xFF) == 0xFFFF;
  }

  // ---------- the code of the receiver ----------

  class Receiver {
    var busState: Bus
    var cmd: Byte
    var size: nat
    const payload: array<Byte>
    var fcs: Byte
    var frameIndex: nat
    var frameReceived: bool
    var sent: seq<Byte>      // what has been written to the serial port
    var overflow: bool

    constructor ()
      ensures Valid() && fresh(payload) && busState == Idle && !frameReceived && sent == [] && !overflow
    {
      busState, cmd, size, fcs, frameIndex, frameReceived, sent, overflow := Idle, 0, 0, 0, 0, false, [], false;
      payload := new Byte[MAX_PAYLOAD](_ => 0);
    }

    ghost function View(): Rx
      reads this, payload
    {
      Rx(busState, cmd, size, payload[..], fcs, frameIndex, frameReceived, sent, overflow)
    }

    ghost predicate Valid()
      reads this, payload
    {
      payload.Length == MAX_PAYLOAD && Ok(View())
    }

    method SendResponse(code: Byte)
      requires Valid()
      modifies this`frameReceived, this`sent
      ensures Valid() && View() == Respond(old(View()), code)
    {
      frameReceived := false;
      sent := sent + [code];
    }

    // usart0_handler: a byte has arrived
    method Usart0Handler(data: Byte)
      requires Valid()
      modifies this, payload
      ensures Valid() && View() == Step(old(View()), data)
    {
      hide Fcs, Val;
      StepOk(View(), data);
      if overflow {
        return;
      }
      if busState == Idle {
        if data == 0 {
          SendResponse(RESP_OK);
        }
      }
      match busState
      case Idle =>
        if data == START_BYTE {
          busState := Cmd;
        }
      case Cmd =>
        cmd := data;
        busState, frameIndex, size := Size, 0, 0;
      case Size => TakeSize(data);
      case Payload => TakePayload(data);
      case Check =>
        fcs := data;
        busState := End;
      case End => TakeEnd(data);
    }

    method TakeSize(data: Byte)
      requires Valid() && busState == Size && !overflow
      modifies this`size, this`frameIndex, this`busState
      ensures View() == Step(old(View()), data)
    {
      hide Fcs, Val;
      size := size + if frameIndex == 0 then Val(data) else Val(data) * 0x100;
      frameIndex := frameIndex + 1;
      if frameIndex >= 2 {
        busState, frameIndex := Payload, 0;
      }
    }

    method TakePayload(data: Byte)
      requires Valid() && busState == Payload && !overflow
      modifies this`frameIndex, this`busState, this`overflow, this`fcs, payload
      ensures View() == Step(old(View()), data)
    {
      hide Fcs, Val;
      if frameIndex > MAX_PAYLOAD {
        overflow := true;
        return;
      }
      if frameIndex < MAX_PAYLOAD {
        payload[frameIndex] := data;
      } else {
        fcs := data;
      }
      frameIndex := frameIndex + 1;
      if frameIndex >= size {
        busState := Check;
      }
    }

    method TakeEnd(data: Byte)
      requires Valid() && busState == End && !overflow
      modifies this`frameReceived, this`sent, this`busState
      ensures View() == Step(old(View()), data)
    {
      hide Val, Low, From;
      if data == END_BYTE {
        var sum := CrcCalculate([cmd, Low(size), Low(size / 0x100)] + (payload[..] + [fcs])[..size], POLYNOMIAL);
        if sum == fcs {
          frameReceived := true;
        } else {
          SendResponse(RESP_ERROR | RESP_FCS_ERROR);
        }
      } else {
        SendResponse(RESP_ERROR | RESP_FRAME_ERROR);
      }
      busState := Idle;
    }

    // timer0_ch0_handler
    method TimerHandler()
      requires Valid()
      modifies this`busState
      ensures Valid() && View() == Timeout(old(View()))
    {
      busState := Idle;
    }

    // A run of bytes arrives.
    method Arrive(bytes: seq<Byte>)
      requires Valid()
      modifies this, payload
      ensures Valid() && View() == Feed(old(View()), bytes)
    {
      hide Step;
      ghost var s := View();
      for i := 0 to |bytes|
        invariant Valid() && View() == Feed(s, bytes[..i])
      {
        ghost var before := View();
        Usart0Handler(bytes[i]);
        assert bytes[..i + 1] == bytes[..i] + [bytes[i]];
        FeedConcat(s, bytes[..i], [bytes[i]]);
        FeedOne(before, bytes[i]);
      }
      assert bytes[..|bytes|] == bytes;
    }
  }
}
