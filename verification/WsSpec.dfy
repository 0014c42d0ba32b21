/** The WebSocket parser as a machine that takes one byte at a time (RFC 6455, section 5.2), with
    the message reassembly of WebSocketParser.cpp on top of it. */
module WsSpec {
  import opened Bytes
  import opened Folding

  datatype Phase = Start | Head | Length | MaskKey | Body

  /** `websocket_parser_state` of the reassembler. */
  datatype Stage = FrameBegin | FrameHeader | FrameBody | FrameEnd | FrameFin

  /** `websocket_flags`: the opcode in the low four bits, `WS_FIN` and `WS_HAS_MASK` above it. */
  datatype Flags = Flags(opcode: nat, fin: bool, masked: bool)

  /** What the frame callbacks of one parser see; adjacent body pieces count as one. */
  datatype Event = Header(flags: Flags, length: nat) | Data(bytes: seq<Byte>) | End

  datatype Message = Message(opcode: nat, data: seq<Byte>)

  const OP_CONTINUE: nat := 0

  /** The fields of `websocket_parser` and of the `WebSocketParser` it serves. */
  datatype Raw = Raw(
    phase: Phase, flags: Flags, mask: seq<Byte>, maskOffset: nat, length: nat, require: nat,
    stage: Stage, opcode: nat, message: seq<Byte>,
    delivered: seq<Message>, events: seq<Event>)

  /** What every reachable state satisfies: the counters are in range, and while a masked body is
      being read the mask position is that of the number of body bytes already read. */
  predicate Ok(s: Raw) {
    && |s.mask| == 4 && s.maskOffset < 4 && s.flags.opcode < 16
    && (s.phase == Length ==> 1 <= s.require <= 8 && s.maskOffset == 0)
    && (s.phase == Length ==> s.length < Pow256(8 - s.require))
    && (s.phase == MaskKey ==> 1 <= s.require <= 4 && s.flags.masked && s.maskOffset == 0)
    && (s.phase == Head ==> s.maskOffset == 0 && s.length == 0)
    && (s.phase == Body ==> 1 <= s.require <= s.length)
    && (s.phase == Body && s.flags.masked ==> s.maskOffset == (s.length - s.require) % 4)
    && (s.phase == Body ==> Current(s.events, s.length))
    && s.length < Pow256(8)
  }

  /** The frame being read announced the length `n`. */
  predicate Current(events: seq<Event>, n: nat) {
    var k := if events != [] && events[|events| - 1].Data? then |events| - 2 else |events| - 1;
    k >= 0 && events[k].Header? && events[k].length == n
  }

  // ---------------------------------------------------------------- callbacks

  function AddData(events: seq<Event>, bytes: seq<Byte>): seq<Event> {
    if events != [] && events[|events| - 1].Data?
    then events[..|events| - 1] + [Data(events[|events| - 1].bytes + bytes)]
    else events + [Data(bytes)]
  }

  /** `on_frame_header`. */
  function OnHeader(s: Raw): Raw {
    s.(opcode := if s.flags.opcode != OP_CONTINUE then s.flags.opcode else s.opcode,
       message := if s.stage == FrameBegin || s.stage == FrameFin then [] else s.message,
       stage := FrameHeader,
       events := s.events + [Header(s.flags, s.length)])
  }

  /** `websocket_decode`: each byte is combined with the mask byte at its position. */
  function Masked(s: seq<Byte>, mask: seq<Byte>, offset: nat): (r: seq<Byte>)
    requires |mask| == 4
    ensures |r| == |s|
  {
    seq(|s|, i requires 0 <= i < |s| => Xor(s[i], mask[(i + offset) % 4]))
  }

  /** Section 5.3 of RFC 6455, bit by bit: bit `k` of byte `i` differs from that of the data if and only if it
      is set in mask byte `i` modulo 4, counted from `offset`. */
  ghost predicate Combined(raw: seq<Byte>, data: seq<Byte>, mask: seq<Byte>, offset: nat)
    requires |mask| == 4
  {
    && |raw| == |data|
    && forall i, k {:trigger Bit(raw[i], k)} :: 0 <= i < |data| && 0 <= k < 8 ==>
         (Bit(raw[i], k) != Bit(data[i], k) <==> Bit(mask[(i + offset) % 4], k) == 1)
  }

  lemma MaskedBits(s: seq<Byte>, mask: seq<Byte>, offset: nat)
    requires |mask| == 4
    ensures Combined(Masked(s, mask, offset), s, mask, offset)
  {
    hide Xor, Bit;
    var r := Masked(s, mask, offset);
    forall i, k {:trigger Bit(r[i], k)} | 0 <= i < |s| && 0 <= k < 8
      ensures Bit(r[i], k) != Bit(s[i], k) <==> Bit(mask[(i + offset) % 4], k) == 1
    {
      assert r[i] == Xor(s[i], mask[(i + offset) % 4]);
      XorBit(s[i], mask[(i + offset) % 4], k);
    }
  }

  /** The bytes of the message that raw body bytes carry. */
  function Unmask(s: Raw, raw: seq<Byte>): (r: seq<Byte>)
    requires |s.mask| == 4
    ensures |r| == |raw|
  {
    if s.flags.masked then Masked(raw, s.mask, s.maskOffset) else raw
  }

  /** `on_frame_body`. */
  function OnBody(s: Raw, raw: seq<Byte>): Raw
    requires |s.mask| == 4
  {
    s.(stage := FrameBody,
       message := s.message + Unmask(s, raw),
       maskOffset := if s.flags.masked then (|raw| + s.maskOffset) % 4 else s.maskOffset,
       events := AddData(s.events, Unmask(s, raw)))
  }

  /** `on_frame_end`. */
  function OnEnd(s: Raw): Raw {
    s.(stage := if s.flags.fin then FrameFin else FrameEnd,
       delivered := if s.flags.fin then s.delivered + [Message(s.opcode, s.message)] else s.delivered,
       events := s.events + [End])
  }

  // ---------------------------------------------------------------- one byte

  /** After the header of a frame: on to the body, or straight to the end of an empty frame. */
  function HeaderDone(s: Raw): Raw {
    if s.length > 0 then OnHeader(s.(phase := Body, require := s.length))
    else OnEnd(OnHeader(s.(phase := Start)))
  }

  function LengthDone(s: Raw): Raw {
    if s.flags.masked then s.(phase := MaskKey, require := 4) else HeaderDone(s)
  }

  function RawStep(s: Raw, c: Byte): Raw
    requires Ok(s)
  {
    match s.phase
    case Start =>
      s.(length := 0, maskOffset := 0, phase := Head,
         flags := Flags(c % 16, c >= 128, false))
    case Head =>
      var s' := s.(length := c % 128, flags := s.flags.(masked := s.flags.masked || c >= 128));
      if c % 128 == 127 then s'.(require := 8, length := 0, phase := Length)
      else if c % 128 == 126 then s'.(require := 2, length := 0, phase := Length)
      else LengthDone(s')
    case Length =>
      var s' := s.(length := s.length * 256 + c, require := s.require - 1);
      if s'.require == 0 then LengthDone(s') else s'
    case MaskKey =>
      var s' := s.(mask := s.mask[4 - s.require := c], require := s.require - 1);
      if s'.require == 0 then HeaderDone(s') else s'
    case Body =>
      var s' := OnBody(s, [c]).(require := s.require - 1);
      if s'.require == 0 then OnEnd(s'.(phase := Start)) else s'
  }

  lemma HeaderDoneOk(s: Raw)
    requires |s.mask| == 4 && s.maskOffset == 0 && s.flags.opcode < 16 && s.length < Pow256(8)
    ensures Ok(HeaderDone(s))
  {
  }

  lemma LengthDoneOk(s: Raw)
    requires |s.mask| == 4 && s.maskOffset == 0 && s.flags.opcode < 16 && s.length < Pow256(8)
    ensures Ok(LengthDone(s))
  {
    if !s.flags.masked {
      HeaderDoneOk(s);
    }
  }

  lemma LengthStepOk(s: Raw, c: Byte)
    requires Ok(s) && s.phase == Length
    ensures Ok(RawStep(s, c))
  {
    var s' := s.(length := s.length * 256 + c, require := s.require - 1);
    assert s'.length < 256 * Pow256(8 - s.require) == Pow256(8 - s'.require);
    PowMono(8 - s'.require, 8);
    if s'.require == 0 {
      LengthDoneOk(s');
    }
  }

  lemma HeadStepOk(s: Raw, c: Byte)
    requires Ok(s) && s.phase == Head
    ensures Ok(RawStep(s, c))
  {
    assert Pow256(0) == 1;
    PowMono(1, 8);
    if c % 128 < 126 {
      LengthDoneOk(s.(length := c % 128, flags := s.flags.(masked := s.flags.masked || c >= 128)));
    } else {
      PowMono(0, 6);
    }
  }

  lemma MaskStepOk(s: Raw, c: Byte)
    requires Ok(s) && s.phase == MaskKey
    ensures Ok(RawStep(s, c))
  {
    if s.require == 1 {
      HeaderDoneOk(s.(mask := s.mask[4 - s.require := c], require := s.require - 1));
    }
  }

  lemma BodyStepOk(s: Raw, c: Byte)
    requires Ok(s) && s.phase == Body
    ensures Ok(RawStep(s, c))
  {
    hide AddData, Unmask, Current;
    CurrentData(s.events, Unmask(s, [c]), s.length);
  }

  lemma CurrentData(events: seq<Event>, bytes: seq<Byte>, n: nat)
    requires Current(events, n)
    ensures Current(AddData(events, bytes), n)
  {
  }

  lemma StartStepOk(s: Raw, c: Byte)
    requires Ok(s) && s.phase == Start
    ensures Ok(RawStep(s, c))
  {
  }

  lemma StepOk(s: Raw, c: Byte)
    requires Ok(s)
    ensures Ok(RawStep(s, c))
  {
    hide RawStep, Ok;
    match s.phase
    case Start => StartStepOk(s, c);
    case Head => HeadStepOk(s, c);
    case Length => LengthStepOk(s, c);
    case MaskKey => MaskStepOk(s, c);
    case Body => BodyStepOk(s, c);
  }

  lemma {:induction false} PowMono(m: nat, n: nat)
    requires m <= n
    ensures 0 < Pow256(m) <= Pow256(n)
  {
    if m > 0 {
      PowMono(m - 1, n - 1);
    } else if n > 0 {
      PowMono(0, n - 1);
    }
  }

  /** A state the parser can be in. */
  type State = s: Raw | Ok(s) witness Fresh(0)

  /** The parser as its constructor leaves it; `opcode` starts with whatever is in memory. */
  function Fresh(garbage: nat): (s: Raw)
    ensures Ok(s)
  {
    PowMono(0, 8);
    Raw(Start, Flags(0, false, false), [0, 0, 0, 0], 0, 0, 0, FrameBegin, garbage, [], [], [])
  }

  function Step(s: State, c: Byte): State {
    StepOk(s, c);
    RawStep(s, c)
  }

  /** The parser on a byte string. */
  function Run(s: State, x: seq<Byte>): State {
    Fold<State, Byte>(Step, s, x)
  }

  lemma RunOne(s: State, c: Byte)
    ensures Run(s, [c]) == Step(s, c)
  {
    FoldOne<State, Byte>(Step, s, c);
  }

  lemma RunLast(s: State, x: seq<Byte>, c: Byte)
    ensures Run(s, x + [c]) == Step(Run(s, x), c)
  {
    FoldLast<State, Byte>(Step, s, x, c);
  }

  lemma RunConcat(s: State, x: seq<Byte>, y: seq<Byte>)
    ensures Run(s, x + y) == Run(Run(s, x), y)
  {
    FoldConcat<State, Byte>(Step, s, x, y);
  }

  /** Split independence, for arbitrary and even malformed input: however the stream is cut into
      reads, the state, the messages and the merged frame events come out the same. */
  lemma ReadsDoNotMatter(s: State, parts: seq<seq<Byte>>)
    ensures FoldAll<State, Byte>(Step, s, parts) == Run(s, Join(parts))
  {
    SplitIndependence<State, Byte>(Step, s, parts);
  }

  // ---------------------------------------------------------------- announced lengths

  /** A number as an `int` of 32 bits. */
  function ToInt(n: nat): int {
    var m := n % 0x1_0000_0000;
    if m < 0x8000_0000 then m else m - 0x1_0000_0000
  }

  /** A number as a `size_t` of 64 bits. */
  function ToSize(i: int): nat
    requires -0x8000_0000 <= i
  {
    if i < 0 then i + 0x1_0000_0000_0000_0000 else i
  }

  /** `int length = parser->length; MIN(length + 1, MAX_PAYLOAD_LENGTH)`, with an addition that wraps. */
  function ReserveLength(n: nat): int {
    var length := ToInt(n);
    var more := if length == 0x7FFF_FFFF then -0x8000_0000 else length + 1;
    if more < 0x100_0000 then more else 0x100_0000
  }

  /** The most a `std::string` can be asked to hold. */
  const MAX_STRING: nat := 0x7FFF_FFFF_FFFF_FFFF

  /** `on_frame_header` asks the message to hold more than a string can, and throws. */
  predicate Refused(n: nat) {
    ToSize(ReserveLength(n)) > MAX_STRING
  }

  /** Which lengths those are: the low 32 bits, with one added, are a negative `int`. */
  lemma RefusedExactly(n: nat)
    ensures Refused(n) <==> 0x7FFF_FFFF <= n % 0x1_0000_0000 <= 0xFFFF_FFFE
  {
  }

  /** No frame header that `x` completes is refused. */
  ghost predicate Harmless(s: State, x: seq<Byte>) {
    forall i :: |s.events| <= i < |Run(s, x).events| && Run(s, x).events[i].Header? ==>
                  !Refused(Run(s, x).events[i].length)
  }

  /** All lengths announced on the connection are below 2^63, as section 5.2 of RFC 6455 demands. */
  ghost predicate Lawful(s: State, x: seq<Byte>) {
    forall i :: 0 <= i < |Run(s, x).events| && Run(s, x).events[i].Header? ==>
                  Run(s, x).events[i].length < 0x8000_0000_0000_0000
  }

  /** Headers once seen stay what they are. */
  ghost predicate Grows(a: seq<Event>, b: seq<Event>) {
    |a| <= |b| && forall i :: 0 <= i < |a| ==> a[i].Header? == b[i].Header? && (a[i].Header? ==> a[i] == b[i])
  }

  lemma StepGrows(s: State, c: Byte)
    ensures Grows(s.events, Step(s, c).events)
  {
    hide Masked, Ok;
  }

  lemma {:induction false} RunGrows(s: State, x: seq<Byte>)
    ensures Grows(s.events, Run(s, x).events)
  {
    if x != [] {
      var r, c := x[..|x| - 1], x[|x| - 1];
      assert x == r + [c];
      RunLast(s, r, c);
      RunGrows(s, r);
      StepGrows(Run(s, r), c);
    }
  }

  /** Whether a stream is harmless does not depend on the cuts either. */
  lemma HarmlessConcat(s: State, x: seq<Byte>, y: seq<Byte>)
    ensures Harmless(s, x + y) <==> Harmless(s, x) && Harmless(Run(s, x), y)
    ensures Lawful(s, x + y) <==> Lawful(Run(s, x), y)
    ensures Lawful(s, x + y) ==> Lawful(s, x)
  {
    hide Refused, Step, Run;
    RunConcat(s, x, y);
    RunGrows(s, x);
    RunGrows(Run(s, x), y);
  }

  /** `p + parser->require <= end` for a body at the address `at`: the sum does not wrap around. */
  predicate Fits(s: State, at: nat) {
    s.phase == Body ==> at + s.require < 0x1_0000_0000_0000_0000
  }

  /** The sum never wraps around while a buffer at the address `base` is read. */
  ghost predicate NeverWraps(s: State, x: seq<Byte>, base: nat) {
    forall k :: 0 <= k < |x| ==> Fits(Run(s, x[..k]), base + k)
  }

  /** It cannot, for lawful lengths and buffers in the lower half of the address space. */
  lemma LawfulFits(s: State, x: seq<Byte>, base: nat)
    requires Lawful(s, x) && base + |x| <= 0x8000_0000_0000_0000
    ensures NeverWraps(s, x, base)
  {
    hide Step, Run;
    forall k | 0 <= k < |x|
      ensures Fits(Run(s, x[..k]), base + k)
    {
      assert x == x[..k] + x[k..];
      HarmlessConcat(s, x[..k], x[k..]);
    }
  }

  /** In the middle of a length, a mask or a body only the byte counter moves on. */
  lemma {:induction false} Inside(s: State, y: seq<Byte>)
    requires (s.phase == Length || s.phase == MaskKey || s.phase == Body) && |y| < s.require
    ensures Run(s, y).phase == s.phase && Run(s, y).require == s.require - |y|
  {
    if y != [] {
      var r, c := y[..|y| - 1], y[|y| - 1];
      assert y == r + [c];
      RunLast(s, r, c);
      Inside(s, r);
    }
  }

  /** From a body that fits, through one byte or the bytes up to the end of what is being counted. */
  lemma SpanFits(s: State, y: seq<Byte>, at: nat)
    requires Fits(s, at)
    requires |y| <= if s.phase == Length || s.phase == MaskKey || s.phase == Body then s.require else 1
    ensures NeverWraps(s, y, at)
  {
    hide Step;
    forall k | 0 <= k < |y|
      ensures Fits(Run(s, y[..k]), at + k)
    {
      if k == 0 {
        assert y[..0] == [];
      } else {
        Inside(s, y[..k]);
      }
    }
  }

  /** No header among the events of `b` that `a` has not yet is refused. */
  predicate NoneRefused(a: Raw, b: Raw) {
    forall i :: |a.events| <= i < |b.events| && b.events[i].Header? ==> !Refused(b.events[i].length)
  }

  /** From `a` to `b` one header was completed, and it is refused. */
  predicate OneRefused(a: Raw, b: Raw) {
    && |b.events| == |a.events| + 1 && b.events[..|a.events|] == a.events && b.delivered == a.delivered
    && b.events[|a.events|].Header? && Refused(b.events[|a.events|].length)
  }

  // ---------------------------------------------------------------- several bytes at once

  function ReadLength(s: Raw, raw: seq<Byte>): Raw
    requires |raw| <= s.require
  {
    var s' := s.(length := FoldBytes(s.length, raw), require := s.require - |raw|);
    if s'.require == 0 then LengthDone(s') else s'
  }

  function ReadMask(s: Raw, raw: seq<Byte>): Raw
    requires |s.mask| == 4 && |raw| <= s.require <= 4
  {
    var s' := s.(mask := Overlay(s.mask, 4 - s.require, raw), require := s.require - |raw|);
    if s'.require == 0 then HeaderDone(s') else s'
  }

  /** `mask` with `raw` written over it from index `k`. */
  function Overlay(mask: seq<Byte>, k: nat, raw: seq<Byte>): (r: seq<Byte>)
    requires k + |raw| <= |mask|
    ensures |r| == |mask|
  {
    mask[..k] + raw + mask[k + |raw|..]
  }

  lemma ExtendMask(mask: seq<Byte>, k: nat, raw: seq<Byte>, c: Byte)
    requires k + |raw| < |mask|
    ensures Overlay(mask, k, raw)[k + |raw| := c] == Overlay(mask, k, raw + [c])
  {
  }

  lemma OverlayOne(mask: seq<Byte>, k: nat, c: Byte)
    requires k < |mask|
    ensures Overlay(mask, k, [c]) == mask[k := c]
  {
  }

  function Advanced(s: Raw, n: nat): Raw
    requires n <= s.require
  {
    var s' := s.(require := s.require - n);
    if s'.require == 0 then OnEnd(s'.(phase := Start)) else s'
  }

  function ReadBody(s: Raw, raw: seq<Byte>): Raw
    requires |s.mask| == 4 && |raw| <= s.require
  {
    Advanced(OnBody(s, raw), |raw|)
  }

  lemma {:induction false} RunLength(s: State, raw: seq<Byte>)
    requires s.phase == Length && 0 < |raw| <= s.require
    ensures Run(s, raw) == ReadLength(s, raw)
  {
    var r, c := raw[..|raw| - 1], raw[|raw| - 1];
    assert r + [c] == raw;
    if r == [] {
      assert FoldBytes(s.length, r) == s.length && raw == [c];
      RunOne(s, c);
    } else {
      RunLast(s, r, c);
      RunLength(s, r);
    }
  }

  lemma MaskFirst(s: State, c: Byte)
    requires s.phase == MaskKey && 0 < s.require
    ensures Step(s, c) == ReadMask(s, [c])
  {
    hide Overlay;
    OverlayOne(s.mask, 4 - s.require, c);
  }

  lemma MaskNext(s: State, raw: seq<Byte>, c: Byte)
    requires s.phase == MaskKey && 0 < |raw| < s.require
    ensures Step(ReadMask(s, raw), c) == ReadMask(s, raw + [c])
  {
    hide Overlay;
    ExtendMask(s.mask, 4 - s.require, raw, c);
  }

  lemma {:induction false} RunMask(s: State, raw: seq<Byte>)
    requires s.phase == MaskKey && 0 < |raw| <= s.require
    ensures Run(s, raw) == ReadMask(s, raw)
  {
    hide Step, ReadMask;
    var r, c := raw[..|raw| - 1], raw[|raw| - 1];
    assert r + [c] == raw;
    if r == [] {
      assert raw == [c];
      RunOne(s, c);
      MaskFirst(s, c);
    } else {
      RunLast(s, r, c);
      RunMask(s, r);
      MaskNext(s, r, c);
    }
  }

  lemma MaskedAppend(a: seq<Byte>, b: seq<Byte>, mask: seq<Byte>, offset: nat)
    requires |mask| == 4
    ensures Masked(a + b, mask, offset) == Masked(a, mask, offset) + Masked(b, mask, (|a| + offset) % 4)
  {
    var whole, tail := Masked(a + b, mask, offset), Masked(b, mask, (|a| + offset) % 4);
    forall i | 0 <= i < |tail|
      ensures tail[i] == whole[|a| + i]
    {
      ModShift(i, |a| + offset);
    }
    assert whole == Masked(a, mask, offset) + tail;
  }

  lemma OnBodyAppend(s: Raw, a: seq<Byte>, b: seq<Byte>)
    requires |s.mask| == 4
    ensures OnBody(OnBody(s, a), b) == OnBody(s, a + b)
  {
    hide Masked, AddData;
    MaskedAppend(a, b, s.mask, s.maskOffset);
    assert (|b| + (|a| + s.maskOffset) % 4) % 4 == (|a + b| + s.maskOffset) % 4;
    assert Unmask(s, a + b) == Unmask(s, a) + Unmask(OnBody(s, a), b);
    assert s.message + Unmask(s, a) + Unmask(OnBody(s, a), b) == s.message + Unmask(s, a + b);
    AddDataTwice(s.events, Unmask(s, a), Unmask(OnBody(s, a), b));
  }

  lemma AddDataTwice(e: seq<Event>, a: seq<Byte>, b: seq<Byte>)
    ensures AddData(AddData(e, a), b) == AddData(e, a + b)
  {
    if e != [] && e[|e| - 1].Data? {
      assert (e[|e| - 1].bytes + a) + b == e[|e| - 1].bytes + (a + b);
    }
  }

  lemma BodyFirst(s: State, c: Byte)
    requires s.phase == Body && 0 < s.require
    ensures Step(s, c) == ReadBody(s, [c])
  {
    hide Masked, AddData;
  }

  lemma {:induction false} RunBody(s: State, raw: seq<Byte>)
    requires s.phase == Body && 0 < |raw| <= s.require
    ensures Run(s, raw) == ReadBody(s, raw)
  {
    hide Masked, AddData, OnBody, ReadBody;
    var r, c := raw[..|raw| - 1], raw[|raw| - 1];
    assert r + [c] == raw;
    if r == [] {
      assert raw == [c];
      RunOne(s, c);
      BodyFirst(s, c);
    } else {
      RunBody(s, r);
      RunLast(s, r, c);
      BodyMidOk(s, r);
      BodyStep(s, r, c);
    }
  }

  lemma BodyMidOk(s: Raw, r: seq<Byte>)
    requires Ok(s) && s.phase == Body && |r| < s.require
    ensures Ok(ReadBody(s, r))
  {
    hide AddData, Unmask, Current;
    CurrentData(s.events, Unmask(s, r), s.length);
    if s.flags.masked {
      ModShift(|r|, s.length - s.require);
    }
  }

  lemma ModShift(n: nat, k: nat)
    ensures (n + k % 4) % 4 == (n + k) % 4
  {
  }

  lemma BodyStep(s: State, r: seq<Byte>, c: Byte)
    requires s.phase == Body && |r| < s.require
    requires Ok(ReadBody(s, r))
    ensures RawStep(ReadBody(s, r), c) == ReadBody(s, r + [c])
  {
    OnBodyAppend(s, r, [c]);
    OnBodyRequire(OnBody(s, r), s.require - |r|, [c]);
  }

  /** `on_frame_body` does not look at the byte counter. */
  lemma OnBodyRequire(s: Raw, k: nat, raw: seq<Byte>)
    requires |s.mask| == 4
    ensures OnBody(s.(require := k), raw) == OnBody(s, raw).(require := k)
  {
  }
}
