/** Frames on the wire (RFC 6455, sections 5.2 and 5.3): `websocket_build_frame` and the frame
    sizes of lib/libhv/http/websocket_parser.c and wsdef.c, `ceil2e` of base/hmath.h. */
module WsFrame {
  import opened Bytes
  import opened WsSpec

  /** One frame to be sent. */
  datatype Frame = Frame(flags: Flags, mask: seq<Byte>, data: seq<Byte>)

  predicate Sendable(f: Frame) {
    f.flags.opcode < 16 && |f.mask| == 4 && |f.data| < Pow256(8)
  }

  type Packet = f: Frame | Sendable(f) witness (assert Pow256(8) > 0; Frame(Flags(0, false, false), [0, 0, 0, 0], []))

  // ---------------------------------------------------------------- the format

  function LengthField(n: nat, masked: bool): seq<Byte> {
    var m := if masked then 128 else 0;
    if n < 126 then [m + n]
    else if n <= 0xFFFF then [m + 126] + BigEndian(n, 2)
    else [m + 127] + BigEndian(n, 8)
  }

  function Payload(f: Frame): seq<Byte>
    requires |f.mask| == 4
  {
    if f.flags.masked then f.mask + Masked(f.data, f.mask, 0) else f.data
  }

  /** The bytes of a frame. */
  function Encode(f: Frame): seq<Byte>
    requires Sendable(f)
  {
    [f.flags.opcode + if f.flags.fin then 128 else 0] + LengthField(|f.data|, f.flags.masked) + Payload(f)
  }

  /** The layout of section 5.2 of RFC 6455, field by field. */
  ghost predicate OnWire(x: seq<Byte>, f: Frame)
    requires Sendable(f)
  {
    var n := |f.data|;
    var ext := if n < 126 then 0 else if n <= 0xFFFF then 2 else 8;
    var at := 2 + ext + if f.flags.masked then 4 else 0;
    && |x| == at + n
    && (Bit(x[0], 7) == 1 <==> f.flags.fin) && Bit(x[0], 6) == Bit(x[0], 5) == Bit(x[0], 4) == 0
    && x[0] % 16 == f.flags.opcode
    && (Bit(x[1], 7) == 1 <==> f.flags.masked)
    && x[1] % 128 == (if ext == 0 then n else if ext == 2 then 126 else 127)
    && Digits256(x[2..2 + ext], n)
    && (if f.flags.masked then x[at - 4..at] == f.mask && Combined(x[at..], f.data, f.mask, 0) else x[at..] == f.data)
  }

  /** `n` in network order: the byte at `i` is the one of weight 256 to the power of the bytes behind it. */
  ghost predicate Digits256(x: seq<Byte>, n: nat) {
    forall i :: 0 <= i < |x| ==> x[i] == Digit256(n, |x| - 1 - i)
  }

  lemma NetworkOrder(n: nat, k: nat)
    ensures Digits256(BigEndian(n, k), n)
  {
    var x := BigEndian(n, k);
    forall i | 0 <= i < |x|
      ensures x[i] == Digit256(n, |x| - 1 - i)
    {
      BigEndianAt(n, k, i);
    }
  }

  lemma HeadBits(v: nat, low: nat, high: bool)
    requires low < 128 && v == low + if high then 128 else 0
    ensures (Bit(v, 7) == 1 <==> high) && v % 128 == low
    ensures low < 16 ==> Bit(v, 6) == Bit(v, 5) == Bit(v, 4) == 0 && v % 16 == low
  {
    assert Pow2(4) == 16 && Pow2(5) == 32 && Pow2(6) == 64 && Pow2(7) == 128;
  }

  /** A frame is written as the standard lays it out. */
  lemma WireFormat(f: Frame)
    requires Sendable(f)
    ensures OnWire(Encode(f), f)
  {
    hide Combined, Digits256, BigEndian, Bit, Masked, Pow256;
    var n := |f.data|;
    var x, l := Encode(f), LengthField(n, f.flags.masked);
    var ext := if n < 126 then 0 else if n <= 0xFFFF then 2 else 8;
    var at := 2 + ext + if f.flags.masked then 4 else 0;
    HeadBits(x[0], f.flags.opcode, f.flags.fin);
    HeadBits(l[0], if ext == 0 then n else if ext == 2 then 126 else 127, f.flags.masked);
    NetworkOrder(n, ext);
    assert x[1] == l[0] && x[2..2 + ext] == l[1..] == BigEndian(n, ext) by {
      assert BigEndian(n, 0) == [];
    }
    PayloadFormat(f);
    assert x[2 + ext..] == Payload(f);
    if f.flags.masked {
      assert x[at - 4..at] == Payload(f)[..4] && x[at..] == Payload(f)[4..];
    }
  }

  lemma PayloadFormat(f: Frame)
    requires Sendable(f)
    ensures if f.flags.masked then
              && |Payload(f)| == 4 + |f.data| && Payload(f)[..4] == f.mask
              && Combined(Payload(f)[4..], f.data, f.mask, 0)
            else Payload(f) == f.data
  {
    hide Combined;
    MaskedBits(f.data, f.mask, 0);
    assert f.flags.masked ==> Payload(f)[4..] == Masked(f.data, f.mask, 0);
  }

  /** `ws_calc_frame_size` and `websocket_calc_frame_size`. */
  function FrameSize(n: nat, masked: bool): nat {
    n + 2 + (if n >= 126 then (if n > 0xFFFF then 8 else 2) else 0) + (if masked then 4 else 0)
  }

  /** The size computed beforehand is exactly the length of the frame. */
  lemma SizeExact(f: Frame)
    requires Sendable(f)
    ensures |Encode(f)| == FrameSize(|f.data|, f.flags.masked)
  {
  }

  // ---------------------------------------------------------------- websocket_build_frame

  /** `websocket_build_frame`: fills a prefix of the buffer and leaves the rest alone. Without a
      mask argument, a masked frame uses the four bytes it finds in the buffer. */
  method BuildFrame(frame: array<Byte>, flags: Flags, mask: seq<Byte>, data: seq<Byte>)
    returns (size: nat, ghost used: seq<Byte>)
    requires flags.opcode < 16 && |data| < Pow256(8) && (|mask| == 4 || mask == [])
    requires frame.Length >= FrameSize(|data|, flags.masked)
    modifies frame
    ensures |used| == 4 && (mask != [] ==> used == mask)
    ensures size == FrameSize(|data|, flags.masked)
    ensures frame[..size] == Encode(Frame(flags, used, data)) && OnWire(frame[..size], Frame(flags, used, data))
    ensures frame[size..] == old(frame[size..])
  {
    hide Pow256, LengthField, Payload, FrameSize, BigEndian, OnWire;
    var off := BuildHeader(frame, flags, |data|);
    ghost var head, tail := frame[..off], frame[off..];
    var n;
    n, used := BuildPayload(frame, off, flags, mask, data);
    size := off + n;
    assert frame[..size] == frame[..off] + frame[off..size];
    assert frame[size..] == tail[n..];
    WireFormat(Frame(flags, used, data));
  }

  /** The mask and the data behind the header. */
  method BuildPayload(frame: array<Byte>, off: nat, flags: Flags, mask: seq<Byte>, data: seq<Byte>)
    returns (n: nat, ghost used: seq<Byte>)
    requires |mask| == 4 || mask == []
    requires off + |data| + (if flags.masked then 4 else 0) <= frame.Length
    modifies frame
    ensures |used| == 4 && (mask != [] ==> used == mask)
    ensures n == |data| + (if flags.masked then 4 else 0)
    ensures frame[off..off + n] == Payload(Frame(flags, used, data))
    ensures frame[..off] == old(frame[..off]) && frame[off + n..] == old(frame[off + n..])
  {
    hide Masked, Xor;
    if flags.masked {
      if mask != [] {
        Copy(frame, off, mask);
      }
      used := frame[off..off + 4];
      ghost var before := frame[..off + 4];
      MaskInto(frame, off + 4, data, frame[off..off + 4]);
      n := 4 + |data|;
      assert frame[off..off + n] == frame[..off + 4][off..] + frame[off + 4..off + 4 + |data|];
      assert frame[..off] == before[..off];
    } else {
      used := if mask == [] then [0, 0, 0, 0] else mask;
      Copy(frame, off, data);
      n := |data|;
    }
  }

  /** Everything up to the mask. */
  method BuildHeader(frame: array<Byte>, flags: Flags, n: nat) returns (off: nat)
    requires flags.opcode < 16 && n < Pow256(8) && frame.Length >= FrameSize(n, flags.masked)
    modifies frame
    ensures off + n + (if flags.masked then 4 else 0) == FrameSize(n, flags.masked)
    ensures frame[..off] == [flags.opcode + if flags.fin then 128 else 0] + LengthField(n, flags.masked)
    ensures frame[off..] == old(frame[off..])
  {
    var b0, b1 := 0, 0;
    if flags.fin {
      b0 := 128;
    }
    b0 := b0 + flags.opcode;
    if flags.masked {
      b1 := 128;
    }
    frame[0] := b0;
    if n < 126 {
      frame[1] := b1 + n;
      off := 2;
    } else if n <= 0xFFFF {
      frame[1] := b1 + 126;
      frame[2] := n / 256 % 256;
      frame[3] := n % 256;
      off := 4;
      BigEndian2(n);
    } else {
      frame[1] := b1 + 127;
      off := 10;
      BuildLength8(frame, n);
    }
  }

  method BuildLength8(frame: array<Byte>, n: nat)
    requires frame.Length >= 10
    modifies frame
    ensures frame[2..10] == BigEndian(n, 8)
    ensures frame[..2] == old(frame[..2]) && frame[10..] == old(frame[10..])
  {
    frame[2] := n / 0x100_0000_0000_0000 % 256;
    frame[3] := n / 0x1_0000_0000_0000 % 256;
    frame[4] := n / 0x100_0000_0000 % 256;
    frame[5] := n / 0x1_0000_0000 % 256;
    frame[6] := n / 0x100_0000 % 256;
    frame[7] := n / 0x1_0000 % 256;
    frame[8] := n / 0x100 % 256;
    frame[9] := n % 256;
    BigEndian8(n);
  }

  lemma BigEndian2(n: nat)
    ensures BigEndian(n, 2) == [n / 256 % 256, n % 256]
  {
    assert BigEndian(n / 256, 1) == BigEndian(n / 256 / 256, 0) + [n / 256 % 256];
  }

  lemma BigEndian8(n: nat)
    ensures BigEndian(n, 8) == [n / 0x100_0000_0000_0000 % 256, n / 0x1_0000_0000_0000 % 256,
                                n / 0x100_0000_0000 % 256, n / 0x1_0000_0000 % 256,
                                n / 0x100_0000 % 256, n / 0x1_0000 % 256, n / 0x100 % 256, n % 256]
  {
    var a1 := n / 256;
    var a2 := a1 / 256;
    var a3 := a2 / 256;
    var a4 := a3 / 256;
    var a5 := a4 / 256;
    var a6 := a5 / 256;
    var a7 := a6 / 256;
    assert a2 == n / 0x1_0000 && a3 == n / 0x100_0000 && a4 == n / 0x1_0000_0000;
    assert a5 == n / 0x100_0000_0000 && a6 == n / 0x1_0000_0000_0000 && a7 == n / 0x100_0000_0000_0000;
    assert BigEndian(a7, 1) == [a7 % 256];
    assert BigEndian(a6, 2) == [a7 % 256, a6 % 256];
    assert BigEndian(a5, 3) == [a7 % 256, a6 % 256, a5 % 256];
    assert BigEndian(a4, 4) == [a7 % 256, a6 % 256, a5 % 256, a4 % 256];
    assert BigEndian(a3, 5) == [a7 % 256, a6 % 256, a5 % 256, a4 % 256, a3 % 256];
    assert BigEndian(a2, 6) == [a7 % 256, a6 % 256, a5 % 256, a4 % 256, a3 % 256, a2 % 256];
    assert BigEndian(a1, 7) == [a7 % 256, a6 % 256, a5 % 256, a4 % 256, a3 % 256, a2 % 256, a1 % 256];
  }

  /** `memcpy(&frame[at], data, n)`. */
  method Copy(frame: array<Byte>, at: nat, data: seq<Byte>)
    requires at + |data| <= frame.Length
    modifies frame
    ensures frame[at..at + |data|] == data
    ensures frame[..at] == old(frame[..at]) && frame[at + |data|..] == old(frame[at + |data|..])
  {
    forall i | 0 <= i < |data| {
      frame[at + i] := data[i];
    }
  }

  /** `websocket_decode` into the buffer, with the mask that stands before it. */
  method MaskInto(frame: array<Byte>, at: nat, data: seq<Byte>, mask: seq<Byte>)
    requires at + |data| <= frame.Length && |mask| == 4
    modifies frame
    ensures frame[at..at + |data|] == Masked(data, mask, 0)
    ensures frame[..at] == old(frame[..at]) && frame[at + |data|..] == old(frame[at + |data|..])
  {
    var i := 0;
    while i < |data|
      invariant i <= |data|
      invariant frame[at..at + i] == Masked(data, mask, 0)[..i]
      invariant frame[..at] == old(frame[..at]) && frame[at + |data|..] == old(frame[at + |data|..])
    {
      frame[at + i] := Xor(data[i], mask[i % 4]);
      assert frame[at..at + (i + 1)] == frame[at..at + i] + [frame[at + i]];
      i := i + 1;
    }
  }

  // ---------------------------------------------------------------- ceil2e

  /** `ceil2e`: the least power of two that is not less than `num`. */
  method Ceil2e(num: nat) returns (ret: nat)
    ensures num <= ret && (exists e :: ret == Pow2(e)) && (ret == 1 || ret / 2 < num)
  {
    if num == 0 || num == 1 {
      assert Pow2(0) == 1;
      return 1;
    }
    var n := num - 1;
    var e := 1;
    n := n / 2;
    while n != 0
      invariant n >= 0 && e + Bits(n) == Bits(num - 1)
    {
      e := e + 1;
      n := n / 2;
    }
    BitsBound(num - 1);
    ret := 1;
    assert Pow2(0) == 1;
    var left := e;
    while left > 0
      invariant left <= e && ret == Pow2(e - left)
    {
      left := left - 1;
      ret := ret * 2;
    }
  }

  /** The number of binary digits. */
  function Bits(n: nat): nat {
    if n == 0 then 0 else 1 + Bits(n / 2)
  }

  lemma {:induction false} BitsBound(n: nat)
    ensures n < Pow2(Bits(n))
    ensures n > 0 ==> Bits(n) > 0 && Pow2(Bits(n) - 1) <= n && Pow2(Bits(n)) == 2 * Pow2(Bits(n) - 1)
  {
    if n > 0 {
      BitsBound(n / 2);
      assert Pow2(0) == 1;
    }
  }
}
