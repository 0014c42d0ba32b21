/** lib/libhv/http/websocket_parser.c and WebSocketParser.cpp: the resumable parser with its bulk
    loops, unmasking the input buffer in place. */
module WsParser {
  import opened Bytes
  import opened Folding
  import opened WsSpec

  const ADDRESSES: nat := 0x1_0000_0000_0000_0000

  /** How a read ends: all of it taken, an exception out of a callback, or a callback that is handed bytes
      behind the end of the buffer. */
  datatype Outcome = Consumed | Threw | Overran

  class WebSocketParser {
    // websocket_parser
    var phase: Phase
    var flags: Flags
    var mask: seq<Byte>
    var maskOffset: nat
    var length: nat
    var require: nat
    // WebSocketParser; `delivered` records the calls of onMessage
    var stage: Stage
    var opcode: nat
    var message: seq<Byte>
    var delivered: seq<Message>
    ghost var events: seq<Event>

    ghost function View(): Raw
      reads this
    {
      Raw(phase, flags, mask, maskOffset, length, require, stage, opcode, message, delivered, events)
    }

    /** `websocket_parser_init` in the constructor. */
    constructor (garbage: nat)
      ensures View() == Fresh(garbage)
    {
      phase, flags, mask, maskOffset := Start, Flags(0, false, false), [0, 0, 0, 0], 0;
      length, require, stage, opcode := 0, 0, FrameBegin, garbage;
      message, delivered, events := [], [], [];
    }

    // -------------------------------------------------------------- WebSocketParser.cpp

    /** `on_frame_header`. True if `reserve` throws, which leaves the rest undone. */
    method OnFrameHeader() returns (threw: bool)
      modifies this
      ensures threw <==> Refused(old(length))
      ensures if threw then delivered == old(delivered) else View() == OnHeader(old(View()))
    {
      if flags.opcode != OP_CONTINUE {
        opcode := flags.opcode;
      }
      threw := ToSize(ReserveLength(length)) > MAX_STRING;
      if threw {
        return;
      }
      events := events + [Header(flags, length)];
      if stage == FrameBegin || stage == FrameFin {
        message := [];
      }
      stage := FrameHeader;
    }

    method OnFrameBody(data: array<Byte>, at: nat, n: nat)
      requires at + n <= data.Length && |mask| == 4
      modifies this, data
      ensures View() == OnBody(old(View()), old(data[at..at + n]))
      ensures data[at + n..] == old(data[at + n..])
    {
      ghost var raw := data[at..at + n];
      stage := FrameBody;
      if flags.masked {
        Decode(data, at, n);
      }
      assert data[at..at + n] == Unmask(old(View()), raw);
      message := message + data[at..at + n];
      events := AddData(events, data[at..at + n]);
    }

    /** `websocket_parser_decode` with `dst == src`. */
    method Decode(data: array<Byte>, at: nat, n: nat)
      requires at + n <= data.Length && |mask| == 4
      modifies this`maskOffset, data
      ensures data[at..at + n] == Masked(old(data[at..at + n]), mask, old(maskOffset))
      ensures Combined(data[at..at + n], old(data[at..at + n]), mask, old(maskOffset))
      ensures data[at + n..] == old(data[at + n..])
      ensures maskOffset == (n + old(maskOffset)) % 4
    {
      hide Combined;
      ghost var target := Masked(data[at..at + n], mask, maskOffset);
      MaskedBits(data[at..at + n], mask, maskOffset);
      var i := 0;
      while i < n
        invariant i <= n && |target| == n
        invariant data[at..at + i] == target[..i]
        invariant data[at + i..] == old(data[at + i..])
        modifies data
      {
        assert data[at + i..][0] == old(data[at + i..])[0] == old(data[at..at + n])[i];
        data[at + i] := Xor(data[at + i], mask[(i + maskOffset) % 4]);
        assert data[at..at + (i + 1)] == data[at..at + i] + [data[at + i]];
        assert data[at + (i + 1)..] == old(data[at + i..])[1..];
        i := i + 1;
      }
      maskOffset := (i + maskOffset) % 4;
    }

    method OnFrameEnd()
      modifies this
      ensures View() == OnEnd(old(View()))
    {
      events := events + [End];
      stage := FrameEnd;
      if flags.fin {
        stage := FrameFin;
        delivered := delivered + [Message(opcode, message)];
      }
    }

    // -------------------------------------------------------------- websocket_parser.c

    /** The notifications after a complete frame header. */
    method EnterBody() returns (threw: bool)
      modifies this
      ensures threw ==> delivered == old(delivered) && OneRefused(old(View()), HeaderDone(old(View())))
      ensures !threw ==> View() == HeaderDone(old(View())) && NoneRefused(old(View()), View())
    {
      if length > 0 {
        phase := Body;
        require := length;
        threw := OnFrameHeader();
      } else {
        phase := Start;
        threw := OnFrameHeader();
        OnFrameEnd();
      }
    }

    method AfterLength() returns (threw: bool)
      modifies this
      ensures threw ==> delivered == old(delivered) && OneRefused(old(View()), LengthDone(old(View())))
      ensures !threw ==> View() == LengthDone(old(View())) && NoneRefused(old(View()), View())
    {
      threw := false;
      if flags.masked {
        phase := MaskKey;
        require := 4;
      } else {
        threw := EnterBody();
      }
    }

    method CaseStart(c: Byte)
      requires Ok(View()) && phase == Start
      modifies this
      ensures View() == RawStep(old(View()), c)
    {
      length, maskOffset := 0, 0;
      flags := Flags(c % 16, false, false);
      if c >= 128 {
        flags := flags.(fin := true);
      }
      phase := Head;
    }

    method CaseHead(c: Byte) returns (threw: bool)
      requires Ok(View()) && phase == Head
      modifies this
      ensures threw ==> delivered == old(delivered) && OneRefused(old(View()), RawStep(old(View()), c))
      ensures !threw ==> View() == RawStep(old(View()), c) && NoneRefused(old(View()), View())
    {
      threw := false;
      length := c % 128;
      if c >= 128 {
        flags := flags.(masked := true);
      }
      if length >= 126 {
        require := if length == 127 then 8 else 2;
        length := 0;
        phase := Length;
      } else {
        threw := AfterLength();
      }
    }

    method CaseLength(data: array<Byte>, from: nat) returns (p: nat, threw: bool)
      requires Ok(View()) && phase == Length && from < data.Length
      modifies this
      ensures from < p <= data.Length && p - from <= old(require)
      ensures threw ==> delivered == old(delivered) && OneRefused(old(View()), Run(old(View()), data[from..p]))
      ensures !threw ==> View() == Run(old(View()), data[from..p]) && NoneRefused(old(View()), View())
    {
      p, threw := from, false;
      ghost var s0 := View();
      while p < data.Length && require > 0
        invariant from <= p <= data.Length && require == s0.require - (p - from)
        invariant View() == s0.(length := FoldBytes(s0.length, data[from..p]), require := require)
        invariant p == from ==> require > 0
        decreases data.Length - p
      {
        assert data[from..p + 1][..p - from] == data[from..p];
        length := length * 256 + data[p];
        require := require - 1;
        p := p + 1;
      }
      if require == 0 {
        threw := AfterLength();
      }
      RunLength(s0, data[from..p]);
    }

    method CaseMask(data: array<Byte>, from: nat) returns (p: nat, threw: bool)
      requires Ok(View()) && phase == MaskKey && from < data.Length
      modifies this
      ensures from < p <= data.Length && p - from <= old(require)
      ensures threw ==> delivered == old(delivered) && OneRefused(old(View()), Run(old(View()), data[from..p]))
      ensures !threw ==> View() == Run(old(View()), data[from..p]) && NoneRefused(old(View()), View())
    {
      p, threw := from, false;
      ghost var s0 := View();
      ghost var k := 4 - require;
      while p < data.Length && require > 0
        invariant from <= p <= data.Length && require == s0.require - (p - from)
        invariant View() == s0.(mask := Overlay(s0.mask, k, data[from..p]), require := require)
        invariant p == from ==> require > 0
        decreases data.Length - p
      {
        ExtendMask(s0.mask, k, data[from..p], data[p]);
        assert data[from..p] + [data[p]] == data[from..p + 1];
        mask := mask[4 - require := data[p]];
        require := require - 1;
        p := p + 1;
      }
      if require == 0 {
        threw := EnterBody();
      }
      RunMask(s0, data[from..p]);
    }

    /** `p + parser->require <= end` is decided on 64-bit addresses; `base` is that of the buffer. If the
        sum wraps around, the callback is given bytes behind the end of the buffer. */
    method CaseBody(data: array<Byte>, from: nat, base: nat) returns (p: nat, overran: bool)
      requires |mask| == 4 && 0 < require < ADDRESSES && from < data.Length && base + data.Length < ADDRESSES
      modifies this, data
      ensures overran <==> base + from + old(require) >= ADDRESSES
      ensures overran ==> p == from && View() == old(View()) && data[..] == old(data[..])
      ensures !overran ==> from < p <= data.Length && p - from <= old(require) && data[p..] == old(data[p..])
      ensures !overran ==> View() == ReadBody(old(View()), old(data[from..p]))
      ensures !overran ==> NoneRefused(old(View()), View())
    {
      hide NoneRefused, AddData, Unmask;
      p, overran := from, false;
      if (base + from + require) % ADDRESSES <= base + data.Length {
        if from + require > data.Length {
          return from, true;
        }
        p := from + require;
      } else {
        p := data.Length;
      }
      BodySilent(View(), data[from..p]);
      OnFrameBody(data, from, p - from);
      Advance(p - from);
    }

    lemma BodySilent(s: Raw, raw: seq<Byte>)
      requires |s.mask| == 4 && |raw| <= s.require
      ensures NoneRefused(s, ReadBody(s, raw))
    {
      hide Unmask, Refused;
    }

    method Advance(n: nat)
      requires n <= require
      modifies this
      ensures View() == Advanced(old(View()), n)
    {
      require := require - n;
      if require == 0 {
        phase := Start;
        OnFrameEnd();
      }
    }

    /** One round of the loop of `websocket_parser_execute`. */
    method ExecuteStep(data: array<Byte>, from: nat, base: nat) returns (p: nat, o: Outcome)
      requires Ok(View()) && from < data.Length && base + data.Length < ADDRESSES
      modifies this, data
      ensures o == Overran ==> p == from && View() == old(View()) && !Fits(View(), base + from)
      ensures o != Overran ==> from < p <= data.Length && NeverWraps(old(View()), old(data[from..p]), base + from)
      ensures o == Threw ==>
                delivered == old(delivered) && OneRefused(old(View()), Run(old(View()), old(data[from..p])))
      ensures o == Consumed ==>
                && data[p..] == old(data[p..]) && View() == Run(old(View()), old(data[from..p]))
                && NoneRefused(old(View()), View())
    {
      hide NoneRefused, OneRefused, NeverWraps, Ok, RawStep, ReadBody;
      RunOne(View(), data[from]);
      assert data[from..from + 1] == [data[from]];
      ghost var s0, x := View(), data[from..];
      Ranges(s0);
      var threw, overran := false, false;
      p := from + 1;
      match phase {
        case Start =>
          CaseStart(data[from]);
          StartSilent(s0, data[from]);
        case Head => threw := CaseHead(data[from]);
        case Length => p, threw := CaseLength(data, from);
        case MaskKey => p, threw := CaseMask(data, from);
        case Body =>
          p, overran := CaseBody(data, from, base);
          if !overran {
            assert x[..p - from] == old(data[from..p]);
            RunBody(s0, x[..p - from]);
          }
      }
      o := if threw then Threw else if overran then Overran else Consumed;
      if !overran {
        SpanFits(s0, old(data[from..p]), base + from);
      }
    }

    lemma Ranges(s: State)
      ensures |s.mask| == 4 && (s.phase == Body ==> 0 < s.require < ADDRESSES)
    {
      assert Pow256(8) == ADDRESSES by {
        assert Pow256(4) == 0x1_0000_0000;
      }
    }

    lemma StartSilent(s: State, c: Byte)
      requires s.phase == Start
      ensures NoneRefused(s, Step(s, c))
    {
    }

    /** `websocket_parser_execute`: it consumes all of `data` if and only if no frame header in it is
        refused and no body runs over the end of the address space. */
    method Execute(data: array<Byte>, base: nat) returns (parsed: nat, o: Outcome)
      requires Ok(View()) && base + data.Length < ADDRESSES
      modifies this, data
      ensures o == Consumed <==> Harmless(old(View()), old(data[..])) && NeverWraps(old(View()), old(data[..]), base)
      ensures o == Consumed ==> parsed == data.Length && Ok(View()) && View() == Run(old(View()), old(data[..]))
      ensures o == Threw ==>
                && 0 < parsed <= data.Length && !Harmless(old(View()), old(data[..parsed]))
                && delivered == Run(old(View()), old(data[..parsed])).delivered
      ensures o == Overran ==>
                && parsed < data.Length && Ok(View()) && View() == Run(old(View()), old(data[..parsed]))
                && !Fits(View(), base + parsed)
    {
      hide Refused;
      ghost var s0, x := View(), data[..];
      parsed, o := 0, Consumed;
      assert View() == Run(s0, x[..0]);
      while parsed != data.Length
        invariant parsed <= data.Length == |x| && o == Consumed && data[parsed..] == x[parsed..]
        invariant Ok(View()) && View() == Run(s0, x[..parsed])
        invariant Harmless(s0, x[..parsed]) && NeverWraps(s0, x[..parsed], base)
        decreases data.Length - parsed
      {
        parsed, o := Advance1(data, parsed, base, s0, x);
        if o != Consumed {
          assert x == x[..parsed] + x[parsed..] && data.Length == |x|;
          HarmlessConcat(s0, x[..parsed], x[parsed..]);
          return;
        }
      }
      assert x[..parsed] == x;
    }

    /** A stream that arrives in pieces, each in a buffer of its own. With lawful lengths it is consumed if
        and only if no frame header is refused, however it is cut, and then the parser and the messages
        depend on the bytes only. */
    method FeedAll(pieces: seq<seq<Byte>>, bases: seq<nat>) returns (o: Outcome)
      requires Ok(View()) && |bases| == |pieces|
      requires forall i :: 0 <= i < |pieces| ==> bases[i] + |pieces[i]| <= 0x8000_0000_0000_0000
      modifies this
      ensures o == Consumed ==> Ok(View()) && View() == Run(old(View()), Join(pieces))
      ensures o == Consumed ==> Harmless(old(View()), Join(pieces))
      ensures o == Threw ==> !Harmless(old(View()), Join(pieces))
      ensures o == Overran ==> !Lawful(old(View()), Join(pieces))
    {
      hide Refused, Ok, NeverWraps, Harmless, Lawful;
      ghost var s0: State, done: seq<Byte> := View(), [];
      var i := 0;
      o := Consumed;
      HarmlessNothing(s0);
      while i < |pieces|
        invariant i <= |pieces| && Ok(View()) && View() == Run(s0, done) && o == Consumed
        invariant Harmless(s0, done) && done + Join(pieces[i..]) == Join(pieces)
      {
        ghost var s1: State, rest := View(), Join(pieces[i + 1..]);
        o := Feed(pieces[i], bases[i]);
        Assoc(done, pieces[i], rest);
        HarmlessConcat(s0, done, pieces[i]);
        HarmlessConcat(s0, done + pieces[i], rest);
        if o != Consumed {
          return;
        }
        RunConcat(s0, done, pieces[i]);
        done := done + pieces[i];
        i := i + 1;
      }
      assert pieces[i..] == [] && done + [] == done;
    }

    /** `FeedRecvData`, with a copy of the bytes that have arrived. */
    method Feed(piece: seq<Byte>, base: nat) returns (o: Outcome)
      requires Ok(View()) && base + |piece| <= 0x8000_0000_0000_0000
      modifies this
      ensures o == Consumed ==> Ok(View()) && View() == Run(old(View()), piece) && Harmless(old(View()), piece)
      ensures o == Threw ==> !Harmless(old(View()), piece)
      ensures o == Overran ==> !Lawful(old(View()), piece)
    {
      hide Refused, Ok, NeverWraps, Harmless, Lawful;
      var data := new Byte[|piece|](i requires 0 <= i < |piece| => piece[i]);
      assert data[..] == piece;
      var n;
      ghost var s0: State := View();
      n, o := Execute(data, base);
      if o == Threw {
        HarmlessConcat(s0, piece[..n], piece[n..]);
        assert piece == piece[..n] + piece[n..];
      } else if o == Overran && Lawful(s0, piece) {
        LawfulFits(s0, piece, base);
        FitsAt(s0, piece, base, n);
      }
    }

    lemma FitsAt(s: State, x: seq<Byte>, base: nat, k: nat)
      requires NeverWraps(s, x, base) && k < |x|
      ensures Fits(Run(s, x[..k]), base + k)
    {
    }

    lemma HarmlessNothing(s: State)
      ensures Harmless(s, [])
    {
    }

    method Advance1(data: array<Byte>, from: nat, base: nat, ghost s0: State, ghost x: seq<Byte>)
      returns (p: nat, o: Outcome)
      requires from < data.Length == |x| && data[from..] == x[from..] && base + data.Length < ADDRESSES
      requires Ok(View()) && View() == Run(s0, x[..from])
      requires Harmless(s0, x[..from]) && NeverWraps(s0, x[..from], base)
      modifies this, data
      ensures o == Overran ==>
                p < |x| && Ok(View()) && View() == Run(s0, x[..p]) && !Fits(View(), base + p)
      ensures o == Threw ==>
                from < p <= |x| && !Harmless(s0, x[..p]) && delivered == Run(s0, x[..p]).delivered
      ensures o == Consumed ==>
                && from < p <= |x| && data[p..] == x[p..] && Ok(View()) && View() == Run(s0, x[..p])
                && Harmless(s0, x[..p]) && NeverWraps(s0, x[..p], base)
    {
      hide Refused, Ok, Harmless, NeverWraps, OneRefused, NoneRefused, Run;
      p, o := ExecuteStep(data, from, base);
      if o == Overran {
        return;
      }
      Slices(old(data[from..]), x, from, p);
      assert old(data[from..p]) == old(data[from..])[..p - from];
      assert old(data[p..]) == old(data[from..])[p - from..];
      Joined(s0, x, from, p, base);
    }
  }

  lemma Slices(rest: seq<Byte>, x: seq<Byte>, from: nat, p: nat)
    requires from <= p <= |x| && rest == x[from..]
    ensures rest[..p - from] == x[from..p] && rest[p - from..] == x[p..]
  {
  }

  /** What one more slice of the stream says about the stream so far. */
  lemma Joined(s0: State, x: seq<Byte>, from: nat, p: nat, base: nat)
    requires from <= p <= |x| && Harmless(s0, x[..from]) && NeverWraps(s0, x[..from], base)
    ensures var s1, y := Run(s0, x[..from]), x[from..p];
            && Run(s1, y) == Run(s0, x[..p])
            && (OneRefused(s1, Run(s1, y)) ==> !Harmless(s0, x[..p]) && Run(s1, y).delivered == s1.delivered)
            && (NoneRefused(s1, Run(s1, y)) ==> Harmless(s0, x[..p]))
            && (NeverWraps(s1, y, base + from) ==> NeverWraps(s0, x[..p], base))
  {
    hide Refused, NeverWraps, Run;
    var s1, y := Run(s0, x[..from]), x[from..p];
    assert x[..p] == x[..from] + y;
    RunConcat(s0, x[..from], y);
    HarmlessConcat(s0, x[..from], y);
    if NeverWraps(s1, y, base + from) {
      WrapsConcat(s0, x[..from], y, base);
    }
  }

  lemma WrapsConcat(s: State, x: seq<Byte>, y: seq<Byte>, base: nat)
    requires NeverWraps(s, x, base) && NeverWraps(Run(s, x), y, base + |x|)
    ensures NeverWraps(s, x + y, base)
  {
    hide Run;
    forall k | 0 <= k < |x + y|
      ensures Fits(Run(s, (x + y)[..k]), base + k)
    {
      if k < |x| {
        assert (x + y)[..k] == x[..k];
      } else {
        assert (x + y)[..k] == x + y[..k - |x|];
        RunConcat(s, x, y[..k - |x|]);
      }
    }
  }
}
