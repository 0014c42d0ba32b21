/** What one WebSocketChannel sends, a WebSocketParser at the other end delivers: every message
    once, whole, in order, whatever the fragment size, the masks and the way reads cut the stream. */
module WsRoundTrip {
  import opened Bytes
  import opened Folding
  import opened WsSpec
  import opened WsFrame
  import opened WsChannel
  import opened WsParser

  // ---------------------------------------------------------------- what the receiver sees

  /** The part of the parser's state that outlives a frame. */
  datatype Seen = Seen(stage: Stage, opcode: nat, message: seq<Byte>, delivered: seq<Message>, events: seq<Event>)

  function See(s: Raw): Seen {
    Seen(s.stage, s.opcode, s.message, s.delivered, s.events)
  }

  /** The effect of receiving one whole frame. */
  function Receive(v: Seen, flags: Flags, data: seq<Byte>): Seen {
    var op := if flags.opcode != OP_CONTINUE then flags.opcode else v.opcode;
    var msg := (if v.stage == FrameBegin || v.stage == FrameFin then [] else v.message) + data;
    Seen(if flags.fin then FrameFin else FrameEnd, op, msg,
         if flags.fin then v.delivered + [Message(op, msg)] else v.delivered,
         v.events + [Header(flags, |data|)] + (if data == [] then [] else [Data(data)]) + [End])
  }

  // ---------------------------------------------------------------- one frame

  lemma FirstByte(s: State, f: Packet)
    requires s.phase == Start
    ensures Run(s, [f.flags.opcode + if f.flags.fin then 128 else 0])
         == s.(length := 0, maskOffset := 0, phase := Head, flags := f.flags.(masked := false))
  {
    RunOne(s, f.flags.opcode + if f.flags.fin then 128 else 0);
  }

  /** The length field is read back, in each of its three forms. */
  lemma LengthRead(s: State, n: nat, masked: bool)
    requires s.phase == Head && !s.flags.masked && n < Pow256(8)
    ensures Run(s, LengthField(n, masked)) == LengthDone(s.(length := n, flags := s.flags.(masked := masked)))
  {
    hide LengthDone;
    var m := if masked then 128 else 0;
    if n < 126 {
      RunOne(s, m + n);
    } else if n <= 0xFFFF {
      assert Pow256(2) == 0x1_0000;
      LengthReadLong(s, n, masked, 2);
    } else {
      LengthReadLong(s, n, masked, 8);
    }
  }

  lemma LengthReadLong(s: State, n: nat, masked: bool, k: nat)
    requires s.phase == Head && !s.flags.masked && 126 <= n < Pow256(k) && (k == 2 || k == 8)
    ensures Run(s, [(if masked then 128 else 0) + if k == 2 then 126 else 127] + BigEndian(n, k))
         == LengthDone(s.(length := n, flags := s.flags.(masked := masked)))
  {
    var c := (if masked then 128 else 0) + if k == 2 then 126 else 127;
    LongHead(s, masked, k);
    RunOne(s, c);
    RunConcat(s, [c], BigEndian(n, k));
    LongLength(Step(s, c), n, k);
    LengthDoneRequire(s.(length := n, flags := s.flags.(masked := masked)), 0, Length);
  }

  lemma LongHead(s: State, masked: bool, k: nat)
    requires s.phase == Head && !s.flags.masked && (k == 2 || k == 8)
    ensures Step(s, (if masked then 128 else 0) + if k == 2 then 126 else 127)
         == s.(flags := s.flags.(masked := masked), require := k, length := 0, phase := Length)
  {
  }

  lemma LongLength(s: State, n: nat, k: nat)
    requires s.phase == Length && s.length == 0 && s.require == k > 0 && n < Pow256(k)
    ensures Run(s, BigEndian(n, k)) == LengthDone(s.(length := n, require := 0))
  {
    BigEndianRoundTrip(n, k);
    RunLength(s, BigEndian(n, k));
  }

  /** A non-empty frame leaves no trace of the length counter or of the phase before it. */
  lemma LengthDoneRequire(s: Raw, k: nat, p: Phase)
    requires s.length > 0
    ensures LengthDone(s.(require := k, phase := p)) == LengthDone(s)
  {
  }

  lemma MaskedTwice(data: seq<Byte>, mask: seq<Byte>)
    requires |mask| == 4
    ensures Masked(Masked(data, mask, 0), mask, 0) == data
  {
    var r := Masked(data, mask, 0);
    forall i | 0 <= i < |r|
      ensures Xor(r[i], mask[(i + 0) % 4]) == data[i]
    {
      XorInvolution(data[i], mask[(i + 0) % 4]);
    }
  }

  lemma DataRead(s: Raw, raw: seq<Byte>, data: seq<Byte>)
    requires |s.mask| == 4 && s.length == |raw| == |data| && s.maskOffset == 0 && Unmask(s, raw) == data
    requires Ok(HeaderDone(s))
    ensures Run(HeaderDone(s), raw).phase == Start
    ensures See(Run(HeaderDone(s), raw)) == Receive(See(s), s.flags, data)
  {
    var h := HeaderDone(s);
    if raw == [] {
      assert data == [] && Run(h, raw) == h;
      assert See(h).events == See(s).events + [Header(s.flags, 0)] + [] + [End];
      assert OnHeader(s).message + data == OnHeader(s).message;
    } else {
      RunBody(h, raw);
      assert Unmask(h, raw) == data;
    }
  }

  /** The mask and the body of a frame, from where its length field ends. */
  lemma PayloadRead(s: State, f: Packet)
    requires s.flags == f.flags && s.length == |f.data| && s.maskOffset == 0
    ensures Ok(LengthDone(s))
    ensures Run(LengthDone(s), Payload(f)).phase == Start
    ensures See(Run(LengthDone(s), Payload(f))) == Receive(See(s), f.flags, f.data)
  {
    LengthDoneOk(s);
    if f.flags.masked {
      var s1 := LengthDone(s);
      var s2 := s.(mask := f.mask, phase := MaskKey, require := 0);
      RunMask(s1, f.mask);
      assert Overlay(s1.mask, 0, f.mask) == f.mask;
      RunConcat(s1, f.mask, Masked(f.data, f.mask, 0));
      MaskedTwice(f.data, f.mask);
      HeaderDoneOk(s2);
      DataRead(s2, Masked(f.data, f.mask, 0), f.data);
    } else {
      DataRead(s, f.data, f.data);
    }
  }

  /** A whole frame, from any state between frames. */
  lemma FrameRead(s: State, f: Packet)
    requires s.phase == Start
    ensures Run(s, Encode(f)).phase == Start
    ensures See(Run(s, Encode(f))) == Receive(See(s), f.flags, f.data)
  {
    var b := [f.flags.opcode + if f.flags.fin then 128 else 0];
    var len := LengthField(|f.data|, f.flags.masked);
    FirstByte(s, f);
    var s1 := Run(s, b);
    RunConcat(s, b, len);
    RunConcat(s, b + len, Payload(f));
    PowMono(0, 8);
    LengthRead(s1, |f.data|, f.flags.masked);
    var s2 := s1.(length := |f.data|, flags := f.flags);
    assert s2.flags == s1.flags.(masked := f.flags.masked);
    FrameReadTail(s, s1, f);
  }

  lemma FrameReadTail(s: State, s1: State, f: Packet)
    requires s1 == s.(length := 0, maskOffset := 0, phase := Head, flags := f.flags.(masked := false))
    ensures var s2 := s1.(length := |f.data|, flags := f.flags);
            && Ok(LengthDone(s2))
            && Run(LengthDone(s2), Payload(f)).phase == Start
            && See(Run(LengthDone(s2), Payload(f))) == Receive(See(s), f.flags, f.data)
  {
    // the phase and the byte counter are overwritten, so any consistent ones will do
    var s2 := s1.(length := |f.data|, flags := f.flags);
    var s3 := s2.(phase := Start);
    LengthDoneOk(s2);
    PayloadRead(s3, f);
    assert LengthDone(s3) == LengthDone(s2);
    assert See(s3) == See(s);
  }

  // ---------------------------------------------------------------- one message

  function ReceiveAll(v: Seen, frames: seq<Packet>): Seen {
    if frames == [] then v
    else
      var f := frames[|frames| - 1];
      Receive(ReceiveAll(v, frames[..|frames| - 1]), f.flags, f.data)
  }

  lemma {:induction false} FramesRead(s: State, frames: seq<Packet>)
    requires s.phase == Start
    ensures Run(s, EncodeAll(frames)).phase == Start
    ensures See(Run(s, EncodeAll(frames))) == ReceiveAll(See(s), frames)
  {
    if frames != [] {
      var front, f := frames[..|frames| - 1], frames[|frames| - 1];
      FramesRead(s, front);
      RunConcat(s, EncodeAll(front), Encode(f));
      FrameRead(Run(s, EncodeAll(front)), f);
    }
  }

  /** The data of the first `k` pieces. */
  function Prefix(pieces: seq<seq<Byte>>, k: nat): seq<Byte>
    requires k <= |pieces|
  {
    if k == 0 then [] else Prefix(pieces, k - 1) + pieces[k - 1]
  }

  lemma PrefixJoin(pieces: seq<seq<Byte>>)
    ensures Prefix(pieces, |pieces|) == Join(pieces)
  {
    PrefixTail(pieces, |pieces|);
  }

  lemma {:induction false} PrefixTail(pieces: seq<seq<Byte>>, k: nat)
    requires k <= |pieces|
    ensures Prefix(pieces, k) + Join(pieces[k..]) == Join(pieces)
  {
    if k > 0 {
      PrefixTail(pieces, k - 1);
      assert pieces[k - 1..][1..] == pieces[k..];
      assert Prefix(pieces, k) + Join(pieces[k..]) == Prefix(pieces, k - 1) + (pieces[k - 1] + Join(pieces[k..]));
    }
  }

  /** Between messages: nothing of an unfinished message is held. */
  predicate Idle(v: Seen) {
    v.stage == FrameBegin || v.stage == FrameFin
  }

  /** After `k` frames of a message that carries `pieces`. */
  lemma {:induction false} PartRead(v: Seen, frames: seq<Packet>, opcode: nat, pieces: seq<seq<Byte>>, k: nat)
    requires Idle(v) && opcode != OP_CONTINUE && Carries(frames, opcode, pieces, true)
    requires 0 < k <= |frames|
    ensures var r := ReceiveAll(v, frames[..k]);
            && r.opcode == opcode && r.message == Prefix(pieces, k)
            && r.stage == (if k == |frames| then FrameFin else FrameEnd)
            && r.delivered == v.delivered + if k == |frames| then [Message(opcode, Prefix(pieces, k))] else []
  {
    assert frames[..k][..k - 1] == frames[..k - 1];
    if k == 1 {
      assert ReceiveAll(v, frames[..0]) == v;
      assert Prefix(pieces, 1) == Prefix(pieces, 0) + pieces[0] == pieces[0];
    } else {
      PartRead(v, frames, opcode, pieces, k - 1);
    }
  }

  /** End to end for one message: if `send` cut `msg` into these frames, the parser calls
      `onMessage` exactly once, with the opcode and the bytes that were sent, and is idle again. */
  lemma MessageRead(s: State, frames: seq<Packet>, opcode: nat, msg: seq<Byte>, fragment: nat)
    requires s.phase == Start && Idle(See(s)) && opcode != OP_CONTINUE && fragment > 0
    requires Carries(frames, opcode, Fragments(msg, fragment), true)
    ensures var r := Run(s, EncodeAll(frames));
            r.phase == Start && Idle(See(r)) && r.delivered == s.delivered + [Message(opcode, msg)]
  {
    var pieces := Fragments(msg, fragment);
    FramesRead(s, frames);
    PartRead(See(s), frames, opcode, pieces, |frames|);
    assert frames[..|frames|] == frames;
    PrefixJoin(pieces);
    FragmentsJoin(msg, fragment);
  }

  // ---------------------------------------------------------------- many messages

  /** A message handed to `send`, and the frames it became. */
  datatype Outgoing = Outgoing(opcode: nat, msg: seq<Byte>, fragment: nat, frames: seq<Packet>)

  predicate WellSent(o: Outgoing) {
    && o.opcode != OP_CONTINUE && o.fragment > 0 && |o.msg| < 0x7FFF_FFF0
    && Carries(o.frames, o.opcode, Fragments(o.msg, o.fragment), true)
  }

  function Stream(out: seq<Outgoing>): seq<Byte> {
    if out == [] then [] else Stream(out[..|out| - 1]) + EncodeAll(out[|out| - 1].frames)
  }

  function Messages(out: seq<Outgoing>): seq<Message> {
    seq(|out|, i requires 0 <= i < |out| => Message(out[i].opcode, out[i].msg))
  }

  lemma StreamNext(s: State, r: State, front: seq<Outgoing>, o: Outgoing)
    requires WellSent(o) && r == Run(s, Stream(front)) && r.phase == Start && Idle(See(r))
    ensures var r' := Run(s, Stream(front) + EncodeAll(o.frames));
            r'.phase == Start && Idle(See(r')) && r'.delivered == r.delivered + [Message(o.opcode, o.msg)]
  {
    RunConcat(s, Stream(front), EncodeAll(o.frames));
    MessageRead(r, o.frames, o.opcode, o.msg, o.fragment);
  }

  lemma NothingRead(s: State)
    ensures Run(s, []) == s
  {
  }

  lemma {:induction false} StreamRead(s: State, out: seq<Outgoing>)
    requires s.phase == Start && Idle(See(s)) && forall o :: o in out ==> WellSent(o)
    ensures var r := Run(s, Stream(out));
            r.phase == Start && Idle(See(r)) && r.delivered == s.delivered + Messages(out)
  {
    hide WellSent, Run, See;
    if out == [] {
      NothingRead(s);
    } else {
      var front, o := out[..|out| - 1], out[|out| - 1];
      assert WellSent(o) && forall p :: p in front ==> p in out;
      StreamRead(s, front);
      StreamNext(s, Run(s, Stream(front)), front, o);
      assert Messages(out) == Messages(front) + [Message(o.opcode, o.msg)];
    }
  }

  // ---------------------------------------------------------------- lengths

  /** Every header announces a length that `send` can have produced. */
  predicate Moderate(events: seq<Event>) {
    forall i :: 0 <= i < |events| && events[i].Header? ==> events[i].length < 0x7FFF_FFF0
  }

  lemma {:induction false} FramesModerate(v: Seen, frames: seq<Packet>)
    requires Moderate(v.events) && forall f :: f in frames ==> |f.data| < 0x7FFF_FFF0
    ensures Moderate(ReceiveAll(v, frames).events)
  {
    if frames != [] {
      var front, f := frames[..|frames| - 1], frames[|frames| - 1];
      assert f in frames;
      FramesModerate(v, front);
    }
  }

  lemma {:induction false} StreamModerate(s: State, out: seq<Outgoing>)
    requires s.phase == Start && Idle(See(s)) && Moderate(s.events) && forall o :: o in out ==> WellSent(o)
    ensures Moderate(Run(s, Stream(out)).events)
  {
    if out != [] {
      var front, o := out[..|out| - 1], out[|out| - 1];
      assert WellSent(o) && forall p :: p in front ==> p in out;
      StreamModerate(s, front);
      StreamRead(s, front);
      var r := Run(s, Stream(front));
      RunConcat(s, Stream(front), EncodeAll(o.frames));
      FramesRead(r, o.frames);
      PiecesModerate(o);
      FramesModerate(See(r), o.frames);
    }
  }

  lemma PiecesModerate(o: Outgoing)
    requires WellSent(o)
    ensures forall f :: f in o.frames ==> |f.data| < 0x7FFF_FFF0
  {
    FragmentsJoin(o.msg, o.fragment);
    forall f | f in o.frames
      ensures |f.data| < 0x7FFF_FFF0
    {
      var i :| 0 <= i < |o.frames| && o.frames[i] == f;
      assert Fragments(o.msg, o.fragment)[i] in Fragments(o.msg, o.fragment);
    }
  }

  lemma ModerateHarmless(s: State, x: seq<Byte>)
    requires Moderate(Run(s, x).events)
    ensures Harmless(s, x) && Lawful(s, x)
  {
    hide Run;
    forall i | 0 <= i < |Run(s, x).events| && Run(s, x).events[i].Header?
      ensures !Refused(Run(s, x).events[i].length)
    {
      RefusedExactly(Run(s, x).events[i].length);
    }
  }

  /** What a header with an eight-byte length does to a fresh parser: it is harmless exactly when its length
      is not refused. */
  lemma LongHeader(garbage: nat, n: nat)
    requires 0xFFFF < n < Pow256(8)
    ensures Harmless(Fresh(garbage), [0x82] + ([0x7F] + BigEndian(n, 8))) <==> !Refused(n)
  {
    var s: State, b, len := Fresh(garbage), [0x82], LengthField(n, false);
    assert len == [0x7F] + BigEndian(n, 8);
    var f := Frame(Flags(2, true, false), [0, 0, 0, 0], []);
    PowMono(0, 8);
    FirstByte(s, f);
    RunConcat(s, b, len);
    LengthRead(Run(s, b), n, false);
  }

  /** So ten bytes are enough to make the parser throw. */
  lemma TenBytesThrow(garbage: nat)
    ensures !Harmless(Fresh(garbage), [0x82, 0x7F, 0, 0, 0, 0, 0x80, 0, 0, 0])
  {
    hide Harmless, Refused, BigEndian, Pow256;
    TwoToThe31();
    LongHeader(garbage, 0x8000_0000);
    RefusedExactly(0x8000_0000);
    assert [0x82] + ([0x7F] + [0, 0, 0, 0, 0x80, 0, 0, 0]) == [0x82, 0x7F, 0, 0, 0, 0, 0x80, 0, 0, 0];
  }

  lemma TwoToThe31()
    ensures BigEndian(0x8000_0000, 8) == [0, 0, 0, 0, 0x80, 0, 0, 0] && 0x8000_0000 < Pow256(8)
  {
    assert BigEndian(0x80, 5) == [0, 0, 0, 0, 0x80] by {
      assert BigEndian(0, 4) == [0, 0, 0, 0];
    }
    assert BigEndian(0x80_0000, 7) == [0, 0, 0, 0, 0x80, 0, 0] by {
      assert BigEndian(0x8000, 6) == [0, 0, 0, 0, 0x80, 0];
    }
    assert 0x8000_0000 < Pow256(8) by {
      assert Pow256(4) == 0x1_0000_0000;
      PowMono(4, 8);
    }
  }

  // ---------------------------------------------------------------- end to end

  /** The whole promise: messages sent one after the other over a connection whose reads cut the
      stream anywhere are delivered once each, in order, with their opcodes and bytes; and nothing in the
      stream makes the parser throw. */
  lemma EndToEnd(garbage: nat, out: seq<Outgoing>, parts: seq<seq<Byte>>)
    requires forall o :: o in out ==> WellSent(o)
    requires Join(parts) == Stream(out)
    ensures FoldAll<State, Byte>(Step, Fresh(garbage), parts).delivered == Messages(out)
    ensures Harmless(Fresh(garbage), Join(parts)) && Lawful(Fresh(garbage), Join(parts))
  {
    ReadsDoNotMatter(Fresh(garbage), parts);
    StreamRead(Fresh(garbage), out);
    StreamModerate(Fresh(garbage), out);
    ModerateHarmless(Fresh(garbage), Join(parts));
  }

  /** Sends messages one after the other, each in fragments of its own size. */
  method SendAll(ch: WebSocketChannel, msgs: seq<Message>, fragments: seq<nat>)
    returns (ok: bool, ghost out: seq<Outgoing>)
    requires |fragments| == |msgs|
    requires forall i :: 0 <= i < |msgs| ==> CanSend(msgs[i]) && fragments[i] > 0
    modifies ch, ch.sendbuf
    ensures forall o :: o in out ==> WellSent(o)
    ensures ok ==> ch.sent == old(ch.sent) + Stream(out) && Messages(out) == msgs
  {
    hide WellSent, Stream, Fragments, Carries, CarriesUpTo, CarriesPart, EncodeAll;
    ok, out := true, [];
    assert ch.sent == old(ch.sent) + Stream([]) by {
      NothingSent();
    }
    assert Messages(out) == msgs[..0];
    var i := 0;
    while i < |msgs|
      invariant i <= |msgs| && Messages(out) == msgs[..i] && ch.sent == old(ch.sent) + Stream(out)
      invariant forall o :: o in out ==> WellSent(o)
      invariant ch.sendbuf == old(ch.sendbuf) || fresh(ch.sendbuf)
    {
      var r;
      ghost var frames;
      if fragments[i] == 0xFFFF {
        r, frames := ch.Send(msgs[i].data, msgs[i].opcode, true);
      } else {
        r, frames := ch.SendFragmented(msgs[i].data, fragments[i], msgs[i].opcode);
      }
      if r < 0 {
        ok := false;
        return;
      }
      ghost var o := Outgoing(msgs[i].opcode, msgs[i].data, fragments[i], frames);
      SentWell(o);
      StreamMore(out, o);
      Assoc(old(ch.sent), Stream(out), EncodeAll(frames));
      assert Messages(out + [o]) == Messages(out) + [msgs[i]] && msgs[..i] + [msgs[i]] == msgs[..i + 1];
      out := out + [o];
      i := i + 1;
    }
    assert msgs[..i] == msgs;
  }

  predicate CanSend(m: Message) {
    0 < m.opcode < 16 && |m.data| < 0x7FFF_FFF0
  }

  /** What a successful `send` promises is what the receiver relies on. */
  lemma SentWell(o: Outgoing)
    requires CanSend(Message(o.opcode, o.msg)) && o.fragment > 0
    requires CarriesUpTo(o.frames, o.opcode, Fragments(o.msg, o.fragment), true)
    requires |o.frames| == |Fragments(o.msg, o.fragment)|
    ensures WellSent(o)
  {
  }

  lemma NothingSent()
    ensures Stream([]) == []
  {
  }

  lemma StreamMore(out: seq<Outgoing>, o: Outgoing)
    ensures Stream(out + [o]) == Stream(out) + EncodeAll(o.frames)
  {
    assert (out + [o])[..|out|] == out;
  }

  /** A channel and a parser at the two ends of a connection: whatever the messages, the fragment sizes and
      the way the bytes are cut into reads, what was sent successfully is what is delivered. */
  method Converse(ch: WebSocketChannel, parser: WebSocketParser, msgs: seq<Message>, fragments: seq<nat>,
                  cut: seq<Byte> -> seq<seq<Byte>>, base: nat)
    returns (ok: bool)
    requires ch.sent == [] && parser.View() == Fresh(parser.opcode)
    requires |fragments| == |msgs| && forall i :: 0 <= i < |msgs| ==> CanSend(msgs[i]) && fragments[i] > 0
    requires forall x :: Join(cut(x)) == x
    requires forall x, i :: 0 <= i < |cut(x)| ==> base + |cut(x)[i]| <= 0x8000_0000_0000_0000
    modifies ch, ch.sendbuf, parser
    ensures ok ==> parser.delivered == msgs
  {
    ghost var garbage, out := parser.opcode, [];
    ok, out := SendAll(ch, msgs, fragments);
    if ok {
      var pieces := cut(ch.sent);
      assert ch.sent == Stream(out);
      EndToEnd(garbage, out, pieces);
      ReadsDoNotMatter(Fresh(garbage), pieces);
      var o := parser.FeedAll(pieces, seq(|pieces|, i => base));
      assert o == Consumed;
    }
  }
}
