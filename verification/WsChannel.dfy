/** lib/libhv/http/WebSocketChannel.cpp: sending messages as frames, and the proof that the parser
    at the other end gets back exactly what was sent (RFC 6455, sections 5.4 and 6). */
module WsChannel {
  import opened Bytes
  import opened Folding
  import opened WsSpec
  import opened WsFrame

  datatype SessionType = Client | Server

  // ---------------------------------------------------------------- what a message looks like

  /** The pieces `send` cuts a message into. */
  function Fragments(msg: seq<Byte>, fragment: nat): (r: seq<seq<Byte>>)
    requires fragment > 0
    ensures |r| > 0
  {
    if |msg| <= fragment then [msg] else [msg[..fragment]] + Fragments(msg[fragment..], fragment)
  }

  lemma {:induction false} FragmentsJoin(msg: seq<Byte>, fragment: nat)
    requires fragment > 0
    ensures Join(Fragments(msg, fragment)) == msg
    ensures forall p :: p in Fragments(msg, fragment) ==> |p| <= |msg|
  {
    if |msg| > fragment {
      FragmentsJoin(msg[fragment..], fragment);
      assert Fragments(msg, fragment)[1..] == Fragments(msg[fragment..], fragment);
    } else {
      assert [msg][1..] == [];
    }
  }

  /** `frames` carries `pieces` as one message: the opcode on the first frame, the fin bit on the
      last, continuation frames in between. The masks may be anything. */
  predicate Carries(frames: seq<Packet>, opcode: nat, pieces: seq<seq<Byte>>, fin: bool) {
    && |frames| == |pieces|
    && (forall i :: 0 <= i < |frames| ==>
          && frames[i].data == pieces[i]
          && frames[i].flags.opcode == (if i == 0 then opcode else OP_CONTINUE)
          && frames[i].flags.fin == (fin && i == |frames| - 1))
  }

  function EncodeAll(frames: seq<Packet>): seq<Byte> {
    if frames == [] then [] else EncodeAll(frames[..|frames| - 1]) + Encode(frames[|frames| - 1])
  }

  lemma EncodeNext(frames: seq<Packet>, f: Packet)
    ensures EncodeAll(frames + [f]) == EncodeAll(frames) + Encode(f)
  {
    assert (frames + [f])[..|frames|] == frames;
  }

  // ---------------------------------------------------------------- WebSocketChannel

  class WebSocketChannel {
    const type_: SessionType
    var sendbuf: array<Byte>
    /** Everything that goes out on the connection: the bytes written at once and the bytes queued. */
    var sent: seq<Byte>

    constructor (type_: SessionType)
      ensures sent == [] && fresh(sendbuf) && this.type_ == type_
    {
      this.type_ := type_;
      sendbuf := new Byte[0](_ => 0);
      sent := [];
    }

    /** `SocketChannel::write`: it takes everything, writing at once any part of it and queueing the rest, or
        it fails, when a part may have been written already (lib/libhv/event/nio.c:494-526). */
    method Write(n: nat) returns (r: int)
      requires 0 < n <= sendbuf.Length
      modifies this`sent
      ensures r <= n
      ensures if r < 0 then old(sent) <= sent < old(sent) + sendbuf[..n] else sent == old(sent) + sendbuf[..n]
    {
      r := *;
      if 0 <= r <= n {
        sent := sent + sendbuf[..n];
      } else {
        var part :| 0 <= part < n;
        sent := sent + sendbuf[..part];
        r := -1;
      }
    }

    /** `sendFrame`. The mask is `rand()`: any four bytes. */
    method SendFrame(buf: seq<Byte>, opcode: nat, fin: bool) returns (r: int, ghost frame: Packet)
      requires opcode < 16 && |buf| < 0x7FFF_FFF0
      modifies this`sent, this`sendbuf, sendbuf
      ensures frame.data == buf && frame.flags == Flags(opcode, fin, type_ == Client) && OnWire(Encode(frame), frame)
      ensures if r < 0 then old(sent) <= sent < old(sent) + Encode(frame) else sent == old(sent) + Encode(frame)
      ensures sendbuf == old(sendbuf) || fresh(sendbuf)
    {
      var mask: seq<Byte> := [0, 0, 0, 0];
      if type_ == Client {
        mask := Rand();
      }
      var size := FrameSize(|buf|, type_ == Client);
      PowMono(4, 8);
      assert Pow256(4) == 0x1_0000_0000;
      if sendbuf.Length < size {
        var cap := Ceil2e(size);
        sendbuf := new Byte[cap](_ => 0);
      }
      var n;
      ghost var used;
      n, used := BuildFrame(sendbuf, Flags(opcode, fin, type_ == Client), mask, buf);
      frame := Frame(Flags(opcode, fin, type_ == Client), used, buf);
      r := Write(size);
    }

    method Rand() returns (mask: seq<Byte>)
      ensures |mask| == 4
    {
      var a: Byte, b: Byte, c: Byte, d: Byte := *, *, *, *;
      mask := [a, b, c, d];
    }

    /** `send(buf, len, opcode, fin)`: long messages are fragmented, and then `fin` is ignored. */
    method Send(buf: seq<Byte>, opcode: nat, fin: bool) returns (r: int, ghost frames: seq<Packet>)
      requires opcode < 16 && |buf| < 0x7FFF_FFF0
      modifies this`sent, this`sendbuf, sendbuf
      ensures if r < 0 then Broken(old(sent), sent, frames) else sent == old(sent) + EncodeAll(frames)
      ensures CarriesUpTo(frames, opcode, Fragments(buf, 0xFFFF), fin || |buf| > 0xFFFF)
      ensures r >= 0 ==> |frames| == |Fragments(buf, 0xFFFF)|
      ensures sendbuf == old(sendbuf) || fresh(sendbuf)
    {
      var fragment := 0xFFFF;
      if |buf| > fragment {
        r, frames := SendFragmented(buf, fragment, opcode);
        return;
      }
      r, frames := SendPiece(buf, opcode, fin, [], sent);
    }

    /** `sendPing` (opcode 9) and `sendPong` (opcode 10): constant frames. */
    method SendControl(pong: bool) returns (r: int, ghost frame: Packet)
      modifies this`sent
      ensures frame.data == [] && frame.flags == Flags(if pong then 10 else 9, true, type_ == Client)
      ensures if r < 0 then old(sent) <= sent < old(sent) + Encode(frame) else sent == old(sent) + Encode(frame)
    {
      assert Pow256(8) > 0 by { PowMono(0, 8); }
      frame := Frame(Flags(if pong then 10 else 9, true, type_ == Client), [87, 83, 87, 83], []);
      var bytes: seq<Byte>;
      if type_ == Client {
        bytes := [if pong then 0x8A else 0x89, 0x80, 87, 83, 87, 83];  // "\211\200WSWS", "\212\200WSWS"
      } else {
        bytes := [if pong then 0x8A else 0x89, 0];                      // "\211\0", "\212\0"
      }
      assert Encode(frame) == bytes;
      r := WriteConst(bytes);
    }

    method WriteConst(bytes: seq<Byte>) returns (r: int)
      requires bytes != []
      modifies this`sent
      ensures if r < 0 then old(sent) <= sent < old(sent) + bytes else sent == old(sent) + bytes
    {
      r := *;
      if 0 <= r <= |bytes| {
        sent := sent + bytes;
      } else {
        var part :| 0 <= part < |bytes|;
        sent := sent + bytes[..part];
        r := -1;
      }
    }

    /** One `sendFrame` of the fragment loop. */
    method SendPiece(buf: seq<Byte>, opcode: nat, fin: bool, ghost before: seq<Packet>, ghost start: seq<Byte>)
      returns (r: int, ghost frames: seq<Packet>)
      requires opcode < 16 && |buf| < 0x7FFF_FFF0
      requires sent == start + EncodeAll(before)
      modifies this`sent, this`sendbuf, sendbuf
      ensures if r < 0 then Broken(start, sent, frames) else sent == start + EncodeAll(frames)
      ensures |frames| == |before| + 1 && frames[..|before|] == before && frames[|before|].data == buf
      ensures frames[|before|].flags == Flags(opcode, fin, type_ == Client)
      ensures sendbuf == old(sendbuf) || fresh(sendbuf)
    {
      ghost var f;
      r, f := SendFrame(buf, opcode, fin);
      EncodeNext(before, f);
      frames := before + [f];
      Assoc(start, EncodeAll(before), Encode(f));
    }

    /** `send(buf, len, fragment, opcode)`, under the channel's mutex. A failing `write` ends the
        message in the middle of one of its frames. */
    method SendFragmented(buf: seq<Byte>, fragment: nat, opcode: nat) returns (r: int, ghost frames: seq<Packet>)
      requires opcode < 16 && |buf| < 0x7FFF_FFF0 && fragment > 0
      modifies this`sent, this`sendbuf, sendbuf
      ensures if r < 0 then Broken(old(sent), sent, frames) else sent == old(sent) + EncodeAll(frames)
      ensures CarriesUpTo(frames, opcode, Fragments(buf, fragment), true)
      ensures r >= 0 ==> |frames| == |Fragments(buf, fragment)|
      ensures sendbuf == old(sendbuf) || fresh(sendbuf)
    {
      ghost var pieces := Fragments(buf, fragment);
      if |buf| <= fragment {
        r, frames := SendPiece(buf, opcode, true, [], old(sent));
        return;
      }
      // first fragment
      r, frames := SendPiece(buf[..fragment], opcode, false, [], old(sent));
      NextFragment(buf, fragment, pieces, 0);
      if r < 0 { return; }
      r, frames := SendRest(buf, fragment, opcode, old(sent), frames);
    }

    method SendRest(buf: seq<Byte>, fragment: nat, ghost opcode: nat, ghost start: seq<Byte>, ghost first: seq<Packet>)
      returns (r: int, ghost frames: seq<Packet>)
      requires opcode < 16 && 0 < fragment < |buf| < 0x7FFF_FFF0 && |first| == 1
      requires CarriesPart(first, opcode, Fragments(buf, fragment))
      requires Fragments(buf, fragment)[1..] == Fragments(buf[fragment..], fragment)
      requires sent == start + EncodeAll(first)
      modifies this`sent, this`sendbuf, sendbuf
      ensures if r < 0 then Broken(start, sent, frames) else sent == start + EncodeAll(frames)
      ensures CarriesUpTo(frames, opcode, Fragments(buf, fragment), true)
      ensures r >= 0 ==> |frames| == |Fragments(buf, fragment)|
      ensures sendbuf == old(sendbuf) || fresh(sendbuf)
    {
      hide Fragments, Carries, EncodeAll, Broken;
      ghost var pieces := Fragments(buf, fragment);
      var p := fragment;
      var remain := |buf| - fragment;
      frames := first;
      while remain > fragment
        invariant p + remain == |buf| && remain > 0 && |frames| > 0
        invariant sent == start + EncodeAll(frames)
        invariant CarriesPart(frames, opcode, pieces)
        invariant pieces[|frames|..] == Fragments(buf[p..], fragment)
        invariant sendbuf == old(sendbuf) || fresh(sendbuf)
        decreases remain
      {
        NextFragment(buf[p..], fragment, pieces, |frames|);
        assert buf[p..][..fragment] == buf[p..p + fragment] && buf[p..][fragment..] == buf[p + fragment..];
        ghost var before := frames;
        r, frames := SendPiece(buf[p..p + fragment], OP_CONTINUE, false, frames, start);
        CarriesNext(before, frames, opcode, pieces, false);
        if r < 0 { return; }
        p := p + fragment;
        remain := remain - fragment;
      }
      // last fragment
      NextFragment(buf[p..], fragment, pieces, |frames|);
      ghost var before := frames;
      r, frames := SendPiece(buf[p..], OP_CONTINUE, true, frames, start);
      CarriesNext(before, frames, opcode, pieces, true);
      if r < 0 { return; }
      r := |buf|;
    }
  }

  /** The frames of a message up to some point, none of them the last. */
  predicate CarriesPart(frames: seq<Packet>, opcode: nat, pieces: seq<seq<Byte>>) {
    |frames| <= |pieces| && Carries(frames, opcode, pieces[..|frames|], false)
  }

  /** The frames of a message, or some of its first ones. */
  predicate CarriesUpTo(frames: seq<Packet>, opcode: nat, pieces: seq<seq<Byte>>, fin: bool) {
    if |frames| == |pieces| then Carries(frames, opcode, pieces, fin) else CarriesPart(frames, opcode, pieces)
  }

  /** All of these frames but the last went out, and of the last not everything, perhaps nothing. */
  predicate Broken(start: seq<Byte>, sent: seq<Byte>, frames: seq<Packet>) {
    && frames != []
    && start + EncodeAll(frames[..|frames| - 1]) <= sent < start + EncodeAll(frames)
  }

  lemma CarriesNext(before: seq<Packet>, frames: seq<Packet>, opcode: nat, pieces: seq<seq<Byte>>,
          fin: bool)
    requires 0 < |before| < |pieces| && CarriesPart(before, opcode, pieces)
    requires |frames| == |before| + 1 && frames[..|before|] == before
    requires frames[|before|].data == pieces[|before|]
    requires frames[|before|].flags.opcode == OP_CONTINUE && frames[|before|].flags.fin == fin
    requires fin ==> |frames| == |pieces|
    ensures CarriesUpTo(frames, opcode, pieces, fin) && (!fin ==> CarriesPart(frames, opcode, pieces))
  {
    assert forall i :: 0 <= i < |before| ==> frames[i] == before[i];
  }

  /** The next piece of a message of which `rest` remains. */
  lemma NextFragment(rest: seq<Byte>, fragment: nat, pieces: seq<seq<Byte>>, k: nat)
    requires fragment > 0 && k <= |pieces| && pieces[k..] == Fragments(rest, fragment)
    ensures k < |pieces|
    ensures |rest| <= fragment ==> |pieces| == k + 1 && pieces[k] == rest
    ensures |rest| > fragment ==>
        pieces[k] == rest[..fragment] && pieces[k + 1..] == Fragments(rest[fragment..], fragment)
  {
    assert pieces[k..][0] == pieces[k] && pieces[k..][1..] == pieces[k + 1..];
    assert |pieces[k..]| == |pieces| - k;
  }
}
