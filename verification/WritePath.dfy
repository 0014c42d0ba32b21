/** The write side of an io, lib/libhv/event/nio.c: direct writes, the queue of what the kernel did
    not take, and the close that waits for the queue to drain. Every method is a section under
    `write_mutex`, so a run is any sequence of calls. */
module WritePath {
  import opened Bytes

  /** `offset_buf_t`: a queued buffer, of which the first `offset` bytes are sent. */
  datatype OffsetBuf = OffsetBuf(bytes: seq<Byte>, offset: nat)

  predicate Partly(b: OffsetBuf) {
    b.offset < |b.bytes|
  }

  function Unsent(queue: seq<OffsetBuf>): seq<Byte>
    requires forall i :: 0 <= i < |queue| ==> Partly(queue[i])
  {
    if queue == [] then [] else assert Partly(queue[0]); queue[0].bytes[queue[0].offset..] + Unsent(queue[1..])
  }

  lemma {:induction false} UnsentMore(queue: seq<OffsetBuf>, b: OffsetBuf)
    requires (forall i :: 0 <= i < |queue| ==> Partly(queue[i])) && Partly(b)
    ensures Unsent(queue + [b]) == Unsent(queue) + b.bytes[b.offset..]
  {
    if queue == [] {
      assert [b][1..] == [] && [] + [b] == [b];
    } else {
      assert (queue + [b])[1..] == queue[1..] + [b];
      UnsentMore(queue[1..], b);
    }
  }

  lemma UnsentSome(queue: seq<OffsetBuf>)
    requires forall i :: 0 <= i < |queue| ==> Partly(queue[i])
    ensures queue == [] <==> Unsent(queue) == []
  {
    if queue != [] {
      assert Partly(queue[0]);
    }
  }

  /** What the kernel says to a write: a number of bytes, `EAGAIN`, or another error. */
  const AGAIN: int := -1
  const FAILED: int := -2

  /** One write that the kernel was asked for, and its answer. */
  datatype Asked = Asked(offered: seq<Byte>, answer: int)

  function Taken(answer: int): nat {
    if answer > 0 then answer else 0
  }

  class Io {
    /** Whether the io is a stream, and the limit of `write_bufsize`. */
    const stream: bool
    const max: nat
    var queue: seq<OffsetBuf>
    var bufsize: nat
    /** Whether `HV_WRITE` is registered. */
    var writable: bool
    var error: bool
    var close: bool
    var closed: bool
    /** Close requests posted by `hio_close_async` and not yet run. */
    var posted: nat
    /** The bytes accepted from callers, the bytes the kernel has taken, those that were thrown away
        when the io was closed, and the calls of the close callback. */
    ghost var accepted: seq<Byte>
    ghost var sent: seq<Byte>
    ghost var lost: seq<Byte>
    ghost var closeCalls: nat
    /** Every write the kernel was asked for. */
    ghost var asked: seq<Asked>
    /** The io was closed by a close on top of one that was waiting for the queue. */
    ghost var forced: bool

    ghost predicate Queued()
      reads this
    {
      && (forall i :: 0 <= i < |queue| ==> Partly(queue[i]))
      && bufsize == |Unsent(queue)| + |lost| <= max
    }

    /** While no error occurs, what the kernel has taken and the unsent parts of the queue are, in
        order, all bytes accepted; the size counter is exact and within its limit; a queue that is not
        empty is being watched; the io is closed once, and then every byte accepted has been sent,
        unless one close was put off and another one came before the queue was empty. */
    ghost predicate Valid()
      reads this
    {
      && Queued()
      && (!error ==> sent + Unsent(queue) + lost == accepted)
      && (queue != [] ==> writable && !closed)
      && (lost != [] || forced ==> closed)
      && (closed && !error ==> (sent == accepted <==> !forced))
      && closeCalls == if closed then 1 else 0
    }

    constructor (stream: bool, max: nat)
      ensures Valid() && !closed && !error && !close && queue == [] && accepted == [] && this.stream == stream
          && this.max == max
    {
      this.stream, this.max := stream, max;
      queue, bufsize, writable, error, close, closed, posted := [], 0, false, false, false, false, 0;
      accepted, sent, lost, closeCalls, asked, forced := [], [], [], 0, [], false;
    }

    /** `__nio_write`: the kernel takes a prefix, or refuses. */
    method KernelWrite(buf: seq<Byte>) returns (nwrite: int)
      modifies this`sent, this`asked
      ensures FAILED <= nwrite <= |buf| && asked == old(asked) + [Asked(buf, nwrite)]
      ensures sent == old(sent) + buf[..Taken(nwrite)]
    {
      nwrite :| FAILED <= nwrite <= |buf|;
      asked := asked + [Asked(buf, nwrite)];
      if nwrite > 0 {
        sent := sent + buf[..nwrite];
      }
    }

    /** Why `hio_write` refuses bytes of which the kernel has taken `taken`: what is waiting would be too much. */
    ghost predicate OverLimit(buf: seq<Byte>, taken: nat)
      requires taken <= |buf|
      reads this
    {
      taken < |buf| && bufsize + |buf| - taken > max
    }

    /** What the kernel says to `hio_write`: it is only asked when nothing is waiting, and otherwise takes
        nothing. */
    twostate predicate Answered(buf: seq<Byte>, answer: int)
      reads this
    {
      && FAILED <= answer <= |buf| && sent == old(sent) + buf[..Taken(answer)]
      && if old(closed || queue != []) then answer == AGAIN && asked == old(asked)
         else asked == old(asked) + [Asked(buf, answer)]
    }

    /** `hio_write`. It is refused exactly if the io is closed, or the kernel is asked and fails or answers 0,
        or what the kernel has not taken is too much to wait; a stream is then closed later. Otherwise all
        bytes are accepted, and those that the kernel has not taken are at the end of the queue. */
    method Write(buf: seq<Byte>) returns (r: int, ghost answer: int)
      requires Valid()
      modifies this`queue, this`bufsize, this`writable, this`error, this`posted, this`accepted, this`sent, this`asked
      ensures Valid() && Answered(buf, answer)
      ensures r == -1 <==>
          || old(closed)
          || (old(queue) == [] && (answer == FAILED || answer == 0))
          || old(OverLimit(buf, Taken(answer)))
      ensures r == -1 ==> accepted == old(accepted) && queue == old(queue) && bufsize == old(bufsize)
      ensures r != -1 ==> r == Taken(answer) && error == old(error) && accepted == old(accepted) + buf
      ensures r != -1 ==> queue == old(queue) + if r < |buf| then [OffsetBuf(buf[r..], 0)] else []
      ensures error == (old(error) || (r == -1 && !old(closed) && !(old(queue) == [] && answer == 0)))
      ensures posted == old(posted) + if stream && !old(closed) && r == -1 then 1 else 0
    {
      answer := AGAIN;
      if closed {
        return -1, AGAIN;
      }
      if queue == [] {
        r, answer := TryWrite(buf);
      } else {
        assert sent + buf[..0] == sent;
        r := Remain(buf, 0);
      }
    }

    /** The label `try_write`: the queue is empty, so the kernel is asked first. */
    method TryWrite(buf: seq<Byte>) returns (r: int, ghost answer: int)
      requires Valid() && !closed && queue == []
      modifies this`queue, this`bufsize, this`writable, this`error, this`posted, this`accepted, this`sent, this`asked
      ensures Valid() && Answered(buf, answer)
      ensures r == -1 <==> answer == FAILED || answer == 0 || old(OverLimit(buf, Taken(answer)))
      ensures r == -1 ==> accepted == old(accepted) && queue == [] && bufsize == old(bufsize)
      ensures r != -1 ==> r == Taken(answer) && error == old(error) && accepted == old(accepted) + buf
      ensures r != -1 ==> queue == if r < |buf| then [OffsetBuf(buf[r..], 0)] else []
      ensures error == (old(error) || (r == -1 && answer != 0))
      ensures posted == old(posted) + if stream && r == -1 then 1 else 0
    {
      var nwrite := KernelWrite(buf);
      answer := nwrite;
      if nwrite == FAILED {
        error := true;
        r := CloseAsync();
      } else if nwrite == 0 {
        r := CloseAsync();
      } else if nwrite == |buf| {
        accepted := accepted + buf;
        assert buf[..nwrite] == buf;
        r := nwrite;
      } else {
        writable := true;
        r := Remain(buf, if nwrite == AGAIN then 0 else nwrite);
      }
    }

    /** The rest of `hio_write`: what the kernel has not taken is queued, if and only if it fits. */
    method Remain(buf: seq<Byte>, nwrite: nat) returns (r: int)
      requires Queued() && writable && !closed && nwrite <= |buf| && closeCalls == 0 && lost == [] && !forced
      requires !error ==> sent + Unsent(queue) == accepted + buf[..nwrite] && (nwrite > 0 ==> queue == [])
      modifies this`queue, this`bufsize, this`error, this`posted, this`accepted
      ensures Valid()
      ensures r == if old(OverLimit(buf, nwrite)) then -1 else nwrite
      ensures r == -1 ==> accepted == old(accepted) && queue == old(queue) && bufsize == old(bufsize)
      ensures r != -1 ==> accepted == old(accepted) + buf
      ensures r != -1 ==> queue == old(queue) + if nwrite < |buf| then [OffsetBuf(buf[nwrite..], 0)] else []
      ensures error == (old(error) || r == -1) && posted == old(posted) + if stream && r == -1 then 1 else 0
    {
      if nwrite < |buf| {
        if bufsize + |buf| - nwrite > max {
          error := true;
          r := CloseAsync();
          return;
        }
        ghost var before := Unsent(queue);
        Enqueue(buf[nwrite..]);
        assert sent + (before + buf[nwrite..]) == sent + before + buf[nwrite..];
        assert accepted + buf[..nwrite] + buf[nwrite..] == accepted + (buf[..nwrite] + buf[nwrite..]);
      }
      assert buf == buf[..nwrite] + buf[nwrite..];
      accepted := accepted + buf;
      r := nwrite;
    }

    /** `write_queue_push_back` of the part the kernel did not take. */
    method Enqueue(rest: seq<Byte>)
      requires Queued() && rest != [] && bufsize + |rest| <= max
      modifies this`queue, this`bufsize
      ensures Queued() && Unsent(queue) == old(Unsent(queue)) + rest && queue == old(queue) + [OffsetBuf(rest, 0)]
    {
      UnsentMore(queue, OffsetBuf(rest, 0));
      queue := queue + [OffsetBuf(rest, 0)];
      bufsize := bufsize + |rest|;
    }

    /** The labels `write_error` and `disconnect` of `hio_write`. */
    method CloseAsync() returns (r: int)
      modifies this`posted
      ensures r == -1 && posted == old(posted) + if stream then 1 else 0
    {
      if stream {
        posted := posted + 1;
      }
      r := -1;
    }

    /** The part of `hio_handle_events` that stops watching an io with nothing to write. */
    method StopIfEmpty()
      requires Valid()
      modifies this`writable
      ensures Valid() && writable == (old(writable) && queue != [])
    {
      if queue == [] {
        writable := false;
      }
    }

    /** `nio_write`: queued buffers go out in order until the kernel takes no more. `finish` says that the
        queue is empty and the close that waited for it is due; `gone`, that the kernel answered a write
        with 0, which counts as a broken connection. It only stops early because of the last answer. */
    method FlushQueue() returns (finish: bool, gone: bool)
      requires Valid() && !closed
      modifies this`queue, this`bufsize, this`error, this`close, this`closed, this`writable
      modifies this`sent, this`asked, this`lost, this`closeCalls, this`forced
      ensures Valid() && accepted == old(accepted) && old(sent) <= sent
      ensures finish <==> queue == [] && old(close) && !closed
      ensures Stopped(old(asked), gone, old(error)) && (queue == [] && !closed <==> !CutShort(old(asked)))
      ensures !gone && !error ==> !closed && close == (old(close) && !finish)
      ensures gone && !error && stream ==> if old(close) then closed && |sent| < |accepted| else !closed && close
      ensures gone ==> !finish
      ensures closed ==> stream && (error || gone)
    {
      finish, gone := false, false;
      while queue != []
        invariant Valid() && !closed && accepted == old(accepted) && close == old(close) && old(sent) <= sent
        invariant !gone && error == old(error) && Stopped(old(asked), gone, error) && !CutShort(old(asked))
        decreases |queue|
      {
        var more;
        more, gone := SendFront();
        if !more {
          return;
        }
      }
      if close {
        close := false;
        finish := true;
      }
    }

    /** The kernel took less than it was offered, the last time it was asked. */
    ghost predicate CutShort(before: seq<Asked>)
      reads this
    {
      |asked| > |before| && asked[|asked| - 1].answer < |asked[|asked| - 1].offered|
    }

    /** The kernel has been asked more, and an error or a broken connection is what it said last. */
    ghost predicate Stopped(before: seq<Asked>, gone: bool, hadError: bool)
      reads this
    {
      && before <= asked
      && (gone <==> |asked| > |before| && asked[|asked| - 1].answer == 0)
      && (error <==> hadError || (|asked| > |before| && asked[|asked| - 1].answer == FAILED))
    }

    /** One write of the front buffer; `more` if it went out completely. An answer of 0 closes a stream,
        gracefully at first, but at once if a close is waiting, and then bytes are lost. */
    method SendFront() returns (more: bool, gone: bool)
      requires Valid() && !closed && queue != []
      modifies this`queue, this`bufsize, this`error, this`close, this`closed, this`writable
      modifies this`sent, this`asked, this`lost, this`closeCalls, this`forced
      ensures Valid() && accepted == old(accepted) && old(sent) <= sent
      ensures Stopped(old(asked), gone, old(error)) && |asked| == |old(asked)| + 1 && (more <==> !CutShort(old(asked)))
      ensures asked[|old(asked)|].offered == old(queue[0].bytes[queue[0].offset..])
      ensures more ==> |queue| == |old(queue)| - 1 && !closed && close == old(close) && !gone
      ensures !more ==> closed || queue != []
      ensures !gone && !error ==> !closed && close == old(close)
      ensures gone && !error && stream ==> if old(close) then closed && |sent| < |accepted| else !closed && close
      ensures closed ==> stream && (error || gone)
    {
      hide Unsent;
      more, gone := false, false;
      var front := queue[0];
      var nwrite := KernelWrite(front.bytes[front.offset..]);
      if nwrite == AGAIN {
        return;
      }
      if nwrite == FAILED || nwrite == 0 {
        error := error || nwrite == FAILED;
        gone := nwrite == 0;
        if stream {
          UnsentSome(queue);
          Close();
        }
        return;
      }
      ghost var rest := Unsent(queue);
      Took(nwrite);
      assert sent + Unsent(queue) == old(sent) + rest;
      more := nwrite == |front.bytes| - front.offset;
    }

    /** The bookkeeping after the kernel took `nwrite` bytes of the front buffer. */
    method Took(nwrite: nat)
      requires Queued() && queue != [] && 0 < nwrite <= |queue[0].bytes| - queue[0].offset
      modifies this`queue, this`bufsize
      ensures Queued() && Unsent(old(queue)) == old(queue[0].bytes[queue[0].offset..][..nwrite]) + Unsent(queue)
      ensures if nwrite == old(|queue[0].bytes| - queue[0].offset) then queue == old(queue)[1..]
              else |queue| == |old(queue)|
    {
      var front := queue[0];
      var rest := front.bytes[front.offset..];
      assert rest == rest[..nwrite] + rest[nwrite..];
      bufsize := bufsize - nwrite;
      if nwrite == |rest| {
        queue := queue[1..];
      } else {
        queue := queue[0 := OffsetBuf(front.bytes, front.offset + nwrite)];
        assert front.bytes[front.offset + nwrite..] == rest[nwrite..];
        assert queue[1..] == old(queue)[1..];
      }
    }

    /** `hio_close` on the loop thread: with bytes waiting and no error it is put off, once; otherwise the
        io is closed, what is queued is thrown away, and the close callback runs. Without an error all
        bytes have been sent then if and only if none were waiting. */
    method Close()
      requires Valid()
      modifies this`close, this`closed, this`queue, this`writable, this`lost, this`closeCalls, this`forced
      ensures Valid()
      ensures old(closed) ==> closed && close == old(close) && lost == old(lost)
      ensures !old(closed) ==> closed == (old(queue) == [] || error || old(close))
      ensures !old(closed) && closed ==> queue == [] && lost == old(Unsent(queue))
      ensures !old(closed) && closed && !error ==> (sent == accepted <==> old(queue) == [])
      ensures !closed ==> close && queue == old(queue)
      ensures forced <==> old(forced) || (!old(closed) && old(close) && !error && old(queue) != [])
    {
      if closed {
        return;
      }
      UnsentSome(queue);
      if queue != [] && !error && !close {
        close := true;
        return;
      }
      forced := queue != [] && !error;
      closed := true;
      Done();
      closeCalls := closeCalls + 1;
    }

    /** `hio_done`: the io is no longer watched, and its queue is freed. */
    method Done()
      requires Queued() && lost == []
      modifies this`queue, this`writable, this`lost
      ensures Queued() && queue == [] && lost == old(Unsent(queue)) && !writable
    {
      writable := false;
      lost := Unsent(queue);
      queue := [];
    }

    /** A second close does not wait: bytes that were accepted are then never sent. */
    method CloseTwice()
      requires Valid() && !closed && !error && !close && queue != []
      modifies this`close, this`closed, this`queue, this`writable, this`lost, this`closeCalls, this`forced
      ensures Valid() && closed && !error && |sent| < |accepted|
    {
      UnsentSome(queue);
      Close();
      Close();
    }

    /** A close request posted by `hio_close_async` runs. */
    method RunPosted()
      requires Valid() && posted > 0
      modifies this`close, this`closed, this`queue, this`writable, this`lost, this`closeCalls, this`forced, this`posted
      ensures Valid() && posted == old(posted) - 1
      ensures !old(closed) ==> closed == (old(queue) == [] || error || old(close))
      ensures !old(closed) && closed && !error ==> (sent == accepted <==> old(queue) == [])
    {
      posted := posted - 1;
      Close();
    }

    /** `__close_timeout_cb`: the close has waited long enough. */
    method CloseTimeout()
      requires Valid()
      modifies this`close, this`closed, this`queue, this`writable, this`lost, this`closeCalls, this`forced, this`error
      ensures Valid() && closed && error && (!old(closed) ==> lost == old(Unsent(queue)))
    {
      error := true;
      Close();
    }

    /** `HV_WRITE` is reported: stop watching if there is nothing to write, otherwise write; when that
        empties the queue, a close that was put off happens now. It happens exactly when everything has
        been sent, unless the connection turns out to be broken first. Bytes stay queued only if the kernel
        stops taking them. */
    method HandleWritable() returns (gone: bool)
      requires Valid() && !closed
      modifies this`queue, this`bufsize, this`error, this`close, this`closed, this`writable
      modifies this`sent, this`asked, this`lost, this`closeCalls, this`forced
      ensures Valid() && accepted == old(accepted) && old(sent) <= sent
      ensures !error && !gone && old(close) ==> (closed <==> sent == accepted) && (!closed ==> close)
      ensures !error && !gone && !old(close) ==> !closed && !close
      ensures !error && gone && stream ==> if old(close) then closed && |sent| < |accepted| else !closed && close
      ensures !error && closed ==> old(close) && (sent == accepted <==> !gone)
      ensures Stopped(old(asked), gone, old(error)) && (queue != [] ==> CutShort(old(asked)))
    {
      StopIfEmpty();
      var finish;
      finish, gone := FlushQueue();
      UnsentSome(queue);
      if finish {
        Close();
      }
    }
  }
}
