/** `http_parser_execute` on one read buffer: marks into the buffer, bulk loops over header names,
    header values and bodies, and the callbacks. */
module HttpParser {
  import opened HttpChars
  import opened Options
  import opened HttpStep
  import opened HttpTrace
  import opened HttpInvariant
  import opened HttpWords
  import opened HttpNumbers
  import opened HttpBody
  import opened HttpMarks
  import opened HttpLimit
  import opened Folding

  /** A sequence of callbacks, adjacent data callbacks about one part joined. */
  function Merged(calls: seq<Event>): seq<Event> {
    if calls == [] then []
    else
      var e, rest := calls[|calls| - 1], Merged(calls[..|calls| - 1]);
      if e.Data? then Emit(rest, e.part, e.text) else rest + [e]
  }

  lemma MergedMore(calls: seq<Event>, e: Event)
    ensures Merged(calls + [e]) == if e.Data? then Emit(Merged(calls), e.part, e.text) else Merged(calls) + [e]
  {
    assert (calls + [e])[..|calls|] == calls;
  }

  /** The mark that is set: the part, and where in the buffer it begins. */
  type Mark = Option<(Part, nat)>

  predicate MarkWithin(mark: Mark, end: nat) {
    mark.Some? ==> mark.value.1 <= end
  }

  /** The trace as it would be if the open part were handed over up to `end`. */
  function Seen(calls: seq<Event>, mark: Mark, data: string, end: nat): seq<Event>
    requires end <= |data| && MarkWithin(mark, end)
  {
    if mark.None? then Merged(calls) else Emit(Merged(calls), mark.value.0, data[mark.value.1..end])
  }

  /** A part other than the body always has its mark set; the body may. */
  predicate MarkFits(mark: Mark, o: Option<Part>) {
    if o.None? then mark.None?
    else if o.value == Body then mark.Some? ==> mark.value.0 == Body
    else mark.Some? && mark.value.0 == o.value
  }

  /** The last callback was about this part. */
  predicate Touches(events: seq<Event>, part: Part) {
    events != [] && events[|events| - 1].Data? && events[|events| - 1].part == part
  }

  /** The callbacks of a call that ends in an error: those for all bytes before the error, except that the
      text of the part that was open is missing, or cut short; an empty value may have been reported for the
      byte in error. */
  ghost predicate Behind(seen: seq<Event>, events: seq<Event>) {
    || seen == events || seen == Emit(events, Value, "")
    || exists part: Part, text: string {:trigger Emit(seen, part, text)} :: events == Emit(seen, part, text)
  }

  lemma SeenBehind(calls: seq<Event>, mark: Mark, data: string, end: nat)
    requires end <= |data| && MarkWithin(mark, end)
    ensures Behind(Merged(calls), Seen(calls, mark, data, end))
  {
  }

  lemma TouchesNothing(events: seq<Event>, part: Part)
    requires Touches(events, part)
    ensures Emit(events, part, "") == events
  {
    var n := |events|;
    assert events[n - 1].text + "" == events[n - 1].text;
    assert events[..n - 1] + [events[n - 1]] == events;
  }

  class HttpParser {
    /** `max_header_size`. */
    const max: nat
    var core: Core
    /** The callbacks made so far. */
    var calls: seq<Event>

    ghost function Contents(): State
      reads this
    {
      State(core, Merged(calls))
    }

    /** Between two calls: inside a part that is not the body, the last callback was about that part. */
    ghost predicate Valid()
      reads this
    {
      && (core.errno == OK ==> !core.left && Inv(core))
      && (core.errno == OK && OpenPart(core.phase).Some? && OpenPart(core.phase).value != Body ==>
            Touches(Merged(calls), OpenPart(core.phase).value))
    }

    constructor (kind: Kind, lenient: bool, reply: nat, max: nat)
      requires reply <= 2
      ensures Valid() && Contents() == State(Init(kind, lenient, reply), []) && this.max == max
    {
      this.max := max;
      core, calls := Init(kind, lenient, reply), [];
      new;
      InitOk(kind, lenient, reply);
    }

    /** The acts of one byte, on the mark and the callbacks. `end` is `p`, or `p + 1` once the byte has
        been taken. */
    method Perform(acts: seq<Act>, data: string, p: nat, mark0: Mark, end: nat, ghost o: Option<Part>,
            ghost to: Option<Part>)
      returns (mark: Mark)
      requires p < |data| && p <= end <= p + 1 && MarkWithin(mark0, end)
      requires (mark0.Some? ==> o == Some(mark0.value.0)) && Well(o, acts, to)
      requires end == p + 1 ==> NoTake(acts)
      modifies this`calls
      ensures MarkWithin(mark, p + 1) && MarkFits(mark, to)
      ensures Seen(calls, mark, data, p + 1) == Apply(Seen(old(calls), mark0, data, end), acts, data[p])
      decreases |acts|
    {
      hide Emit, Merged, Apply;
      ghost var before := Seen(calls, mark0, data, end);
      if acts == [] {
        mark := None;
        NoActs(before, data[p]);
        return;
      }
      assert acts == [acts[0]] + acts[1..];
      ApplyConcat(before, [acts[0]], acts[1..], data[p]);
      ApplySingle(before, acts[0], data[p]);
      var end';
      mark, end' := PerformOne(acts[0], data, p, mark0, end, o);
      if |acts| > 1 {
        mark := Perform(acts[1..], data, p, mark, end', After(o, acts[0]), to);
      } else {
        NoActs(Apply(before, [acts[0]], data[p]), data[p]);
      }
    }

    /** `MARK`, `CALLBACK_DATA` or `CALLBACK_NOTIFY`. */
    method PerformOne(act: Act, data: string, p: nat, mark0: Mark, end0: nat, ghost o: Option<Part>)
      returns (mark: Mark, end: nat)
      requires p < |data| && p <= end0 <= p + 1 && MarkWithin(mark0, end0)
      requires (mark0.Some? ==> o == Some(mark0.value.0)) && Fits(o, act) && (end0 == p + 1 ==> !act.Take?)
      modifies this`calls
      ensures p <= end <= p + 1 && MarkWithin(mark, end) && (mark.Some? ==> end == p + 1)
      ensures After(o, act) == if mark.Some? then Some(mark.value.0) else None
      ensures Seen(calls, mark, data, end) == ApplyOne(Seen(old(calls), mark0, data, end0), act, data[p])
      ensures end == p + 1 ==> act.Take? || end0 == p + 1
    {
      hide Emit, Merged;
      mark, end := mark0, end0;
      match act {
        case Take(part) =>
          if mark.None? {
            mark := Some((part, p));
            assert data[p..p + 1] == [data[p]];
          } else {
            ghost var m := mark.value.1;
            assert data[m..p + 1] == data[m..p] + [data[p]];
            EmitTwice(Merged(calls), part, data[m..p], [data[p]]);
          }
          end := p + 1;
        case Flush(part) =>
          if mark.Some? {
            MergedMore(calls, Data(part, data[mark.value.1..end]));
            calls := calls + [Data(part, data[mark.value.1..end])];
            mark := None;
          }
        case Empty(part) =>
          MergedMore(calls, Data(part, ""));
          calls := calls + [Data(part, "")];
        case Notify(e) =>
          MergedMore(calls, e);
          calls := calls + [e];
      }
    }

    // -------------------------------------------------------------- bulk loops

    /** What the loops over names, values and bodies leave behind: exactly what the single bytes would. */
    twostate predicate Advanced(data: string, from: nat, mark0: Mark, new p: nat, new mark: Mark)
      requires from <= p <= |data| && MarkWithin(mark0, from) && MarkWithin(mark, p)
      reads this
    {
      && calls == old(calls)
      && State(core, Seen(calls, mark, data, p))
        == Run(State(old(core), Seen(old(calls), mark0, data, from)), data[from..p])
    }

    /** What a bulk loop took keeps to the limit, and so does the byte at which it stopped. */
    twostate predicate TookWithin(data: string, from: nat, mark0: Mark, new p: nat, new mark: Mark)
      requires from <= |data| && MarkWithin(mark0, from)
      reads this
    {
      && Running(core) && from <= p <= |data| && MarkWithin(mark, p) && Advanced(data, from, mark0, p, mark)
      && Within(State(old(core), Seen(old(calls), mark0, data, from)), data[from..p], max)
      && (p < |data| ==> RoomFor(core, max))
    }

    /** A bulk loop ended in an error, and the header is too large. */
    twostate predicate Broke(data: string, from: nat, mark0: Mark, new p: nat)
      requires from <= |data| && MarkWithin(mark0, from)
      reads this
    {
      && core.errno != OK && p < |data|
      && !Within(State(old(core), Seen(old(calls), mark0, data, from)), data[from..], max)
    }

    /** A bulk loop met the byte at `p`, which is an error of its own. */
    twostate predicate Erred(data: string, from: nat, mark0: Mark, new p: nat)
      requires from <= |data| && MarkWithin(mark0, from)
      reads this
    {
      ErrsAt(State(old(core), Seen(old(calls), mark0, data, from)), data, from, p)
    }

    /** Inside the bulk loops over a header: the count is brought up to date only at their end. */
    ghost predicate Synced(s: State, data: string, from: nat, p: nat, mark: Mark)
      requires from <= p <= |data| && MarkWithin(mark, p)
      reads this
    {
      State(Moved(core, core.phase, core.name, p - from), Seen(calls, mark, data, p)) == Run(s, data[from..p])
    }

    /** The loop of `h_general` inside it: up to the last byte of the name in this buffer, or less. */
    method SkipName(data: string, from: nat, p0: nat, mark: Mark, ghost s: State) returns (p: nat)
      requires from <= p0 < |data| && Running(core) && core.phase == Heading(HeaderField)
      requires core.name.header == General && Token(data[p0]) != NUL
      requires MarkWithin(mark, from) && MarkFits(mark, Some(Field)) && Synced(s, data, from, p0, mark)
      ensures p0 <= p < |data| && Token(data[p]) != NUL && Synced(s, data, from, p, mark)
    {
      hide Token, NameChar, Emit, Merged, Step, Seen;
      var limit := if |data| - p0 < max then |data| - p0 else max;
      p := p0;
      while p + 1 < limit && Token(data[p + 1]) != NUL
        invariant p0 <= p < |data| && Token(data[p]) != NUL && Synced(s, data, from, p, mark)
      {
        FieldAdvance(s, core, Seen(calls, mark, data, p), data, from, p);
        SeenMore(calls, mark, data, p);
        NameCharGeneral(core.name.index, Token(data[p]));
        p := p + 1;
      }
    }

    /** The loop of `s_header_field`: the bytes of the name up to the first that is none, which is counted
        with them. */
    method ScanField(data: string, from: nat, mark: Mark) returns (p: nat)
      requires from < |data| && Running(core) && core.phase == Heading(HeaderField)
      requires MarkWithin(mark, from) && MarkFits(mark, Some(Field))
      modifies this`core
      ensures core.errno == OK ==> TookWithin(data, from, mark, p, mark) && core.phase == Heading(HeaderField)
      ensures core.errno != OK ==> Broke(data, from, mark, p)
    {
      hide Token, NameChar, Emit, Merged, Step, Seen;
      ghost var s := Contents0(data, from, mark);
      p := from;
      assert data[from..from] == "";
      while p < |data| && Token(data[p]) != NUL
        invariant from <= p <= |data| && Running(core) && core.phase == Heading(HeaderField)
        invariant Synced(s, data, from, p, mark) && core.frame.nread == s.core.frame.nread
      {
        if core.name.header == General {
          p := SkipName(data, from, p, mark, s);
          NameCharGeneral(core.name.index, Token(data[p]));
        }
        FieldAdvance(s, core, Seen(calls, mark, data, p), data, from, p);
        SeenMore(calls, mark, data, p);
        if core.name.header != General {
          var (h, i) := NameChar(core.name.header, core.name.index, Token(data[p]));
          core := core.(name := Matcher(h, i));
        }
        p := p + 1;
      }
      p := CountUp(data, from, p, mark, s);
    }

    /** `COUNT_HEADER_SIZE(p - start)` at the end of a bulk loop. The byte at `p`, if there is one, is
        counted as well. */
    method CountUp(data: string, from: nat, p0: nat, mark: Mark, ghost s: State) returns (p: nat)
      requires from <= p0 <= |data| && from < |data| && Running(core) && !core.phase.Payload?
      requires MarkWithin(mark, from) && core.frame.nread == s.core.frame.nread
      requires Synced(s, data, from, p0, mark) || !Within(s, data[from..], max)
      modifies this`core
      ensures core.errno == OK ==> p == p0 && core == old(Moved(core, core.phase, core.name, p - from))
      ensures core.errno == OK ==> (p < |data| ==> RoomFor(core, max)) && (old(Synced(s, data, from, p, mark)) ==>
          Within(s, data[from..p], max))
      ensures core.errno != OK ==> core.errno == HEADER_OVERFLOW && p < |data| && !Within(s, data[from..], max)
      ensures p0 - from > max ==> core.errno != OK
    {
      hide Emit, Merged, Step, Seen;
      p := p0;
      if Synced(s, data, from, p, mark) {
        Overflow(s, data, from, p, max);
      }
      core := core.(frame := core.frame.(nread := core.frame.nread + (p - from)));
      if if p < |data| then core.frame.nread >= max else core.frame.nread > max {
        core := core.(errno := HEADER_OVERFLOW);
        p := if p < |data| then p else p - 1;
      }
    }

    /** The loop of `h_general` inside it: up to the last byte of the text in this buffer, but no more than
        `max_header_size` bytes. The byte behind those, if there is one, is passed over without a look; the
        header is too large by then. */
    method SkipText(data: string, from: nat, p0: nat, mark: Mark, ghost s: State, ghost lost0: bool)
      returns (p: nat, ghost lost: bool)
      requires from <= p0 < |data| && Running(core) && core.phase == Heading(HeaderValue)
      requires core.name.header == General && Text(core, data[p0]) && core.frame.nread == s.core.frame.nread
      requires MarkWithin(mark, from) && MarkFits(mark, Some(Value))
      requires if lost0 then !Within(s, data[from..], max) else Synced(s, data, from, p0, mark)
      ensures p0 <= p < |data| && (lost0 ==> lost) && (lost && !lost0 ==> p - from >= max)
      ensures if lost then !Within(s, data[from..], max) else Synced(s, data, from, p, mark) && Text(core, data[p])
    {
      hide ValueChar, IsHeaderChar, Emit, Merged, Step, Seen, Text;
      p, lost := p0, lost0;
      var limit := p0 + if |data| - p0 < max then |data| - p0 else max;
      while p + 1 < limit && Text(core, data[p + 1])
        invariant p0 <= p < |data| && Text(core, data[p])
        invariant lost == lost0 && (!lost ==> Synced(s, data, from, p, mark))
      {
        if !lost {
          TextAdvance(data, from, p, mark, s);
        }
        p := p + 1;
      }
      if p + 1 == limit && limit < |data| {
        if !lost {
          TextAdvance(data, from, p, mark, s);
          Overflow(s, data, from, limit, max);
          lost := true;
        }
        p := limit;
      }
    }

    lemma TextAdvance(data: string, from: nat, p: nat, mark: Mark, s: State)
      requires from <= p < |data| && Running(core) && core.phase == Heading(HeaderValue)
      requires core.name.header == General && Text(core, data[p])
      requires MarkWithin(mark, from) && MarkFits(mark, Some(Value)) && Synced(s, data, from, p, mark)
      ensures Synced(s, data, from, p + 1, mark)
    {
      hide ValueChar, IsHeaderChar, Emit, Merged, Step, Seen, Text;
      ValueCharGeneral(core, data[p]);
      ValueAdvance(s, core, Seen(calls, mark, data, p), data, from, p);
      SeenMore(calls, mark, data, p);
    }

    /** In the loop of `s_header_value`. Once a byte has been passed over, `lost`, the state is no longer that
        of the single bytes, but the header is too large. */
    ghost predicate InText(s: State, data: string, from: nat, p: nat, mark: Mark, lost: bool)
      reads this
    {
      && from <= p <= |data| && MarkWithin(mark, from) && Running(core) && core.phase == Heading(HeaderValue)
      && core.frame.nread == s.core.frame.nread
      && if lost then core.name.header == General && p - from > max && !Within(s, data[from..], max)
         else Synced(s, data, from, p, mark)
    }

    /** The byte at `p` is an error of its own. */
    ghost predicate ErrsAt(s: State, data: string, from: nat, p: nat)
      reads this
    {
      && core.errno != OK && core.errno != HEADER_OVERFLOW && from <= p < |data|
      && Run(s, data[from..p]).core.errno == OK && Run(s, data[from..p + 1]).core.errno == core.errno
      && Behind(Merged(calls), Run(s, data[from..p]).events)
    }

    /** One turn of that loop. */
    method ValueTurn(data: string, from: nat, p0: nat, mark: Mark, ghost s: State, ghost lost0: bool)
      returns (p: nat, ghost lost: bool)
      requires InText(s, data, from, p0, mark, lost0) && MarkFits(mark, Some(Value))
      requires p0 < |data| && Text(core, data[p0])
      modifies this`core
      ensures core.errno == OK ==> p0 < p && InText(s, data, from, p, mark, lost)
      ensures core.errno != OK ==> ErrsAt(s, data, from, p)
    {
      hide ValueChar, IsHeaderChar, Emit, Merged, Step, Seen, Within, Behind;
      p, lost := p0, lost0;
      if core.name.header == General {
        p, lost := SkipText(data, from, p, mark, s, lost);
        ValueCharGeneral(core, data[p]);
      }
      var v := ValueChar(core, data[p]);
      if v.errno != OK {
        BadValue(s, core, Seen(calls, mark, data, p), data, from, p);
        SeenBehind(calls, mark, data, p);
        core := core.(errno := v.errno);
        return;
      }
      if !lost {
        ValueAdvance(s, core, Seen(calls, mark, data, p), data, from, p);
        SeenMore(calls, mark, data, p);
      }
      core := core.(name := Matcher(v.header, v.index), frame := core.frame.(flags := v.flags, length := v.length));
      p := p + 1;
    }

    /** The loop of `s_header_value`: up to a line end, or to a byte that is an error. */
    method ScanValue(data: string, from: nat, mark: Mark) returns (p: nat)
      requires from < |data| && Running(core) && core.phase == Heading(HeaderValue)
      requires MarkWithin(mark, from) && MarkFits(mark, Some(Value))
      modifies this
      ensures core.errno == OK ==> TookWithin(data, from, mark, p, mark) && core.phase == Heading(HeaderValue)
      ensures core.errno != OK ==> Broke(data, from, mark, p) || Erred(data, from, mark, p)
    {
      hide IsHeaderChar, Emit, Merged, Step, Seen, Within, Behind, RoomFor;
      ghost var s := Contents0(data, from, mark);
      ghost var lost := false;
      p := from;
      assert data[from..from] == "";
      while p < |data| && Text(core, data[p])
        invariant InText(s, data, from, p, mark, lost) && calls == old(calls)
        decreases |data| - p
      {
        p, lost := ValueTurn(data, from, p, mark, s, lost);
        if core.errno != OK {
          return;
        }
      }
      var stop := p;
      if p < |data| && data[p] != CR && data[p] != LF {
        if !lost {
          BadValue(s, core, Seen(calls, mark, data, p), data, from, p);
          SeenBehind(calls, mark, data, p);
        }
        core := core.(errno := INVALID_HEADER_TOKEN);
        return;
      }
      p := CountUp(data, from, p, mark, s);
      if core.errno != OK && stop < |data| && data[stop] == CR {
        calls := calls + [Data(Value, data[mark.value.1..stop])];
      }
    }

    /** The jumps of `s_body_identity`, `s_chunk_data` and `s_body_identity_eof`, up to the last byte that
        is looked at singly. */
    method SkipBody(data: string, from: nat, mark0: Mark) returns (p: nat, mark: Mark)
      requires from < |data| && Running(core) && Bulk(core)
      requires MarkWithin(mark0, from) && MarkFits(mark0, Some(Body))
      modifies this`core
      ensures TookWithin(data, from, mark0, p, mark) && MarkFits(mark, Some(Body)) && core.phase == old(core.phase)
    {
      hide Emit, Merged, Step, Within, Seen;
      ghost var s := Contents0(data, from, mark0);
      var toRead := |data| - from;
      if core.phase != Payload(BodyIdentityEof) && core.frame.length < toRead {
        toRead := core.frame.length;
      }
      p := from + toRead - 1;
      mark := mark0;
      if p > from {
        if mark.None? {
          mark := Some((Body, from));
        }
        BulkRun(s, data[from..p]);
        BulkWithin(s, data[from..p], max);
        SeenRest(calls, mark0, data, from, p);
      } else {
        assert data[from..p] == "";
        NothingWithin(s, max);
      }
      if core.phase != Payload(BodyIdentityEof) {
        core := core.(frame := core.frame.(length := core.frame.length - (p - from)));
      }
    }

    /** Whatever can be taken in bulk from `from` on. */
    method Scan(data: string, from: nat, mark0: Mark) returns (p: nat, mark: Mark)
      requires from < |data| && Running(core) && Inv(core) && RoomFor(core, max)
      requires MarkWithin(mark0, from) && MarkFits(mark0, OpenPart(core.phase))
      modifies this
      ensures core.errno == OK ==> TookWithin(data, from, mark0, p, mark) && MarkFits(mark, OpenPart(core.phase))
      ensures core.errno != OK ==> Broke(data, from, mark0, p) || Erred(data, from, mark0, p)
    {
      hide Inv, Emit, Merged, Step;
      p, mark := from, mark0;
      assert data[from..from] == "";
      if core.phase == Heading(HeaderField) {
        p := ScanField(data, from, mark0);
      } else if core.phase == Heading(HeaderValue) {
        p := ScanValue(data, from, mark0);
      } else if Bulk(core) {
        BulkOpen(core);
        p, mark := SkipBody(data, from, mark0);
      }
    }

    /** One byte through the switch. A byte that is an error only makes the callbacks that precede it. */
    method OneByte(data: string, p: nat, mark0: Mark) returns (mark: Mark)
      requires p < |data| && Running(core) && MarkWithin(mark0, p) && MarkFits(mark0, OpenPart(core.phase))
      modifies this
      ensures MarkWithin(mark, p + 1)
      ensures var next := Step(State(old(core), Seen(old(calls), mark0, data, p)), data[p]);
              && core.errno == next.core.errno
              && (core.errno == OK ==>
                State(core, Seen(calls, mark, data, p + 1)) == next && MarkFits(mark, OpenPart(core.phase)))
      ensures core.errno != OK ==>
          core.errno != HEADER_OVERFLOW && Behind(Merged(calls), Seen(old(calls), mark0, data, p))
    {
      hide Handle, Apply, Merged, Emit, Well, OpenPart;
      var o := Handle(core, data[p]);
      HandleWell(core, data[p]);
      if o.core.errno == OK {
        MarkIn(mark0, OpenPart(core.phase));
        mark := Perform(o.acts, data, p, mark0, p, OpenPart(core.phase), OpenPart(o.core.phase));
      } else {
        FailWell(core, data[p]);
        SeenBehind(calls, mark0, data, p);
        if o.acts != [] {
          MergedMore(calls, Data(Value, ""));
          calls := calls + [Data(Value, "")];
        }
        mark := None;
      }
      core := o.core;
    }

    /** A call has ended in an error at the byte `n`. If no header was too large, it is where single bytes
        would have met an error, and the same one. */
    ghost predicate Failed(s0: State, data: string, n: nat)
      reads this
    {
      && core.errno != OK && n < |data|
      && (core.errno == HEADER_OVERFLOW ==> !Within(s0, data, max))
      && (Within(s0, data, max) ==>
            && Run(s0, data[..n]).core.errno == OK && Run(s0, data[..n + 1]).core.errno == core.errno
            && Behind(Merged(calls), Run(s0, data[..n]).events))
    }

    /** `http_parser_execute` for a buffer that is not empty. `left` says that the parser returned early
        because the rest is another protocol; the byte before `n` is then the one that made it leave. */
    method Execute(data: string) returns (n: nat, left: bool)
      requires Valid() && data != ""
      modifies this
      ensures Valid()
      ensures old(core.errno) != OK ==> n == 0 && !left && core == old(core) && calls == old(calls)
      ensures old(core.errno) == OK && core.errno == OK && !left ==>
          n == |data| && Contents() == Run(old(Contents()), data) && Within(old(Contents()), data, max)
      ensures left ==> core.errno == OK && 0 < n <= |data|
                       && State(core.(left := true), Merged(calls)) == Run(old(Contents()), data[..n])
                       && Running(Run(old(Contents()), data[..n - 1]).core)
                       && Within(old(Contents()), data[..n], max)
      ensures old(core.errno) == OK && core.errno != OK ==> Failed(old(Contents()), data, n)
    {
      hide Inv, Merged, Emit, Step, OpenPart, Seen, Touches, Within, Behind;
      if core.errno != OK {
        return 0, false;
      }
      ghost var s0 := Contents();
      var mark := Marked();
      n, left := 0, false;
      assert data[..0] == "";
      NothingWithin(s0, max);
      while n < |data|
        invariant Amid(s0, data, n, mark) && !core.left && Within(s0, data[..n], max)
      {
        n, mark := Turn(data, n, mark, s0);
        if core.errno != OK {
          return;
        }
        if core.left {
          break;
        }
      }
      RunKeeps(s0, data[..n]);
      assert data[..|data|] == data;
      Leftover(data, n, mark);
      left := core.left;
      core := core.(left := false);
      LeftIrrelevant(core);
    }

    /** In the middle of a buffer: the parser, and the trace with the open part, are where the single
        bytes would have left them. */
    ghost predicate Amid(s0: State, data: string, n: nat, mark: Mark)
      reads this
    {
      && n <= |data| && core.errno == OK && MarkWithin(mark, n) && MarkFits(mark, OpenPart(core.phase))
      && State(core, Seen(calls, mark, data, n)) == Run(s0, data[..n])
    }

    /** One turn of the byte loop. */
    method Turn(data: string, n0: nat, mark0: Mark, ghost s0: State) returns (n: nat, mark: Mark)
      requires n0 < |data| && Amid(s0, data, n0, mark0) && !core.left && Inv(s0.core) && s0.core.errno == OK
      requires Within(s0, data[..n0], max)
      modifies this
      ensures core.errno == OK ==> n > n0 && Amid(s0, data, n, mark) && Within(s0, data[..n], max)
      ensures core.errno == OK && core.left ==> Running(Run(s0, data[..n - 1]).core)
      ensures core.errno != OK ==> Failed(s0, data, n)
    {
      hide Inv, Merged, Emit, Step, OpenPart, Within, Behind, Seen, RoomFor, Handle;
      n, mark := n0, mark0;
      if !RoomFor(core, max) {
        TooLarge(s0, data, n, max);
        core := core.(errno := HEADER_OVERFLOW);
        return;
      }
      RunKeeps(s0, data[..n0]);
      n, mark := Scan(data, n0, mark0);
      if core.errno != OK {
        Outside(s0, data, n0, n, max);
        return;
      }
      FoldSlice(Step, s0, data, n0, n);
      WithinConcat(s0, data[..n0], data[n0..n], max);
      assert data[..n0] + data[n0..n] == data[..n];
      if n < |data| {
        assert data[..n + 1] == data[..n] + [data[n]];
        RunLast(s0, data[..n], data[n]);
        WithinMore(s0, data, n, max);
        mark := OneByte(data, n, mark);
        if core.errno == OK {
          n := n + 1;
        }
      }
    }

    /** The marks at the start of a buffer. */
    method Marked() returns (mark: Mark)
      requires Valid() && core.errno == OK
      ensures mark.Some? ==> mark.value.1 == 0
      ensures MarkFits(mark, OpenPart(core.phase)) && forall data: string :: Seen(calls, mark, data, 0) == Merged(calls)
    {
      hide Inv, Merged, OpenPart;
      mark := None;
      if OpenPart(core.phase).Some? && OpenPart(core.phase).value != Body {
        mark := Some((OpenPart(core.phase).value, 0));
        TouchesNothing(Merged(calls), OpenPart(core.phase).value);
      }
    }

    /** The callbacks for a mark left over at the end of the buffer. */
    method Leftover(data: string, n: nat, mark: Mark)
      requires n <= |data| && MarkWithin(mark, n) && MarkFits(mark, OpenPart(core.phase))
      modifies this`calls
      ensures Merged(calls) == Seen(old(calls), mark, data, n)
      ensures OpenPart(core.phase).Some? && OpenPart(core.phase).value != Body ==>
          Touches(Merged(calls), OpenPart(core.phase).value)
    {
      hide Merged, OpenPart;
      if mark.Some? {
        MergedMore(calls, Data(mark.value.0, data[mark.value.1..n]));
        calls := calls + [Data(mark.value.0, data[mark.value.1..n])];
      }
    }

    /** A stream that arrives in pieces. It is accepted if and only if the byte machine meets no error in it
        and does not leave for another protocol, and no header in it is larger than `max_header_size`; then
        the parser and the joined trace depend on the bytes only. */
    method ExecuteAll(pieces: seq<string>) returns (ok: bool)
      requires Valid() && core.errno == OK && forall i :: 0 <= i < |pieces| ==> pieces[i] != ""
      modifies this
      ensures Valid()
      ensures ok <==>
          Running(Run(old(Contents()), Join(pieces)).core) && Within(old(Contents()), Join(pieces), max)
      ensures ok ==> core.errno == OK && Contents() == Run(old(Contents()), Join(pieces))
    {
      hide Merged, Step, Inv, Contents, Within, Behind;
      ghost var s0 := Contents();
      var i := 0;
      ghost var done: string := "";
      NotLeft();
      NothingWithin(s0, max);
      while i < |pieces|
        invariant i <= |pieces| && Valid() && core.errno == OK && Running(Contents().core)
        invariant Contents() == Run(s0, done) && done + Join(pieces[i..]) == Join(pieces)
        invariant Within(s0, done, max)
      {
        ghost var s1, rest := Contents(), Join(pieces[i + 1..]);
        var n, left := Execute(pieces[i]);
        Assoc(done, pieces[i], rest);
        RunConcat(s0, done + pieces[i], rest);
        RunConcat(s0, done, pieces[i]);
        WithinConcat(s0, done + pieces[i], rest, max);
        WithinConcat(s0, done, pieces[i], max);
        if core.errno != OK || left {
          if left || Within(s1, pieces[i], max) {
            StopsWithin(s1, pieces[i], if left then n else n + 1);
            Stopped(Run(s1, pieces[i]), rest);
          }
          return false;
        }
        assert pieces[i][..n] == pieces[i];
        NotLeft();
        done := done + pieces[i];
        i := i + 1;
      }
      assert pieces[i..] == [] && done + "" == done;
      ok := true;
    }

    lemma NotLeft()
      requires Valid() && core.errno == OK
      ensures Running(Contents().core)
    {
    }

    /** `http_parser_execute` with no bytes: the end of the stream. */
    method ExecuteEof() returns (n: nat)
      requires Valid()
      modifies this
      ensures Valid() && core == old(core).(errno := core.errno)
      ensures old(core.errno) == OK && old(core.phase) == Payload(BodyIdentityEof) ==>
                n == 0 && core.errno == OK && calls == old(calls) + [MessageComplete]
      ensures old(core.phase) != Payload(BodyIdentityEof) || old(core.errno) != OK ==> calls == old(calls)
      ensures old(core.errno) == OK && old(core.phase) != Payload(BodyIdentityEof) ==>
                (core.errno == OK <==> old(core.phase).Begin? && old(core.phase) != Begin(ResOrRespH))
                && (core.errno != OK ==> core.errno == INVALID_EOF_STATE && n == 1) && (core.errno == OK ==> n == 0)
    {
      n := 0;
      if core.errno != OK {
      } else if core.phase == Payload(BodyIdentityEof) {
        calls := calls + [MessageComplete];
      } else if core.phase.Begin? && core.phase != Begin(ResOrRespH) {
      } else {
        core := core.(errno := INVALID_EOF_STATE);
        n := 1;
      }
    }

    ghost function Contents0(data: string, end: nat, mark: Mark): State
      requires end <= |data| && MarkWithin(mark, end)
      reads this
    {
      State(core, Seen(calls, mark, data, end))
    }
  }

  /** Text of a header value. */
  predicate Text(s: Core, c: char) {
    c != CR && c != LF && (s.conf.lenient || IsHeaderChar(c))
  }

  function Unchanged(s: Core): Verdict {
    Verdict(s.name.header, s.name.index, s.frame.flags, s.frame.length, OK)
  }

  lemma ValueCharGeneral(s: Core, c: char)
    requires s.name.header == General
    ensures ValueChar(s, c) == Unchanged(s)
  {
  }

  lemma ValueAdvance(s: State, c: Core, seen: seq<Event>, data: string, from: nat, p: nat)
    requires from <= p < |data| && Running(c) && c.phase == Heading(HeaderValue) && Text(c, data[p])
    requires Run(s, data[from..p]) == State(Moved(c, c.phase, c.name, p - from), seen)
    ensures var v := ValueChar(c, data[p]);
            v.errno == OK ==>
              Run(s, data[from..p + 1])
              == State(c.(name := Matcher(v.header, v.index),
                frame := Framing(v.flags, v.length, c.frame.nread + (p + 1 - from))),
                       Emit(seen, Value, [data[p]]))
  {
    hide ValueChar, IsHeaderChar, Emit, Step;
    RunMore(s, data, from, p);
    ValueStep(Run(s, data[from..p]), data[p]);
    CountIrrelevant(c, Counted(Moved(c, c.phase, c.name, p - from)), data[p]);
  }

  /** A byte that is an error in a value. */
  lemma BadValue(s: State, c: Core, seen: seq<Event>, data: string, from: nat, p: nat)
    requires from <= p < |data| && Running(c) && c.phase == Heading(HeaderValue) && data[p] != CR && data[p] != LF
    requires Run(s, data[from..p]) == State(Moved(c, c.phase, c.name, p - from), seen)
    ensures !Text(c, data[p]) ==> Run(s, data[from..p + 1]).core.errno == INVALID_HEADER_TOKEN
    ensures Text(c, data[p]) && ValueChar(c, data[p]).errno != OK ==>
        Run(s, data[from..p + 1]).core.errno == ValueChar(c, data[p]).errno
    ensures ValueChar(c, data[p]).errno != HEADER_OVERFLOW
  {
    hide ValueChar, IsHeaderChar, Step;
    RunMore(s, data, from, p);
    var t := Run(s, data[from..p]);
    CountIrrelevant(c, Counted(t.core), data[p]);
    ValueErrno(c, data[p]);
    if Text(c, data[p]) {
      ValueStep(t, data[p]);
    } else {
      NoHeaderChar(t, data[p]);
    }
  }

  lemma ValueErrno(c: Core, x: char)
    ensures ValueChar(c, x).errno == OK || ValueChar(c, x).errno == INVALID_CONTENT_LENGTH
  {
    hide Match, Lower, Token;
  }

  lemma NoHeaderChar(s: State, c: char)
    requires Running(s.core) && s.core.phase == Heading(HeaderValue) && c != CR && c != LF
    requires !s.core.conf.lenient && !IsHeaderChar(c)
    ensures Step(s, c).core.errno == INVALID_HEADER_TOKEN
  {
    hide ValueChar, IsHeaderChar;
  }

  /** The count at the end of a bulk loop tells whether all its bytes were within the limit. */
  lemma Overflow(s: State, data: string, from: nat, p: nat, max: nat)
    requires from <= p <= |data| && from < |data|
    requires var t := Run(s, data[from..p]).core;
             Running(t) && !t.phase.Payload? && t.frame.nread == s.core.frame.nread + (p - from)
    ensures s.core.frame.nread + (p - from) <= max ==> Within(s, data[from..p], max)
    ensures p < |data| && s.core.frame.nread + (p - from) >= max ==> !Within(s, data[from..], max)
    ensures p == |data| && s.core.frame.nread + (p - from) > max ==> !Within(s, data[from..], max)
  {
    hide Step, Within;
    var n := s.core.frame.nread + (p - from);
    if n <= max {
      ShortWithin(s, data[from..p], max);
    }
    if p == |data| && n > max {
      assert data[from..] == data[from..p];
      LongBreaks(s, data[from..], max);
    }
    if p < |data| && n >= max {
      assert data[from..][..p - from] == data[from..p];
      NotWithin(s, data[from..], p - from, max);
    }
  }

  lemma NothingWithin(s: State, max: nat)
    ensures Within(s, "", max)
  {
  }

  /** There is no room for the next byte. */
  lemma TooLarge(s: State, data: string, n: nat, max: nat)
    requires n < |data| && Running(Run(s, data[..n]).core) && !RoomFor(Run(s, data[..n]).core, max)
    ensures !Within(s, data, max)
  {
    NotWithin(s, data, n, max);
  }

  lemma WithinMore(s: State, data: string, n: nat, max: nat)
    requires n < |data| && Within(s, data[..n], max) && RoomFor(Run(s, data[..n]).core, max)
    ensures Within(s, data[..n + 1], max)
  {
    hide Step, RoomFor, Run, Running;
    var x := data[..n + 1];
    forall k | 0 <= k < |x|
      ensures RoomAfter(s, x[..k], max)
    {
      assert x[..k] == data[..k];
      if k < n {
        assert data[..n][..k] == data[..k] && RoomAfter(s, data[..n][..k], max);
      }
    }
  }

  /** What holds behind a prefix, told from the start. */
  lemma Outside(s: State, data: string, from: nat, p: nat, max: nat)
    requires from <= |data| && p < |data|
    ensures Within(s, data, max) ==> Within(Run(s, data[..from]), data[from..], max)
    ensures from <= p ==>
        && Run(Run(s, data[..from]), data[from..p]) == Run(s, data[..p])
        && Run(Run(s, data[..from]), data[from..p + 1]) == Run(s, data[..p + 1])
  {
    hide Step, Within;
    assert data[..from] + data[from..] == data;
    WithinConcat(s, data[..from], data[from..], max);
    if from <= p {
      FoldSlice(Step, s, data, from, p);
      FoldSlice(Step, s, data, from, p + 1);
    }
  }

  lemma NotWithin(s: State, x: string, n: nat, max: nat)
    requires n < |x| && !RoomAfter(s, x[..n], max)
    ensures !Within(s, x, max)
  {
  }

  /** The switch does not look at the byte count. */
  lemma CountIrrelevant(a: Core, b: Core, c: char)
    requires a.name == b.name && a.frame.flags == b.frame.flags && a.frame.length == b.frame.length
    ensures ValueChar(a, c) == ValueChar(b, c)
  {
    hide Match, Lower, Token;
  }

  /** The states whose bytes are skipped over. */
  predicate Bulk(s: Core) {
    || s.phase == Payload(BodyIdentityEof)
    || ((s.phase == Payload(BodyIdentity) || s.phase == Payload(ChunkData)) && s.frame.length > 0)
  }

  /** What has stopped once stays so. */
  lemma StopsWithin(s: State, x: string, n: nat)
    requires n <= |x| && !Running(Run(s, x[..n]).core)
    ensures !Running(Run(s, x).core)
  {
    hide Step;
    assert x == x[..n] + x[n..];
    RunConcat(s, x[..n], x[n..]);
    Stopped(Run(s, x[..n]), x[n..]);
  }

  lemma EofStep(s: State, c: char)
    requires Running(s.core) && s.core.phase == Payload(BodyIdentityEof)
    ensures Step(s, c) == State(s.core, Emit(s.events, Body, [c]))
  {
    hide Emit;
    ApplySingle(s.events, Take(Body), c);
  }

  lemma {:induction false} EofRun(s: State, x: string)
    requires Running(s.core) && s.core.phase == Payload(BodyIdentityEof) && x != ""
    ensures Run(s, x) == State(s.core, Emit(s.events, Body, x))
  {
    hide Emit, Step;
    var r, c := x[..|x| - 1], x[|x| - 1];
    assert x == r + [c];
    RunLast(s, r, c);
    if r == "" {
      assert x == [c];
      EofStep(s, c);
    } else {
      EofRun(s, r);
      EofStep(Run(s, r), c);
      EmitTwice(s.events, Body, r, [c]);
    }
  }

  lemma BulkRun(s: State, x: string)
    requires Running(s.core) && Bulk(s.core) && x != ""
    requires s.core.phase != Payload(BodyIdentityEof) ==> |x| < s.core.frame.length
    ensures Run(s, x) == State(if s.core.phase == Payload(BodyIdentityEof) then s.core
        else Sized(s.core, s.core.frame.length - |x|),
                               Emit(s.events, Body, x))
  {
    hide Emit, Step;
    if s.core.phase == Payload(BodyIdentityEof) {
      EofRun(s, x);
    } else if s.core.phase == Payload(BodyIdentity) {
      BodyPart(s, x);
    } else {
      DataRun(s, x);
    }
  }

  /** Bytes of a body are not counted. */
  lemma BulkWithin(s: State, x: string, max: nat)
    requires Running(s.core) && Bulk(s.core)
    requires s.core.phase != Payload(BodyIdentityEof) ==> |x| < s.core.frame.length
    ensures Within(s, x, max)
  {
    hide Step, Emit;
    forall n | 0 <= n < |x|
      ensures RoomAfter(s, x[..n], max)
    {
      if n > 0 {
        BulkRun(s, x[..n]);
      }
    }
  }

  lemma SeenRest(calls: seq<Event>, mark: Mark, data: string, from: nat, p: nat)
    requires from <= p <= |data| && MarkWithin(mark, from) && MarkFits(mark, Some(Body))
    ensures Seen(calls, if mark.None? then Some((Body, from)) else mark, data, p)
         == Emit(Seen(calls, mark, data, from), Body, data[from..p])
  {
    hide Emit, Merged;
    if mark.Some? {
      var m := mark.value.1;
      assert data[m..p] == data[m..from] + data[from..p];
      EmitTwice(Merged(calls), Body, data[m..from], data[from..p]);
    }
  }

  lemma BulkOpen(s: Core)
    requires Bulk(s)
    ensures OpenPart(s.phase) == Some(Body)
  {
  }

  lemma MarkIn(mark: Mark, o: Option<Part>)
    requires MarkFits(mark, o)
    ensures mark.Some? ==> o == Some(mark.value.0)
  {
  }

  lemma LeftIrrelevant(s: Core)
    ensures forall b: bool :: Inv(s.(left := b)) == Inv(s)
  {
  }

  lemma NameCharGeneral(index: nat, c: char)
    ensures NameChar(General, index, c) == (General, index)
  {
  }

  /** One more byte of a part whose mark is set. */
  lemma SeenMore(calls: seq<Event>, mark: Mark, data: string, p: nat)
    requires p < |data| && mark.Some? && MarkWithin(mark, p)
    ensures Seen(calls, mark, data, p + 1) == Emit(Seen(calls, mark, data, p), mark.value.0, [data[p]])
  {
    hide Emit;
    var m := mark.value.1;
    assert data[m..p + 1] == data[m..p] + [data[p]];
    EmitTwice(Merged(calls), mark.value.0, data[m..p], [data[p]]);
  }

  lemma RunMore(s: State, data: string, from: nat, p: nat)
    requires from <= p < |data|
    ensures Run(s, data[from..p + 1]) == Step(Run(s, data[from..p]), data[p])
  {
    assert data[from..p + 1] == data[from..p] + [data[p]];
    RunLast(s, data[from..p], data[p]);
  }

  lemma FieldAdvance(s: State, c: Core, seen: seq<Event>, data: string, from: nat, p: nat)
    requires from <= p < |data| && Running(c) && c.phase == Heading(HeaderField) && Token(data[p]) != NUL
    requires Run(s, data[from..p]) == State(Moved(c, c.phase, c.name, p - from), seen)
    ensures var (h, i) := NameChar(c.name.header, c.name.index, Token(data[p]));
            Run(s, data[from..p + 1])
              == State(Moved(c, c.phase, Matcher(h, i), p + 1 - from), Emit(seen, Field, [data[p]]))
  {
    hide Token, NameChar, Emit, Step;
    RunMore(s, data, from, p);
    FieldStep(Run(s, data[from..p]), data[p]);
  }

  lemma NoActs(events: seq<Event>, c: char)
    ensures Apply(events, [], c) == events
  {
  }
}
