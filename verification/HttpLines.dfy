/** Header lines, read by the parser: the name, the value, the end of the line, and headers that mean nothing
    to the parser itself. */
module HttpLines {
  import opened HttpChars
  import opened Options
  import opened HttpStep
  import opened HttpTrace
  import opened HttpInvariant
  import opened HttpWords
  import opened HttpNumbers
  import opened HttpBody
  import opened Folding

  datatype Line = Line(name: string, value: string)

  predicate Blank(c: char) {
    c == ' ' || c == '\t'
  }

  /** Text of a value: no line end, and no control character. */
  predicate Plain(x: string) {
    forall i :: 0 <= i < |x| ==> x[i] != CR && x[i] != LF && IsHeaderChar(x[i])
  }

  /** A header that means nothing to the parser itself; its value may be empty. */
  predicate OtherHeader(h: Line) {
    && h.name != "" && Tokens(h.name) && !Special(Recognised(Lowered(h.name)))
    && (h.value != "" ==> !Blank(h.value[0])) && Plain(h.value)
  }

  function Lowers(x: string): (r: string)
    ensures |r| == |x|
  {
    seq(|x|, i requires 0 <= i < |x| => Lower(x[i]))
  }

  function LineText(h: Line): string {
    h.name + ":" + (" " + (h.value + CRLF))
  }

  function LineEvents(h: Line): seq<Event> {
    [Data(Field, h.name), Data(Value, h.value)]
  }

  /** What is settled before the headers of a message: its first line, and what the application will say
      at their end. */
  datatype Given = Given(line: StartLine, reply: nat)

  function GivenBy(s: State): Given {
    Given(s.core.line, s.core.conf.reply)
  }

  /** At the start of a header line, with these flags and this length so far. */
  predicate AtHeader(s: State, g: Given, f: Flags, n: nat) {
    && Running(s.core) && s.core.phase == Heading(HeaderFieldStart) && InMessage(s.core, g)
    && s.core.frame.flags == f && s.core.frame.length == n && NoField(s.events)
  }

  predicate InMessage(s: Core, g: Given) {
    s.line == g.line && s.conf.reply == g.reply
  }

  /** The last callback was not about a header name. */
  predicate NoField(events: seq<Event>) {
    events != [] && events[|events| - 1] != Data(Field, if events[|events| - 1].Data? then events[|events| - 1].text
      else "")
  }

  lemma ThreeSteps(s: State, a: char, b: char, d: char)
    ensures Run(s, [a, b, d]) == Step(Step(Step(s, a), b), d)
  {
    assert [a, b, d] == [a] + ([b] + [d]);
    RunFirst(s, a, [b] + [d]);
    RunFirst(Step(s, a), b, [d]);
    RunOne(Step(Step(s, a), b), d);
  }

  /** Behind a header name and a blank. */
  predicate AtValue(s: State, g: Given, f: Flags, n: nat, h: Header) {
    && Running(s.core) && s.core.phase == Heading(ValueDiscardWs) && InMessage(s.core, g)
    && s.core.frame.flags == f && s.core.frame.length == n && s.core.name.header == h
  }

  lemma EmitNew(events: seq<Event>, part: Part, x: string)
    requires part == Field && NoField(events)
    ensures Emit(events, part, x) == events + [Data(part, x)]
  {
  }

  lemma EmitValue(events: seq<Event>, name: string, x: string)
    ensures Emit(events + [Data(Field, name)], Value, x) == events + [Data(Field, name), Data(Value, x)]
  {
    assert events + [Data(Field, name)] + [Data(Value, x)] == events + [Data(Field, name), Data(Value, x)];
  }

  lemma NameAndBlank(s: State, g: Given, f: Flags, n: nat, name: string)
    requires AtHeader(s, g, f, n) && name != "" && Tokens(name)
    ensures var t := Run(s, name + ":" + " "); var h := t.core.name.header;
            && AtValue(t, g, f, n, h) && t.events == s.events + [Data(Field, name)]
            && (Special(h) || Special(Recognised(Lowered(name))) ==> h == Recognised(Lowered(name)))
            && !OfValue(h)
  {
    hide Emit, Recognised, Lowered, Tokens;
    NameRecognised(s, name);
    EmitNew(s.events, Field, name);
    RunConcat(s, name + ":", " ");
    RunOne(Run(s, name + ":"), ' ');
    ApplySingle(s.events + [Data(Field, name)], Flush(Url), ' ');
  }

  /** Inside a value. */
  predicate InValue(s: State, g: Given, f: Flags, n: nat, h: Header) {
    && Running(s.core) && s.core.phase == Heading(HeaderValue) && InMessage(s.core, g)
    && s.core.frame.flags == f && s.core.frame.length == n && s.core.name.header == h
  }

  /** The end of a line, seen together with the first byte of the next one. */
  lemma LineEnd(s: State, g: Given, f: Flags, n: nat, h: Header, rest: string) returns (t: State)
    requires InValue(s, g, f, n, h) && rest != "" && !Blank(rest[0])
    requires s.events != [] && s.events[|s.events| - 1].Data? && s.events[|s.events| - 1].part == Value
    ensures Run(s, CRLF + rest) == Run(t, rest) && AtHeader(t, g, SetFlags(f, h), n) && t.events == s.events
  {
    hide SetFlags, Step;
    RunConcat(s, CRLF, rest);
    LineEndBytes(s);
    var u := Run(s, CRLF);
    t := State(NextHeader(u.core), u.events);
    assert rest == [rest[0]] + rest[1..];
    RunFirst(u, rest[0], rest[1..]);
    RunFirst(t, rest[0], rest[1..]);
    NextLine(u, rest[0]);
  }

  lemma LineEndBytes(s: State)
    requires Running(s.core) && s.core.phase == Heading(HeaderValue)
    ensures Run(s, CRLF) == State(Moved(s.core, Heading(ValueLws), s.core.name, 2), s.events)
  {
    hide Step;
    assert CRLF == [CR] + [LF];
    RunFirst(s, CR, [LF]);
    RunOne(Step(s, CR), LF);
    ValueCr(s);
    ValueLf(Step(s, CR));
  }

  lemma ValueCr(s: State)
    requires Running(s.core) && s.core.phase == Heading(HeaderValue)
    ensures Step(s, CR) == State(Moved(s.core, Heading(HeaderAlmostDone), s.core.name, 1), s.events)
  {
    hide ValueChar;
    ApplySingle(s.events, Flush(Value), CR);
  }

  lemma ValueLf(s: State)
    requires Running(s.core) && s.core.phase == Heading(HeaderAlmostDone)
    ensures Step(s, LF) == State(Moved(s.core, Heading(ValueLws), s.core.name, 1), s.events)
  {
  }

  /** A line that does not start with a blank is a new header. */
  lemma NextLine(s: State, c: char)
    requires Running(s.core) && s.core.phase == Heading(ValueLws) && !Blank(c)
    ensures Step(s, c) == Step(State(NextHeader(s.core), s.events), c)
  {
    hide OnFieldStart, SetFlags;
    assert Counted(NextHeader(s.core)) == NextHeader(Counted(s.core));
  }

  lemma ValueFirst(s: State, c: char)
    requires Running(s.core) && s.core.phase == Heading(ValueDiscardWs) && !Blank(c) && c != CR && c != LF
    requires OnValueStart(Counted(s.core), c).core.errno == OK
    ensures Step(s, c) == State(OnValueStart(Counted(s.core), c).core, Emit(s.events, Value, [c]))
  {
    hide Emit, Lower;
    ApplySingle(s.events, Take(Value), c);
  }

  lemma PlainFirst(s: State, g: Given, f: Flags, n: nat, h: Header, c: char)
    requires AtValue(s, g, f, n, h) && !Special(h) && !OfValue(h)
    requires !Blank(c) && c != CR && c != LF
    ensures InValue(Step(s, c), g, f, n, General) && Step(s, c).events == Emit(s.events, Value, [c])
  {
    hide Step, Lower;
    ValueFirst(s, c);
  }

  lemma PlainNext(s: State, g: Given, f: Flags, n: nat, c: char)
    requires InValue(s, g, f, n, General) && c != CR && c != LF && IsHeaderChar(c)
    ensures InValue(Step(s, c), g, f, n, General) && Step(s, c).events == Emit(s.events, Value, [c])
  {
    hide Step, Lower;
    ValueStep(s, c);
  }

  /** The text of a header that means nothing to the parser. */
  lemma {:induction false} PlainRun(s: State, g: Given, f: Flags, n: nat, h: Header, x: string)
    requires AtValue(s, g, f, n, h) && !Special(h) && !OfValue(h)
    requires x != "" && !Blank(x[0]) && Plain(x)
    ensures InValue(Run(s, x), g, f, n, General) && Run(s, x).events == Emit(s.events, Value, x)
  {
    hide Emit, Step, IsHeaderChar, AtValue, InValue, Special;
    var r, c := x[..|x| - 1], x[|x| - 1];
    assert x == r + [c];
    RunLast(s, r, c);
    if r == "" {
      PlainFirst(s, g, f, n, h, c);
    } else {
      PlainRun(s, g, f, n, h, r);
      PlainNext(Run(s, r), g, f, n, c);
      EmitTwice(s.events, Value, r, [c]);
    }
  }

  /** A header without a value. */
  lemma EmptyEnd(s: State, g: Given, f: Flags, n: nat, h: Header, name: string, rest: string) returns (t: State)
    requires AtValue(s, g, f, n, h) && h != ContentLength && !OfValue(h) && rest != "" && !Blank(rest[0])
    requires s.events != [] && s.events[|s.events| - 1] == Data(Field, name)
    ensures Run(s, CRLF + rest) == Run(t, rest) && AtHeader(t, g, f, n) && t.events == s.events + [Data(Value, "")]
  {
    hide Step;
    RunConcat(s, CRLF, rest);
    EmptyEndBytes(s);
    var u := Run(s, CRLF);
    t := State(NextHeader(u.core), u.events + [Data(Value, "")]);
    assert rest == [rest[0]] + rest[1..];
    RunFirst(u, rest[0], rest[1..]);
    RunFirst(t, rest[0], rest[1..]);
    EmptyNextLine(u, rest[0]);
  }

  lemma EmptyEndBytes(s: State)
    requires Running(s.core) && s.core.phase == Heading(ValueDiscardWs)
    ensures Run(s, CRLF) == State(Moved(s.core, Heading(ValueDiscardLws), s.core.name, 2), s.events)
  {
    hide OnValueStart;
    assert CRLF == [CR] + [LF];
    RunFirst(s, CR, [LF]);
    RunOne(Step(s, CR), LF);
    ApplySingle(s.events, Flush(Url), CR);
  }

  lemma EmptyNextLine(s: State, c: char)
    requires Running(s.core) && s.core.phase == Heading(ValueDiscardLws) && !Blank(c)
    requires s.core.name.header != ContentLength
    requires s.events != [] && s.events[|s.events| - 1].Data? && s.events[|s.events| - 1].part == Field
    ensures Step(s, c) == Step(State(NextHeader(s.core), s.events + [Data(Value, "")]), c)
  {
    hide Handle, NextHeader, Apply;
    EmptyHandle(s.core, c);
    ApplyConcat(s.events, [Empty(Value)], Handle(NextHeader(s.core), c).acts, c);
    ApplySingle(s.events, Empty(Value), c);
    assert NextHeader(s.core).errno == OK && !NextHeader(s.core).left by {
      StillRunning(s.core);
    }
  }

  lemma StillRunning(s: Core)
    ensures NextHeader(s).errno == s.errno && NextHeader(s).left == s.left
  {
  }

  lemma EmptyHandle(s: Core, c: char)
    requires s.phase == Heading(ValueDiscardLws) && !Blank(c) && s.name.header != ContentLength
    ensures Handle(s, c).core == Handle(NextHeader(s), c).core
    ensures Handle(s, c).acts == [Empty(Value)] + Handle(NextHeader(s), c).acts
  {
    hide OnFieldStart, SetFlags;
    assert Counted(NextHeader(s)) == NextHeader(Counted(s));
  }

  /** A header that means nothing to the parser is handed to the callbacks, name and value. */
  lemma OtherLine(s: State, g: Given, f: Flags, n: nat, h: Line, rest: string) returns (t: State)
    requires AtHeader(s, g, f, n) && OtherHeader(h) && rest != "" && !Blank(rest[0])
    ensures Run(s, LineText(h) + rest) == Run(t, rest) && AtHeader(t, g, f, n) && t.events == s.events + LineEvents(h)
  {
    hide Recognised, Lowered, Tokens, Plain, Emit, AtValue, Step;
    LineSplit(s, h, rest);
    NameAndBlank(s, g, f, n, h.name);
    var t1 := Run(s, h.name + ":" + " ");
    if h.value == "" {
      t := EmptyEnd(t1, g, f, n, t1.core.name.header, h.name, rest);
      assert s.events + [Data(Field, h.name)] + [Data(Value, "")] == s.events + LineEvents(h);
    } else {
      PlainRun(t1, g, f, n, t1.core.name.header, h.value);
      EmitValue(s.events, h.name, h.value);
      t := LineEnd(Run(t1, h.value), g, f, n, General, rest);
    }
  }

  lemma LineSplit(s: State, h: Line, rest: string)
    ensures Run(s, LineText(h) + rest) == Run(Run(Run(s, h.name + ":" + " "), h.value), CRLF + rest)
  {
    assert LineText(h) + rest == h.name + ":" + " " + (h.value + (CRLF + rest));
    RunConcat(s, h.name + ":" + " ", h.value + (CRLF + rest));
    RunConcat(Run(s, h.name + ":" + " "), h.value, CRLF + rest);
  }
}
