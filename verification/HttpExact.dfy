/** Which parts of a head the parser accepts, and nothing else: header names, header values, lengths, versions and
    status codes, in both directions. */
module HttpExact {
  import opened HttpChars
  import opened Options
  import opened HttpStep
  import opened HttpTrace
  import opened HttpWords
  import opened HttpNumbers
  import opened HttpTargets
  import opened HttpLines
  import opened Folding

  predicate OneLine(x: string) {
    forall i :: 0 <= i < |x| ==> x[i] != CR && x[i] != LF
  }

  // ---------------------------------------------------------------- header names

  /** `tchar` of section 3.2.6 of RFC 7230. */
  predicate IsTchar(c: char) {
    IsAlpha(c) || IsNum(c) || c in "!#$%&'*+-.^_`|~"
  }

  lemma TokenIsTchar(c: char)
    ensures Token(c) != NUL <==> IsTchar(c)
    ensures IsTchar(c) ==> Token(c) == if 'A' <= c <= 'Z' then (c as int + 32) as char else c
  {
  }

  lemma NoTokenStep(s: State, c: char)
    requires Running(s.core) && c != CR && c != LF && c != ':' && Token(c) == NUL
    requires s.core.phase == Heading(HeaderFieldStart) || s.core.phase == Heading(HeaderField)
    ensures Step(s, c).core.errno == INVALID_HEADER_TOKEN
  {
    hide Token, OnHeadersAlmostDone;
  }

  lemma EmptyName(s: State)
    requires Running(s.core) && s.core.phase == Heading(HeaderFieldStart)
    ensures Step(s, ':').core.errno == INVALID_HEADER_TOKEN
  {
    hide OnHeadersAlmostDone;
  }

  /** The first character that is no token. */
  lemma {:induction false} FirstBad(x: string) returns (k: nat)
    requires !Tokens(x)
    ensures k < |x| && Tokens(x[..k]) && Token(x[k]) == NUL
  {
    hide Token;
    var y := x[..|x| - 1];
    if Tokens(y) {
      k := |x| - 1;
    } else {
      k := FirstBad(y);
      assert y[..k] == x[..k];
    }
  }

  /** The text before a colon is accepted as a header name if and only if it is a token of the RFC. */
  lemma NameExact(s: State, x: string)
    requires Running(s.core) && s.core.phase == Heading(HeaderFieldStart) && OneLine(x) && ':' !in x
    ensures var t := Run(s, x + ":");
            && (Running(t.core) <==> x != "" && forall i :: 0 <= i < |x| ==> IsTchar(x[i]))
            && (if Running(t.core) then t.core.phase == Heading(ValueDiscardWs) && t.events == Emit(s.events, Field, x)
                else t.core.errno == INVALID_HEADER_TOKEN)
  {
    hide Step, Emit, Token, IsTchar, Recognised;
    forall i | 0 <= i < |x|
      ensures Token(x[i]) != NUL <==> IsTchar(x[i])
    {
      TokenIsTchar(x[i]);
    }
    if x == "" {
      assert x + ":" == ":";
      RunOne(s, ':');
      EmptyName(s);
    } else if Tokens(x) {
      NameRecognised(s, x);
    } else {
      var k := FirstBad(x);
      var y, c, z := x[..k], x[k], x[k + 1..] + ":";
      assert x + ":" == y + ([c] + z);
      RunConcat(s, y, [c] + z);
      BeforeBad(s, y);
      RunFirst(Run(s, y), c, z);
      NoTokenStep(Run(s, y), c);
      Stopped(Step(Run(s, y), c), z);
    }
  }

  lemma BeforeBad(s: State, x: string)
    requires Running(s.core) && s.core.phase == Heading(HeaderFieldStart) && Tokens(x)
    ensures var t := Run(s, x).core;
            Running(t) && (t.phase == Heading(HeaderFieldStart) || t.phase == Heading(HeaderField))
  {
    hide Step, Emit, Token, Reads;
    if x == "" {
      NothingRun(s);
    } else {
      NameRun(s, x);
    }
  }

  // ---------------------------------------------------------------- header values

  lemma BadValueStep(s: State, c: char)
    requires Running(s.core) && s.core.phase == Heading(HeaderValue) && c != CR && c != LF
    requires !s.core.conf.lenient && !IsHeaderChar(c)
    ensures Step(s, c).core.errno == INVALID_HEADER_TOKEN
  {
    hide ValueChar, IsHeaderChar;
  }

  /** Inside a value that means nothing to the parser. */
  predicate InText(s: State, conf: Settings) {
    && Running(s.core) && s.core.phase == Heading(HeaderValue) && s.core.name.header == General
    && s.core.conf == conf
  }

  lemma TextStep(s: State, c: char)
    requires Running(s.core) && s.core.phase == Heading(HeaderValue) && s.core.name.header == General
    requires c != CR && c != LF && (s.core.conf.lenient || IsHeaderChar(c))
    ensures InText(Step(s, c), s.core.conf) && Step(s, c).events == Emit(s.events, Value, [c])
  {
    hide Emit, IsHeaderChar;
    ApplySingle(s.events, Take(Value), c);
  }

  lemma TextStart(s: State, c: char)
    requires Running(s.core) && s.core.phase == Heading(ValueDiscardWs) && !Special(s.core.name.header)
    requires !OfValue(s.core.name.header) && !Blank(c) && c != CR && c != LF
    ensures InText(Step(s, c), s.core.conf) && Step(s, c).events == Emit(s.events, Value, [c])
  {
    hide Emit, Lower;
    ApplySingle(s.events, Take(Value), c);
  }

  /** The characters from the second on are header characters. */
  predicate TextBehindFirst(x: string) {
    forall i :: 1 <= i < |x| ==> IsHeaderChar(x[i])
  }

  /** The value of a header that means nothing to the parser is accepted if and only if, in strict mode, it has no
      control character behind its first byte. The first byte is not looked at. */
  lemma {:induction false} ValueExact(s: State, x: string)
    requires Running(s.core) && s.core.phase == Heading(ValueDiscardWs)
    requires !Special(s.core.name.header) && !OfValue(s.core.name.header)
    requires x != "" && !Blank(x[0]) && OneLine(x)
    ensures var t := Run(s, x);
            && (Running(t.core) <==> s.core.conf.lenient || TextBehindFirst(x))
            && (if Running(t.core) then InText(t, s.core.conf) && t.events == Emit(s.events, Value, x)
                else t.core.errno == INVALID_HEADER_TOKEN)
  {
    hide Step, Emit, IsHeaderChar, Special, OfValue;
    var r, c := x[..|x| - 1], x[|x| - 1];
    assert x == r + [c];
    RunLast(s, r, c);
    if r == "" {
      NothingRun(s);
      TextStart(s, c);
    } else {
      assert forall i :: 0 <= i < |r| ==> r[i] == x[i];
      ValueExact(s, r);
      var t := Run(s, r);
      assert TextBehindFirst(x) <==> TextBehindFirst(r) && IsHeaderChar(c);
      if !Running(t.core) {
        StoppedAt(t, c);
      } else if s.core.conf.lenient || IsHeaderChar(c) {
        TextStep(t, c);
        EmitTwice(s.events, Value, r, [c]);
      } else {
        BadValueStep(t, c);
      }
    }
  }

  /** A control character at the start of a value is accepted. */
  lemma ControlAccepted(s: State)
    requires Running(s.core) && s.core.phase == Heading(ValueDiscardWs)
    requires !Special(s.core.name.header) && !OfValue(s.core.name.header)
    ensures Running(Run(s, "\U{01}").core) && !IsHeaderChar('\U{01}')
    ensures !s.core.conf.lenient ==> !Running(Run(s, "a\U{01}").core)
  {
    hide Step, Special, OfValue;
    ValueExact(s, "\U{01}");
    ValueExact(s, "a\U{01}");
    assert "a\U{01}"[1] == '\U{01}';
  }

  // ---------------------------------------------------------------- Content-Length

  /** How many digits a value starts with. */
  function Leading(x: string): (k: nat)
    ensures k <= |x| && Digits(x[..k]) && (k < |x| ==> !IsNum(x[k]))
  {
    if x == "" || !IsNum(x[0]) then 0
    else
      var k := Leading(x[1..]);
      assert x[..k + 1] == [x[0]] + x[1..][..k];
      k + 1
  }

  /** Digits within the limit, and spaces behind them. */
  predicate LengthText(x: string) {
    var k := Leading(x);
    && k > 0 && Decimal(0, x[..k - 1]) <= LENGTH_LIMIT && forall i :: k <= i < |x| ==> x[i] == ' '
  }

  lemma {:induction false} LeadingMore(x: string, c: char)
    ensures Leading(x + [c]) == if Leading(x) == |x| && IsNum(c) then |x| + 1 else Leading(x)
    decreases |x|
  {
    hide IsNum;
    if x == "" {
      assert x + [c] == [c] && [c][1..] == "";
    } else {
      assert (x + [c])[1..] == x[1..] + [c];
      LeadingMore(x[1..], c);
    }
  }

  lemma LengthTextMore(x: string, c: char)
    requires x != ""
    ensures LengthText(x + [c]) <==>
              LengthText(x) && (c == ' '
                || (IsNum(c) && Leading(x) == |x| && Decimal(0, x[..Leading(x)]) <= LENGTH_LIMIT))
  {
    hide Decimal, Leading, IsNum, Digits, LengthText;
    LeadingMore(x, c);
    SpaceIsNoDigit();
    if Leading(x) == |x| && IsNum(c) {
      DigitsMore(x, c);
    } else {
      SpacesMore(x, c);
    }
  }

  lemma SpaceIsNoDigit()
    ensures !IsNum(' ')
  {
  }

  lemma DigitsMore(x: string, c: char)
    requires x != "" && Leading(x) == |x| && Leading(x + [c]) == |x| + 1
    ensures LengthText(x + [c]) <==> LengthText(x) && Decimal(0, x[..Leading(x)]) <= LENGTH_LIMIT
  {
    hide Decimal, Leading, IsNum, Digits;
    var y := x + [c];
    assert y[..|y| - 1] == x == x[..|x|];
    DecimalGrows(0, x, |x| - 1);
  }

  lemma SpacesMore(x: string, c: char)
    requires x != "" && Leading(x + [c]) == Leading(x)
    ensures LengthText(x + [c]) <==> LengthText(x) && c == ' '
  {
    hide Decimal, Leading, IsNum, Digits;
    var y, k := x + [c], Leading(x);
    assert k > 0 ==> y[..k - 1] == x[..k - 1];
    assert forall i :: k <= i < |x| ==> y[i] == x[i];
    assert y[|x|] == c;
  }

  /** Behind a length. */
  predicate InLength(s: State, x: string) {
    && Running(s.core) && s.core.phase == Heading(HeaderValue)
    && s.core.name.header == (if Leading(x) == |x| then ContentLengthNum else ContentLengthWs)
    && s.core.frame.length == Decimal(0, x[..Leading(x)])
  }

  lemma LengthStart(s: State, c: char)
    requires Running(s.core) && s.core.phase == Heading(ValueDiscardWs) && s.core.name.header == ContentLength
    requires !s.core.frame.flags.contentLength && !Blank(c) && c != CR && c != LF
    ensures if IsNum(c) then InLength(Step(s, c), [c]) else Step(s, c).core.errno == INVALID_CONTENT_LENGTH
  {
    assert [c][..0] == "" && [c][1..] == "" && [c][..1] == [c];
    ApplySingle(s.events, Take(Value), c);
  }

  lemma LengthNext(s: State, x: string, c: char)
    requires InLength(s, x) && c != CR && c != LF
    requires IsNum(c) && Leading(x) == |x| && s.core.frame.length <= LENGTH_LIMIT
    ensures InLength(Step(s, c), x + [c])
  {
    hide Step, IsNum;
    LeadingMore(x, c);
    LengthStep(s, c);
    assert x[..|x|] == x && (x + [c])[..|x| + 1] == x + [c];
  }

  lemma LengthSpace(s: State, x: string)
    requires InLength(s, x)
    ensures InLength(Step(s, ' '), x + [' '])
  {
    hide Leading, Decimal;
    LeadingMore(x, ' ');
    assert (x + [' '])[..Leading(x)] == x[..Leading(x)];
    ApplySingle(s.events, Take(Value), ' ');
  }

  lemma LengthRefused(s: State, x: string, c: char)
    requires InLength(s, x) && c != CR && c != LF && c != ' '
    requires !(IsNum(c) && Leading(x) == |x| && s.core.frame.length <= LENGTH_LIMIT)
    ensures Step(s, c).core.errno != OK
  {
    hide Leading, Decimal;
  }

  /** The first value of Content-Length in a message is accepted if and only if it is a number within the limit,
      followed by nothing but spaces; the length is then that number. */
  lemma {:induction false} LengthExact(s: State, x: string)
    requires Running(s.core) && s.core.phase == Heading(ValueDiscardWs) && s.core.name.header == ContentLength
    requires !s.core.frame.flags.contentLength && x != "" && !Blank(x[0]) && OneLine(x)
    ensures var t := Run(s, x);
            && (Running(t.core) <==> LengthText(x)) && (Running(t.core) ==> InLength(t, x))
            && (!Running(t.core) ==> t.core.errno != OK)
  {
    hide Step, LengthText, InLength, IsNum, Leading, Decimal;
    var r, c := x[..|x| - 1], x[|x| - 1];
    assert x == r + [c];
    RunLast(s, r, c);
    if r == "" {
      NothingRun(s);
      LengthStart(s, c);
      OneDigit(c);
    } else {
      assert forall i :: 0 <= i < |r| ==> r[i] == x[i];
      LengthExact(s, r);
      LengthTextMore(r, c);
      var t := Run(s, r);
      if !Running(t.core) {
        StoppedAt(t, c);
      } else {
        LengthKnown(t, r);
        if c == ' ' {
          LengthSpace(t, r);
        } else if IsNum(c) && Leading(r) == |r| && t.core.frame.length <= LENGTH_LIMIT {
          LengthNext(t, r, c);
        } else {
          LengthRefused(t, r, c);
        }
      }
    }
    if InLength(Run(s, x), x) {
      LengthKnown(Run(s, x), x);
    }
  }

  lemma LengthKnown(s: State, x: string)
    requires InLength(s, x)
    ensures Running(s.core) && s.core.frame.length == Decimal(0, x[..Leading(x)])
  {
    hide Decimal, Leading;
  }

  lemma OneDigit(c: char)
    ensures LengthText([c]) <==> IsNum(c)
  {
    assert [c][1..] == "" && [c][..0] == "";
  }

  // ---------------------------------------------------------------- status codes

  lemma StatusFirst(s: State, c: char)
    requires Running(s.core) && s.core.phase == StatusLine(ResFirstStatusCode) && c != ' '
    ensures var t := Step(s, c).core;
            if IsNum(c) then Running(t) && t.phase == StatusLine(ResStatusCode) && t.line.status == Digit(c)
            else t.errno == INVALID_STATUS
  {
  }

  lemma StatusNext(s: State, c: char)
    requires Running(s.core) && s.core.phase == StatusLine(ResStatusCode) && c != ' ' && c != CR && c != LF
    ensures var t := Step(s, c).core;
            if IsNum(c) && s.core.line.status * 10 + Digit(c) <= 999 then
              Running(t) && t.phase == StatusLine(ResStatusCode) && t.line.status == s.core.line.status * 10 + Digit(c)
            else t.errno == INVALID_STATUS
  {
  }

  lemma StatusLast(s: State)
    requires Running(s.core) && s.core.phase == StatusLine(ResStatusCode)
    ensures var t := Step(s, ' ').core;
            Running(t) && t.phase == StatusLine(ResStatusStart) && t.line.status == s.core.line.status
  {
  }

  lemma {:induction false} StatusDigits(s: State, x: string)
    requires Running(s.core) && s.core.phase == StatusLine(ResFirstStatusCode) && x != "" && NoBreak(x)
    ensures var t := Run(s, x).core;
            if Digits(x) && Decimal(0, x) <= 999 then
              Running(t) && t.phase == StatusLine(ResStatusCode) && t.line.status == Decimal(0, x)
            else t.errno == INVALID_STATUS
  {
    hide Step;
    var r, c := x[..|x| - 1], x[|x| - 1];
    assert x == r + [c];
    RunLast(s, r, c);
    assert Digits(x) <==> Digits(r) && IsNum(c);
    if r == "" {
      NothingRun(s);
      StatusFirst(s, c);
      assert Digits(x) ==> Decimal(0, x) == Digit(c);
    } else {
      StatusDigits(s, r);
      var t := Run(s, r);
      assert Digits(x) ==> Decimal(0, x) == Decimal(0, r) * 10 + Digit(c);
      if Digits(r) && Decimal(0, r) <= 999 {
        StatusNext(t, c);
      } else {
        StoppedAt(t, c);
      }
    }
  }

  /** The word before a blank is accepted as a status if and only if it is a number up to 999. */
  lemma StatusExact(s: State, x: string)
    requires Running(s.core) && s.core.phase == StatusLine(ResFirstStatusCode) && x != "" && NoBreak(x)
    ensures var t := Run(s, x + " ").core;
            && (Running(t) <==> Digits(x) && Decimal(0, x) <= 999)
            && (if Running(t) then t.phase == StatusLine(ResStatusStart) && t.line.status == Decimal(0, x)
                else t.errno == INVALID_STATUS)
  {
    hide Step, Decimal, Digits;
    StatusDigits(s, x);
    RunLast(s, x, ' ');
    if Run(s, x).core.errno == INVALID_STATUS {
      StoppedAt(Run(s, x), ' ');
    } else {
      StatusLast(Run(s, x));
    }
  }

  // ---------------------------------------------------------------- versions

  /** `x` follows the pattern, in which `#` stands for a digit. */
  predicate Fits(x: string, pattern: string) {
    |x| == |pattern| && forall i :: 0 <= i < |x| ==> FitsAt(x[i], pattern[i])
  }

  predicate FitsAt(c: char, p: char) {
    if p == '#' then IsNum(c) else c == p
  }

  /** A version, with one digit before and one behind the dot. */
  predicate VersionWord(x: string, verb: Method) {
    Fits(x, "HTTP/#.#") || (verb == SOURCE && Fits(x, "ICE/#.#"))
  }

  /** What must still follow in the states of the version. */
  function Remaining(at: VersionAt): string
    requires at != ReqHttpStart && at != ReqLineAlmostDone
  {
    match at
    case ReqH => "TTP/#.#" case ReqHT => "TP/#.#" case ReqHTT => "P/#.#"
    case ReqI => "CE/#.#" case ReqIC => "E/#.#"
    case ReqHTTP => "/#.#" case ReqMajor => "#.#" case ReqDot => ".#" case ReqMinor => "#"
    case ReqEnd => ""
  }

  predicate VersionRest(at: VersionAt, x: string, verb: Method) {
    if at == ReqHttpStart then VersionWord(x, verb) else at != ReqLineAlmostDone && Fits(x, Remaining(at))
  }

  /** The state behind one more character, if it fits. */
  function Onward(at: VersionAt, c: char, verb: Method): Option<VersionAt> {
    match at
    case ReqHttpStart => if c == 'H' then Some(ReqH) else if c == 'I' && verb == SOURCE then Some(ReqI) else None
    case ReqH => if c == 'T' then Some(ReqHT) else None
    case ReqHT => if c == 'T' then Some(ReqHTT) else None
    case ReqHTT => if c == 'P' then Some(ReqHTTP) else None
    case ReqI => if c == 'C' then Some(ReqIC) else None
    case ReqIC => if c == 'E' then Some(ReqHTTP) else None
    case ReqHTTP => if c == '/' then Some(ReqMajor) else None
    case ReqMajor => if IsNum(c) then Some(ReqDot) else None
    case ReqDot => if c == '.' then Some(ReqMinor) else None
    case ReqMinor => if IsNum(c) then Some(ReqEnd) else None
    case _ => None
  }

  lemma VersionStep(s: State, at: VersionAt, c: char)
    requires Running(s.core) && s.core.phase == Version(at) && c != CR && c != LF && at != ReqLineAlmostDone
    requires at == ReqHttpStart ==> c != ' '
    ensures var t, next := Step(s, c).core, Onward(at, c, s.core.line.verb);
            && t.line.verb == s.core.line.verb
            && (if next.Some? then Running(t) && t.phase == Version(next.value) else t.errno != OK)
  {
    hide OnStart, OnStatusLine, OnMethod, OnUrl, OnHeader, OnChunkSize, OnBody;
  }

  lemma FitsMore(c: char, x: string, pattern: string)
    requires pattern != ""
    ensures Fits([c] + x, pattern) <==> FitsAt(c, pattern[0]) && Fits(x, pattern[1..])
  {
    hide FitsAt;
    var y := [c] + x;
    assert y[0] == c && forall i :: 0 <= i < |x| ==> y[i + 1] == x[i];
    if Fits(y, pattern) {
      forall i | 0 <= i < |x|
        ensures FitsAt(x[i], pattern[1..][i])
      {
        assert FitsAt(y[i + 1], pattern[i + 1]);
      }
    }
  }

  lemma FitsNothing(c: char, x: string)
    ensures !Fits([c] + x, "")
  {
  }

  /** The version starts with one of two letters. */
  lemma VersionBegins(c: char, x: string, verb: Method)
    ensures VersionRest(ReqHttpStart, [c] + x, verb)
        <==> Onward(ReqHttpStart, c, verb).Some? && VersionRest(Onward(ReqHttpStart, c, verb).value, x, verb)
  {
    hide Fits;
    FitsMore(c, x, "HTTP/#.#");
    FitsMore(c, x, "ICE/#.#");
    assert "HTTP/#.#"[1..] == "TTP/#.#" && "ICE/#.#"[1..] == "CE/#.#";
  }

  lemma RemainingMore(at: VersionAt, c: char, verb: Method)
    requires at != ReqHttpStart && at != ReqLineAlmostDone && at != ReqEnd
    ensures Remaining(at) != "" && Onward(at, c, verb).Some? == FitsAt(c, Remaining(at)[0])
    ensures Onward(at, c, verb).Some? ==>
              var next := Onward(at, c, verb).value;
              next != ReqHttpStart && next != ReqLineAlmostDone && Remaining(next) == Remaining(at)[1..]
  {
  }

  /** What was possible stays possible, and nothing else is. */
  lemma VersionMore(at: VersionAt, c: char, x: string, verb: Method)
    ensures var next := Onward(at, c, verb);
            && VersionRest(at, [c] + x, verb) == (next.Some? && VersionRest(next.value, x, verb))
            && (next.Some? ==> next.value != ReqLineAlmostDone && next.value != ReqHttpStart)
  {
    hide Fits, FitsAt, Remaining;
    if at == ReqHttpStart {
      VersionBegins(c, x, verb);
    } else if at == ReqEnd {
      FitsNothing(c, x);
      NoRest(at, verb);
      NothingRemains();
    } else if at != ReqLineAlmostDone {
      RemainingMore(at, c, verb);
      FitsMore(c, x, Remaining(at));
    }
  }

  lemma NothingRemains()
    ensures Remaining(ReqEnd) == ""
  {
  }

  lemma VersionOver(s: State, at: VersionAt)
    requires Running(s.core) && s.core.phase == Version(at) && at != ReqLineAlmostDone
    ensures Running(Step(s, CR).core) <==> at == ReqEnd
  {
    hide OnStart, OnStatusLine, OnMethod, OnUrl, OnHeader, OnChunkSize, OnBody;
  }

  lemma {:induction false} VersionTail(s: State, at: VersionAt, x: string)
    requires Running(s.core) && s.core.phase == Version(at) && at != ReqLineAlmostDone && OneLine(x)
    requires at == ReqHttpStart && x != "" ==> x[0] != ' '
    ensures Running(Run(s, x + [CR]).core) <==> VersionRest(at, x, s.core.line.verb)
    decreases |x|
  {
    hide Step, VersionRest, Onward;
    if x == "" {
      assert x + [CR] == [CR];
      RunOne(s, CR);
      VersionOver(s, at);
      NoRest(at, s.core.line.verb);
    } else {
      var c, y := x[0], x[1..];
      assert x + [CR] == [c] + (y + [CR]) && x == [c] + y;
      RunFirst(s, c, y + [CR]);
      VersionStep(s, at, c);
      VersionMore(at, c, y, s.core.line.verb);
      var t := Step(s, c);
      if Running(t.core) {
        VersionTail(t, t.core.phase.version, y);
      } else {
        Stopped(t, y + [CR]);
      }
    }
  }

  lemma NoRest(at: VersionAt, verb: Method)
    ensures VersionRest(at, "", verb) <==> at == ReqEnd
  {
  }

  /** What stands before the end of the request line is accepted as a version if and only if it is `HTTP/` with
      one digit, a dot and one digit, or `ICE/` with the same for the method SOURCE. */
  lemma VersionExact(s: State, x: string)
    requires Running(s.core) && s.core.phase == Version(ReqHttpStart) && OneLine(x) && (x != "" ==> x[0] != ' ')
    ensures Running(Run(s, x + [CR]).core) <==> VersionWord(x, s.core.line.verb)
  {
    hide Step, VersionWord;
    VersionTail(s, ReqHttpStart, x);
  }
}