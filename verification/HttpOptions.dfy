/** What the parser makes of the value of a `Connection` header, for every value, and of an `Upgrade` header. */
module HttpOptions {
  import opened HttpChars
  import opened Options
  import opened HttpStep
  import opened HttpTrace
  import opened HttpWords
  import opened HttpNumbers
  import opened HttpLines
  import opened Folding

  // ---------------------------------------------------------------- one option

  /** `q` is a beginning of the word, in any mixture of cases. */
  predicate Begins(q: string, word: string) {
    |q| <= |word| && Lowers(q) == word[..|q|]
  }

  /** `q` is the word, followed by nothing but spaces. */
  predicate Spells(q: string, word: string) {
    |q| >= |word| && Lowers(q)[..|word|] == word && forall i :: |word| <= i < |q| ==> q[i] == ' '
  }

  /** `q` is cut off in the middle of one of the three words. */
  predicate Unfinished(q: string) {
    && q != "" && !Spells(q, "keep-alive") && !Spells(q, "close") && !Spells(q, "upgrade")
    && (Begins(q, "keep-alive") || Begins(q, "close") || Begins(q, "upgrade"))
  }

  /** What an option does to the flags. */
  function Effect(f: Flags, q: string): Flags {
    if Spells(q, "keep-alive") then f.(keepAlive := true)
    else if Spells(q, "close") then f.(close := true)
    else if Spells(q, "upgrade") then f.(connUpgrade := true)
    else f
  }

  /** The header state behind the characters `q` of an option. */
  function HeaderAfter(q: string): Header {
    if Spells(q, "keep-alive") then KeepAlive
    else if Spells(q, "close") then Close
    else if Spells(q, "upgrade") then ConnectionUpgrade
    else if Begins(q, "keep-alive") then MatchKeepAlive
    else if Begins(q, "close") then MatchClose
    else if Begins(q, "upgrade") then MatchConnectionUpgrade
    else ConnectionToken
  }

  lemma LowersMore(q: string, c: char)
    ensures Lowers(q + [c]) == Lowers(q) + [Lower(c)]
  {
  }

  /** One more character of an option that may still become the word, or is the word already. */
  lemma WordMore(q: string, c: char, word: string)
    requires q != "" && word != ""
    ensures Begins(q + [c], word) <==> |q| < |word| && Begins(q, word) && Lower(c) == word[|q|]
    ensures Spells(q + [c], word) <==>
              (Spells(q, word) && c == ' ') || (|q| == |word| - 1 && Begins(q, word) && Lower(c) == word[|q|])
  {
    hide Lower;
    LowersMore(q, c);
    var r := q + [c];
    if |q| < |word| {
      assert Lowers(r)[..|q|] == Lowers(q);
      assert word[..|q| + 1] == word[..|q|] + [word[|q|]];
      if Begins(r, word) {
        assert word[..|q| + 1][..|q|] == word[..|q|];
      }
    } else {
      assert Lowers(r)[..|word|] == Lowers(q)[..|word|];
      assert forall i :: |word| <= i < |q| ==> r[i] == q[i];
      assert r[|q|] == c;
    }
  }

  /** The three words start differently. */
  lemma FirstLetters(q: string)
    requires q != ""
    ensures Begins(q, "keep-alive") || Spells(q, "keep-alive") ==> Lower(q[0]) == 'k'
    ensures Begins(q, "close") || Spells(q, "close") ==> Lower(q[0]) == 'c'
    ensures Begins(q, "upgrade") || Spells(q, "upgrade") ==> Lower(q[0]) == 'u'
  {
    hide Lower;
    assert Lowers(q)[0] == Lower(q[0]);
  }

  /** The switch of `s_header_value` keeps track of the option. */
  lemma OptionChar(s: Core, q: string, c: char)
    requires q != "" && s.name.header == HeaderAfter(q) && (Unfinished(q) ==> s.name.index == |q| - 1)
    requires c != ',' || Unfinished(q)
    ensures var v := ValueChar(s, c);
            && v.errno == OK && v.flags == s.frame.flags && v.length == s.frame.length
              && v.header == HeaderAfter(q + [c])
            && (Unfinished(q + [c]) ==> v.index == |q|)
  {
    hide Lower, Lowers, Begins, Spells, LengthChar, Token;
    WordMore(q, c, "keep-alive");
    WordMore(q, c, "close");
    WordMore(q, c, "upgrade");
    FirstLetters(q);
    FirstLetters(q + [c]);
    WordsDiffer(q);
    assert (q + [c])[0] == q[0];
  }

  lemma WordsDiffer(q: string)
    ensures Spells(q, "keep-alive") ==> |q| >= 10
    ensures Spells(q, "close") ==> |q| >= 5
    ensures Spells(q, "upgrade") ==> |q| >= 7
    ensures Begins(q, "keep-alive") ==> |q| <= 10 && (|q| == 10 ==> Spells(q, "keep-alive"))
    ensures Begins(q, "close") ==> |q| <= 5 && (|q| == 5 ==> Spells(q, "close"))
    ensures Begins(q, "upgrade") ==> |q| <= 7 && (|q| == 7 ==> Spells(q, "upgrade"))
  {
    hide Lower;
    assert "keep-alive"[..10] == "keep-alive" && "close"[..5] == "close" && "upgrade"[..7] == "upgrade";
    assert |q| == 10 ==> Lowers(q)[..10] == Lowers(q);
    assert |q| == 5 ==> Lowers(q)[..5] == Lowers(q);
    assert |q| == 7 ==> Lowers(q)[..7] == Lowers(q);
  }

  // ---------------------------------------------------------------- a list of options

  predicate NoComma(x: string) {
    forall i :: 0 <= i < |x| ==> x[i] != ','
  }

  function Commas(es: seq<string>): string
    requires es != []
  {
    if |es| == 1 then es[0] else es[0] + ([','] + Commas(es[1..]))
  }

  function FirstComma(x: string): (k: nat)
    ensures k <= |x| && NoComma(x[..k]) && (k < |x| ==> x[k] == ',')
  {
    if x == "" || x[0] == ',' then 0
    else
      var k := FirstComma(x[1..]);
      assert x[..k + 1] == [x[0]] + x[1..][..k];
      k + 1
  }

  /** The elements between the commas. */
  function Elements(x: string): (es: seq<string>)
    ensures es != [] && Commas(es) == x && forall i :: 0 <= i < |es| ==> NoComma(es[i])
    decreases |x|
  {
    var k := FirstComma(x);
    if k == |x| then
      assert x[..k] == x;
      [x]
    else
      var rest := Elements(x[k + 1..]);
      assert ([x[..k]] + rest)[1..] == rest;
      assert x == x[..k] + ([x[k]] + x[k + 1..]);
      [x[..k]] + rest
  }

  function Stripped(e: string): (r: string)
    ensures |r| <= |e| && r == e[|e| - |r|..] && (r != "" ==> r[0] != ' ')
  {
    if e != "" && e[0] == ' ' then Stripped(e[1..]) else e
  }

  /** The elements behind the first comma, without the spaces before them: an empty one ends the list, as does one
      that does not start like a token, for instance with a tab; and one that is cut off in the middle of a word
      takes the comma behind it, and with it the next element, for a part of itself. */
  function Later(f: Flags, es: seq<string>): Flags
    decreases |es|
  {
    if es == [] then f
    else
      var e := Stripped(es[0]);
      if e == "" || Token(Lower(e[0])) == NUL then f
      else if Unfinished(e) then (if |es| == 1 then f else Later(f, es[2..]))
      else Later(Effect(f, e), es[1..])
  }

  /** The flags behind a `Connection` header with this value. */
  function OptionFlags(f: Flags, x: string): Flags {
    var es := Elements(x);
    if es[0] == "" || Unfinished(es[0]) then (if |es| == 1 then f else Later(f, es[2..]))
    else Later(Effect(f, es[0]), es[1..])
  }

  // ---------------------------------------------------------------- reading a list

  /** Behind the characters `q` of an option. */
  predicate InOption(s: State, g: Given, f: Flags, n: nat, q: string) {
    && q != "" && InValue(s, g, f, n, HeaderAfter(q)) && (Unfinished(q) ==> s.core.name.index == |q| - 1)
  }

  /** At the start of an option behind a comma. */
  predicate AtOption(s: State, g: Given, f: Flags, n: nat) {
    InValue(s, g, f, n, TokenStart) && s.core.name.index == 0
  }

  /** In a value that has the effect `f`, should it end here. */
  predicate Effective(s: State, g: Given, f: Flags, n: nat) {
    && InValue(s, g, s.core.frame.flags, n, s.core.name.header)
    && SetFlags(s.core.frame.flags, s.core.name.header) == f
  }

  predicate TextChar(c: char) {
    c != CR && c != LF && IsHeaderChar(c)
  }

  lemma OptionStep(s: State, g: Given, f: Flags, n: nat, q: string, c: char)
    requires InOption(s, g, f, n, q) && TextChar(c) && (c != ',' || Unfinished(q))
    ensures InOption(Step(s, c), g, f, n, q + [c])
  {
    hide Step, IsHeaderChar, HeaderAfter, Unfinished, ValueChar;
    ValueStep(s, c);
    OptionChar(Counted(s.core), q, c);
  }

  lemma {:induction false} OptionRun(s: State, g: Given, f: Flags, n: nat, q: string, x: string)
    requires InOption(s, g, f, n, q) && Plain(x) && NoComma(x)
    ensures InOption(Run(s, x), g, f, n, q + x)
  {
    hide Step, InOption, IsHeaderChar;
    if x == "" {
      assert q + x == q;
    } else {
      var r, c := x[..|x| - 1], x[|x| - 1];
      OptionRun(s, g, f, n, q, r);
      assert q + x == q + r + [c];
      OptionStep(Run(s, r), g, f, n, q + r, c);
    }
  }

  lemma OptionEffect(s: State, g: Given, f: Flags, n: nat, q: string)
    requires InOption(s, g, f, n, q)
    ensures Effective(s, g, Effect(f, q), n)
  {
    hide Spells, Begins;
  }

  /** A comma ends an option that is not cut off in the middle of a word. */
  lemma CommaEnds(s: State, g: Given, f: Flags, n: nat, q: string)
    requires InOption(s, g, f, n, q) && !Unfinished(q)
    ensures AtOption(Step(s, ','), g, Effect(f, q), n)
  {
    hide Step, Spells, Begins;
    ValueStep(s, ',');
  }

  /** What is cut off in the middle of a word stays foreign behind a comma. */
  lemma {:induction false} Foreign(q: string, x: string)
    requires Unfinished(q)
    ensures !Unfinished(q + [','] + x) && Effect(NONE, q + [','] + x) == NONE
        && HeaderAfter(q + [','] + x) == ConnectionToken
  {
    hide Begins, Spells, Lower;
    CommaStranger(q, "keep-alive");
    CommaStranger(q, "close");
    CommaStranger(q, "upgrade");
    StrangerStays(q + [','], x, "keep-alive");
    StrangerStays(q + [','], x, "close");
    StrangerStays(q + [','], x, "upgrade");
  }

  lemma CommaStranger(q: string, word: string)
    requires q != "" && word in {"keep-alive", "close", "upgrade"} && !Spells(q, word)
    ensures !Begins(q + [','], word) && !Spells(q + [','], word)
  {
    WordMore(q, ',', word);
    assert ',' !in "keep-alive" && ',' !in "close" && ',' !in "upgrade";
  }

  lemma {:induction false} StrangerStays(q: string, x: string, word: string)
    requires q != "" && word != "" && !Begins(q, word) && !Spells(q, word)
    ensures !Begins(q + x, word) && !Spells(q + x, word)
  {
    hide Begins, Spells;
    if x == "" {
      assert q + x == q;
    } else {
      var r, c := x[..|x| - 1], x[|x| - 1];
      StrangerStays(q, r, word);
      assert q + x == q + r + [c];
      WordMore(q + r, c, word);
    }
  }

  lemma SpaceStays(s: State, g: Given, f: Flags, n: nat)
    requires AtOption(s, g, f, n)
    ensures AtOption(Step(s, ' '), g, f, n)
  {
    hide Step;
    ValueStep(s, ' ');
  }

  lemma {:induction false} SpacesStay(s: State, g: Given, f: Flags, n: nat, e: string)
    requires AtOption(s, g, f, n)
    ensures var r := Stripped(e);
            Run(s, e) == Run(Run(s, e[..|e| - |r|]), r) && AtOption(Run(s, e[..|e| - |r|]), g, f, n)
    decreases |e|
  {
    hide Step, Run, AtOption;
    var r := Stripped(e);
    if e != "" && e[0] == ' ' {
      var d, k := e[1..], |e| - 1 - |r|;
      SpaceStays(s, g, f, n);
      SpacesStay(Step(s, ' '), g, f, n, d);
      assert e == [' '] + d && e[..|e| - |r|] == [' '] + d[..k];
      RunFirst(s, ' ', d);
      RunFirst(s, ' ', d[..k]);
    } else {
      assert e[..0] == "";
      RunNothing(s);
    }
  }

  lemma RunNothing(s: State)
    ensures Run(s, "") == s
  {
  }

  /** The first character of an option behind a comma. */
  lemma OptionStart(s: State, g: Given, f: Flags, n: nat, c: char)
    requires AtOption(s, g, f, n) && TextChar(c) && c != ' '
    ensures if Token(Lower(c)) == NUL then InValue(Step(s, c), g, f, n, General) else InOption(Step(s, c), g, f, n, [c])
  {
    hide Step, IsHeaderChar, Lower;
    ValueStep(s, c);
    OneLetter(c);
    LowerBlank(c);
  }

  lemma LowerBlank(c: char)
    requires TextChar(c) && c != ' '
    ensures Lower(c) != ' ' && Lower(c) != '\t'
    ensures Token('k') != NUL && Token('c') != NUL && Token('u') != NUL
  {
  }

  lemma OneLetter(c: char)
    ensures HeaderAfter([c]) == FirstOption(Lower(c))
    ensures Unfinished([c]) <==> Lower(c) == 'k' || Lower(c) == 'c' || Lower(c) == 'u'
  {
    hide Lower;
    assert Lowers([c]) == [Lower(c)];
    assert "keep-alive"[..1] == "k" && "close"[..1] == "c" && "upgrade"[..1] == "u";
  }

  /** The first character of the value. */
  lemma ListStart(s: State, g: Given, f: Flags, n: nat, c: char)
    requires AtValue(s, g, f, n, Connection) && TextChar(c) && !Blank(c)
    ensures InOption(Step(s, c), g, f, n, [c]) && Step(s, c).events == Emit(s.events, Value, [c])
  {
    hide Step, IsHeaderChar, Lower, Unfinished, HeaderAfter;
    ValueFirst(s, c);
    OneLetter(c);
  }

  /** What nobody understands any more. */
  lemma {:induction false} GeneralRun(s: State, g: Given, f: Flags, n: nat, x: string)
    requires InValue(s, g, f, n, General) && Plain(x)
    ensures InValue(Run(s, x), g, f, n, General)
  {
    hide Step, InValue, IsHeaderChar;
    if x != "" {
      var r, c := x[..|x| - 1], x[|x| - 1];
      GeneralRun(s, g, f, n, r);
      PlainNext(Run(s, r), g, f, n, c);
    }
  }

  /** As long as the parser does not err, a value is reported as it is. */
  lemma {:induction false} TextEvents(s: State, x: string)
    requires Running(s.core) && s.core.phase == Heading(HeaderValue) && Plain(x) && x != "" && Running(Run(s, x).core)
    ensures Run(s, x).core.phase == Heading(HeaderValue) && Run(s, x).events == Emit(s.events, Value, x)
  {
    hide Step, Emit, IsHeaderChar, ValueChar;
    var r, c := x[..|x| - 1], x[|x| - 1];
    assert x == r + [c];
    RunLast(s, r, c);
    if !Running(Run(s, r).core) {
      Stopped(Run(s, r), [c]);
      RunOne(Run(s, r), c);
    }
    if r != "" {
      TextEvents(s, r);
      EmitTwice(s.events, Value, r, [c]);
    }
    ValueStep(Run(s, r), c);
  }

  lemma CommaIs()
    ensures TextChar(',') && Token(Lower(',')) == NUL
  {
  }

  function Tail(es: seq<string>): string {
    if es == [] then "" else [','] + Commas(es)
  }

  lemma CommasSplit(es: seq<string>)
    requires es != []
    ensures Commas(es) == es[0] + Tail(es[1..])
  {
    if |es| == 1 {
      assert es[0] + "" == es[0];
    }
  }

  lemma PlainParts(x: string, y: string)
    requires Plain(x + y)
    ensures Plain(x) && Plain(y)
  {
    hide IsHeaderChar;
    assert forall i :: 0 <= i < |x| ==> (x + y)[i] == x[i];
    assert forall i :: 0 <= i < |y| ==> (x + y)[|x| + i] == y[i];
  }

  lemma NoCommaRest(x: string, k: nat)
    requires NoComma(x) && k <= |x|
    ensures NoComma(x[k..])
  {
  }

  predicate NoCommas(es: seq<string>) {
    forall i :: 0 <= i < |es| ==> NoComma(es[i])
  }

  /** From behind an option to the end of the value. */
  lemma {:induction false} TailRun(s: State, g: Given, f: Flags, n: nat, e: string, es: seq<string>)
    requires InOption(s, g, f, n, e) && NoCommas(es) && Plain(Tail(es))
    ensures Effective(Run(s, Tail(es)), g,
                      if Unfinished(e) then (if es == [] then f else Later(f, es[1..])) else Later(Effect(f, e), es), n)
    decreases |es|, 1
  {
    hide Step, Run, InOption, AtOption, Effective, IsHeaderChar, Effect, Spells, Begins, Unfinished, Plain;
    if es == [] {
      RunNothing(s);
      OptionEffect(s, g, f, n, e);
      UnfinishedNothing(f, e);
    } else {
      PlainParts([','], Commas(es));
      RunFirst(s, ',', Commas(es));
      if !Unfinished(e) {
        CommaEnds(s, g, f, n, e);
        LaterRun(Step(s, ','), g, Effect(f, e), n, es);
      } else {
        var d, rest := es[0], es[1..];
        CommasSplit(es);
        PlainParts(d, Tail(rest));
        CommaIs();
        OptionStep(s, g, f, n, e, ',');
        var t := Step(s, ',');
        RunConcat(t, d, Tail(rest));
        OptionRun(t, g, f, n, e + [','], d);
        Foreign(e, d);
        NoEffect(f, e + [','] + d);
        TailRun(Run(t, d), g, f, n, e + [','] + d, rest);
      }
    }
  }

  lemma UnfinishedNothing(f: Flags, e: string)
    ensures Unfinished(e) ==> Effect(f, e) == f
  {
    hide Spells, Begins;
  }

  lemma NoEffect(f: Flags, q: string)
    requires HeaderAfter(q) == ConnectionToken
    ensures Effect(f, q) == f
  {
    hide Spells, Begins;
  }

  lemma GeneralEffective(s: State, g: Given, f: Flags, n: nat)
    requires InValue(s, g, f, n, General) || AtOption(s, g, f, n)
    ensures Effective(s, g, f, n)
  {
  }

  /** From the start of an option behind a comma to the end of the value. */
  lemma {:induction false} LaterRun(s: State, g: Given, f: Flags, n: nat, es: seq<string>)
    requires AtOption(s, g, f, n) && es != [] && NoCommas(es) && Plain(Commas(es))
    ensures Effective(Run(s, Commas(es)), g, Later(f, es), n)
    decreases |es|, 0
  {
    hide Step, Run, InOption, AtOption, Effective, IsHeaderChar, Effect, Unfinished, Lower, Token, Plain, InValue;
    var rest := es[1..];
    var e, d := Stripped(es[0]), es[0][..|es[0]| - |Stripped(es[0])|];
    CommasSplit(es);
    assert es[0] == d + e;
    Assoc(d, e, Tail(rest));
    PlainParts(d, e + Tail(rest));
    PlainParts(e, Tail(rest));
    RunConcat(s, d, e + Tail(rest));
    SpacesStay(s, g, f, n, es[0]);
    var t := Run(s, d);
    if e == "" {
      assert e + Tail(rest) == Tail(rest);
      if rest == [] {
        RunNothing(t);
        GeneralEffective(t, g, f, n);
      } else {
        CommaIs();
        EndOfList(t, g, f, n, ',', Commas(rest));
      }
    } else {
      var k := |d|;
      NoCommaRest(es[0], k);
      OneOption(t, g, f, n, e, rest);
    }
  }

  /** From the first character of an option that is not empty to the end of the value. */
  lemma {:induction false} OneOption(s: State, g: Given, f: Flags, n: nat, e: string, rest: seq<string>)
    requires AtOption(s, g, f, n) && e != "" && e[0] != ' ' && NoComma(e) && NoCommas(rest)
    requires Plain(e) && Plain(Tail(rest)) && Plain(e + Tail(rest))
    ensures Effective(Run(s, e + Tail(rest)), g,
                      if Token(Lower(e[0])) == NUL then f
                      else if Unfinished(e) then (if rest == [] then f else Later(f, rest[1..]))
                      else Later(Effect(f, e), rest), n)
    decreases |rest|, 2
  {
    hide Step, Run, InOption, AtOption, Effective, IsHeaderChar, Effect, Unfinished, Lower, Token, Plain, InValue,
        Later,
        Tail;
    var c, r := e[0], e[1..];
    assert e + Tail(rest) == [c] + (r + Tail(rest)) && e == [c] + r;
    if Token(Lower(c)) == NUL {
      EndOfList(s, g, f, n, c, r + Tail(rest));
    } else {
      PlainFirstChar(c, r + Tail(rest));
      OptionStart(s, g, f, n, c);
      RunFirst(s, c, r + Tail(rest));
      var u := Step(s, c);
      PlainParts([c], r);
      RunConcat(u, r, Tail(rest));
      NoCommaRest(e, 1);
      OptionRun(u, g, f, n, [c], r);
      TailRun(Run(u, r), g, f, n, e, rest);
    }
  }

  lemma PlainFirstChar(c: char, x: string)
    requires Plain([c] + x)
    ensures TextChar(c) && Plain(x)
  {
    hide IsHeaderChar;
    assert ([c] + x)[0] == c;
    PlainParts([c], x);
  }

  /** A character that no option can start with ends the list. */
  lemma EndOfList(s: State, g: Given, f: Flags, n: nat, c: char, x: string)
    requires AtOption(s, g, f, n) && c != ' ' && Token(Lower(c)) == NUL && Plain([c] + x)
    ensures Effective(Run(s, [c] + x), g, f, n)
  {
    hide Step, Run, InValue, AtOption, IsHeaderChar, Effective, Lower, Token, InOption, Plain;
    PlainFirstChar(c, x);
    OptionStart(s, g, f, n, c);
    RunFirst(s, c, x);
    GeneralRun(Step(s, c), g, f, n, x);
    GeneralEffective(Run(Step(s, c), x), g, f, n);
  }

  /** The value of a `Connection` header, whatever it is. */
  lemma ListRun(s: State, g: Given, f: Flags, n: nat, x: string)
    requires AtValue(s, g, f, n, Connection) && x != "" && !Blank(x[0]) && Plain(x)
    ensures Effective(Run(s, x), g, OptionFlags(f, x), n) && Run(s, x).events == Emit(s.events, Value, x)
  {
    hide Step, Run, AtValue, InOption, Effective, IsHeaderChar, Effect, Unfinished, Plain, Emit, Elements;
    var c, r := x[0], x[1..];
    assert x == [c] + r;
    PlainFirstChar(c, r);
    ListStart(s, g, f, n, c);
    RunFirst(s, c, r);
    ListRest(Step(s, c), g, f, n, x);
    if r == "" {
      RunNothing(Step(s, c));
      assert x == [c];
    } else {
      StillText(Step(s, c), g, f, n, [c]);
      StillEffective(Run(s, x), g, OptionFlags(f, x), n);
      TextEvents(Step(s, c), r);
      EmitTwice(s.events, Value, [c], r);
    }
  }

  lemma StillText(s: State, g: Given, f: Flags, n: nat, q: string)
    requires InOption(s, g, f, n, q)
    ensures Running(s.core) && s.core.phase == Heading(HeaderValue)
  {
  }

  lemma StillEffective(s: State, g: Given, f: Flags, n: nat)
    requires Effective(s, g, f, n)
    ensures Running(s.core) && s.core.phase == Heading(HeaderValue)
  {
  }

  /** Behind the first character. */
  lemma ListRest(s: State, g: Given, f: Flags, n: nat, x: string)
    requires x != "" && Plain(x) && InOption(s, g, f, n, [x[0]])
    ensures Effective(Run(s, x[1..]), g, OptionFlags(f, x), n)
  {
    hide Step, Run, InOption, Effective, IsHeaderChar, Effect, Unfinished, Plain, Later;
    var es := Elements(x);
    var e, rest := es[0], es[1..];
    CommasSplit(es);
    PlainParts(e, Tail(rest));
    if e == "" {
      var d, more := rest[0], rest[1..];
      assert x == [','] + Commas(rest) && x[1..] == Commas(rest);
      CommasSplit(rest);
      PlainParts([','], Commas(rest));
      PlainParts(d, Tail(more));
      RunConcat(s, d, Tail(more));
      OptionRun(s, g, f, n, [','], d);
      LeadingComma(f, d);
      TailRun(Run(s, d), g, f, n, [','] + d, more);
    } else {
      assert x[1..] == e[1..] + Tail(rest) && e == [x[0]] + e[1..];
      PlainParts([x[0]], e[1..]);
      RunConcat(s, e[1..], Tail(rest));
      NoCommaRest(e, 1);
      OptionRun(s, g, f, n, [x[0]], e[1..]);
      TailRun(Run(s, e[1..]), g, f, n, e, rest);
    }
  }

  /** A comma at the very start belongs to the first option. */
  lemma LeadingComma(f: Flags, d: string)
    ensures !Unfinished([','] + d) && Effect(f, [','] + d) == f
  {
    hide Begins, Spells;
    OneComma();
    StrangerStays([','], d, "keep-alive");
    StrangerStays([','], d, "close");
    StrangerStays([','], d, "upgrade");
  }

  lemma OneComma()
    ensures forall w :: w in {"keep-alive", "close", "upgrade"} ==> !Begins([','], w) && !Spells([','], w)
  {
    assert Lowers([',']) == [','];
    assert "keep-alive"[..1] == "k" && "close"[..1] == "c" && "upgrade"[..1] == "u";
  }

  // ---------------------------------------------------------------- header lines

  /** `Connection`, or `Proxy-Connection`, which is taken for the same, with any value. */
  predicate ConnectionHeader(h: Line) {
    && h.name != "" && Tokens(h.name) && Recognised(Lowered(h.name)) == Connection
    && (h.value != "" ==> !Blank(h.value[0])) && Plain(h.value)
  }

  /** `Upgrade`, with any value. */
  predicate UpgradeHeader(h: Line) {
    && h.name != "" && Tokens(h.name) && Recognised(Lowered(h.name)) == Upgrade
    && (h.value != "" ==> !Blank(h.value[0])) && Plain(h.value)
  }

  /** A `Connection` header is reported, and sets the flags of the options in its list. */
  lemma ConnectionLine(s: State, g: Given, f: Flags, n: nat, h: Line, rest: string) returns (t: State)
    requires AtHeader(s, g, f, n) && ConnectionHeader(h) && rest != "" && !Blank(rest[0])
    ensures Run(s, LineText(h) + rest) == Run(t, rest)
    ensures AtHeader(t, g, if h.value == "" then f else OptionFlags(f, h.value), n)
    ensures t.events == s.events + LineEvents(h)
  {
    hide Recognised, Lowered, Tokens, Emit, AtValue, AtHeader, Step, Run, Plain, OptionFlags, LineText, SetFlags;
    LineSplit(s, h, rest);
    NameAndBlank(s, g, f, n, h.name);
    var t1 := Run(s, h.name + ":" + " ");
    if h.value == "" {
      RunNothing(t1);
      t := EmptyEnd(t1, g, f, n, Connection, h.name, rest);
      assert s.events + [Data(Field, h.name)] + [Data(Value, "")] == s.events + LineEvents(h);
    } else {
      ListRun(t1, g, f, n, h.value);
      EmitValue(s.events, h.name, h.value);
      var t2 := Run(t1, h.value);
      t := LineEnd(t2, g, t2.core.frame.flags, n, t2.core.name.header, rest);
    }
  }

  /** An `Upgrade` header is reported, and sets its flag. */
  lemma UpgradeLine(s: State, g: Given, f: Flags, n: nat, h: Line, rest: string) returns (t: State)
    requires AtHeader(s, g, f, n) && UpgradeHeader(h) && rest != "" && !Blank(rest[0])
    ensures Run(s, LineText(h) + rest) == Run(t, rest)
    ensures AtHeader(t, g, if h.value == "" then f else f.(upgrade := true), n)
    ensures t.events == s.events + LineEvents(h)
  {
    hide Recognised, Lowered, Tokens, Emit, AtValue, AtHeader, InValue, Step, Run, Plain, LineText;
    LineSplit(s, h, rest);
    NameAndBlank(s, g, f, n, h.name);
    var t1 := Run(s, h.name + ":" + " ");
    if h.value == "" {
      RunNothing(t1);
      t := EmptyEnd(t1, g, f, n, Upgrade, h.name, rest);
      assert s.events + [Data(Field, h.name)] + [Data(Value, "")] == s.events + LineEvents(h);
    } else {
      UpgradeRun(t1, g, f, n, h.value);
      EmitValue(s.events, h.name, h.value);
      t := LineEnd(Run(t1, h.value), g, f.(upgrade := true), n, General, rest);
    }
  }

  lemma UpgradeRun(s: State, g: Given, f: Flags, n: nat, x: string)
    requires AtValue(s, g, f, n, Upgrade) && x != "" && !Blank(x[0]) && Plain(x)
    ensures InValue(Run(s, x), g, f.(upgrade := true), n, General) && Run(s, x).events == Emit(s.events, Value, x)
  {
    hide Step, Run, AtValue, IsHeaderChar, Plain, Emit;
    var c, r := x[0], x[1..];
    assert x == [c] + r;
    PlainFirstChar(c, r);
    UpgradeStart(s, g, f, n, c);
    RunFirst(s, c, r);
    var t := Step(s, c);
    GeneralRun(t, g, f.(upgrade := true), n, r);
    if r == "" {
      RunNothing(t);
      assert x == [c];
    } else {
      TextEvents(t, r);
      EmitTwice(s.events, Value, [c], r);
    }
  }

  lemma UpgradeStart(s: State, g: Given, f: Flags, n: nat, c: char)
    requires AtValue(s, g, f, n, Upgrade) && TextChar(c) && !Blank(c)
    ensures InValue(Step(s, c), g, f.(upgrade := true), n, General) && Step(s, c).events == Emit(s.events, Value, [c])
  {
    hide Step, IsHeaderChar, Lower;
    ValueFirst(s, c);
  }

  // ---------------------------------------------------------------- what the lists mean

  /** Only the flags of the three options are touched. */
  lemma EffectOnly(f: Flags, q: string)
    ensures var r := Effect(f, q); r == f.(keepAlive := r.keepAlive, close := r.close, connUpgrade := r.connUpgrade)
  {
    hide Spells;
  }

  lemma {:induction false} LaterOnly(f: Flags, es: seq<string>)
    ensures var r := Later(f, es); r == f.(keepAlive := r.keepAlive, close := r.close, connUpgrade := r.connUpgrade)
    decreases |es|
  {
    hide Effect, Unfinished, Lower, Token;
    if es != [] {
      var e := Stripped(es[0]);
      EffectOnly(f, e);
      if e == "" || Token(Lower(e[0])) == NUL {
      } else if Unfinished(e) {
        if |es| > 1 {
          LaterOnly(f, es[2..]);
        }
      } else {
        LaterOnly(Effect(f, e), es[1..]);
      }
    }
  }

  lemma OptionsOnly(f: Flags, x: string)
    ensures var r := OptionFlags(f, x);
            r == f.(keepAlive := r.keepAlive, close := r.close, connUpgrade := r.connUpgrade)
  {
    hide Effect, Unfinished, Later;
    var es := Elements(x);
    EffectOnly(f, es[0]);
    if es[0] == "" || Unfinished(es[0]) {
      if |es| > 1 {
        LaterOnly(f, es[2..]);
      }
    } else {
      LaterOnly(Effect(f, es[0]), es[1..]);
    }
  }

  lemma NoCommaElements(x: string)
    requires NoComma(x)
    ensures Elements(x) == [x]
  {
    var es := Elements(x);
    if |es| > 1 {
      TwoElements(es);
    }
  }

  lemma TwoElements(es: seq<string>)
    requires |es| > 1
    ensures !NoComma(Commas(es))
  {
    assert Commas(es)[|es[0]|] == ',';
  }

  /** A whole option: not empty, starting like a token, and not cut off in the middle of a word. */
  predicate Readable(e: string) {
    var o := Stripped(e); o != "" && Token(Lower(o[0])) != NUL && !Unfinished(o)
  }

  ghost predicate Listed(es: seq<string>, word: string) {
    exists i :: 0 <= i < |es| && Spells(Stripped(es[i]), word)
  }

  /** These flags are set, beside those of `f`: the ones whose words are in the list. */
  ghost predicate Union(r: Flags, f: Flags, es: seq<string>) {
    && (r.keepAlive <==> f.keepAlive || Listed(es, "keep-alive"))
    && (r.close <==> f.close || Listed(es, "close"))
    && (r.connUpgrade <==> f.connUpgrade || Listed(es, "upgrade"))
  }

  lemma OneEffect(f: Flags, q: string)
    requires q != ""
    ensures var r := Effect(f, q);
            && r.keepAlive == (f.keepAlive || Spells(q, "keep-alive")) && r.close == (f.close || Spells(q, "close"))
            && r.connUpgrade == (f.connUpgrade || Spells(q, "upgrade"))
  {
    hide Spells, Lower;
    FirstLetters(q);
  }

  lemma ListedMore(e: string, es: seq<string>, word: string)
    ensures Listed([e] + es, word) <==> Spells(Stripped(e), word) || Listed(es, word)
  {
    hide Spells, Stripped;
    var all := [e] + es;
    assert all[0] == e;
    if i :| 0 <= i < |es| && Spells(Stripped(es[i]), word) {
      assert all[i + 1] == es[i];
    }
  }

  lemma UnionMore(r: Flags, f: Flags, e: string, es: seq<string>)
    requires Stripped(e) != "" && Union(r, Effect(f, Stripped(e)), es)
    ensures Union(r, f, [e] + es)
  {
    hide Spells, Stripped, Listed, Effect;
    OneEffect(f, Stripped(e));
    ListedMore(e, es, "keep-alive");
    ListedMore(e, es, "close");
    ListedMore(e, es, "upgrade");
  }

  lemma {:induction false} LaterMeans(f: Flags, es: seq<string>)
    requires forall i :: 0 <= i < |es| ==> Readable(es[i])
    ensures Union(Later(f, es), f, es)
    decreases |es|
  {
    hide Effect, Unfinished, Lower, Token, Spells, Stripped;
    if es != [] {
      var e := Stripped(es[0]);
      assert Readable(es[0]);
      LaterMeans(Effect(f, e), es[1..]);
      UnionMore(Later(f, es), f, es[0], es[1..]);
      assert [es[0]] + es[1..] == es;
    }
  }

  /** A list of whole options sets exactly the flags of the words in it, wherever they stand and in any mixture of
      cases. */
  lemma ListMeans(f: Flags, x: string)
    requires x != "" && x[0] != ' ' && forall i :: 0 <= i < |Elements(x)| ==> Readable(Elements(x)[i])
    ensures Union(OptionFlags(f, x), f, Elements(x))
  {
    hide Effect, Unfinished, Lower, Token, Spells, Union;
    var es := Elements(x);
    assert Readable(es[0]);
    CommasFirst(es);
    assert Stripped(es[0]) == es[0];
    var r := es[1..];
    LaterMeans(Effect(f, es[0]), r);
    UnionMore(OptionFlags(f, x), f, es[0], r);
    assert [es[0]] + r == es;
  }

  lemma CommasFirst(es: seq<string>)
    requires es != [] && es[0] != ""
    ensures Commas(es) != "" && Commas(es)[0] == es[0][0]
  {
  }

  /** An option that is a beginning of one of the words takes the next option with it: in `k, close` the parser
      finds no `close`. */
  lemma CloseSwallowed()
    ensures OptionFlags(NONE, "k, close") == NONE
  {
    hide Later, Effect, Stripped, FirstComma;
    TwoOptions();
    assert Lowers("k") == "k" && "keep-alive"[..1] == "k";
    assert Unfinished("k");
    assert ["k", " close"][2..] == [];
    LaterNothing(NONE);
  }

  lemma LaterNothing(f: Flags)
    ensures Later(f, []) == f
  {
  }

  lemma TwoOptions()
    ensures Elements("k, close") == ["k", " close"]
  {
    var x := "k, close";
    NoCommaElements(" close");
    assert FirstComma(x) == 1 by {
      assert x[0] != ',' && x[1] == ',';
      assert FirstComma(x[1..]) == 0;
    }
    assert x[2..] == " close" && x[..1] == "k";
  }
}
