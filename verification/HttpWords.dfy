/** The incremental matchers of the HTTP parser recognise exactly what they are meant to: the header
    names it acts on, and the request methods. */
module HttpWords {
  import opened HttpChars
  import opened HttpStep
  import opened HttpTrace
  import opened HttpInvariant
  import opened Folding

  // ---------------------------------------------------------------- header names

  const CONNECTION := "connection"
  const PROXY_CONNECTION := "proxy-connection"
  const CONTENT_LENGTH := "content-length"
  const TRANSFER_ENCODING := "transfer-encoding"
  const UPGRADE := "upgrade"

  predicate Tokens(name: string) {
    forall i :: 0 <= i < |name| ==> Token(name[i]) != NUL
  }

  /** A header name in lower case. */
  function Lowered(name: string): (r: string)
    ensures |r| == |name|
  {
    seq(|name|, i requires 0 <= i < |name| => Token(name[i]))
  }

  /** The header state for a complete name. */
  function Recognised(q: string): Header {
    if q == CONNECTION || q == PROXY_CONNECTION then Connection
    else if q == CONTENT_LENGTH then ContentLength
    else if q == TRANSFER_ENCODING then TransferEncoding
    else if q == UPGRADE then Upgrade
    else General
  }

  /** The matcher after the lower-case letters `q`: how far which keyword agrees. */
  predicate Reads(q: string, m: Matcher) {
    match m.header
    case General => Foreign(q, CONNECTION) && Foreign(q, CONTENT_LENGTH) && Other(q)
    case C => q == "c" && m.index == 0
    case CO => q == "co" && m.index == 1
    case CON => q == "con" && m.index == 2
    case MatchConnection => PartOf(q, m, CONNECTION) && m.index >= 3
    case MatchContentLength => PartOf(q, m, CONTENT_LENGTH) && m.index >= 3
    case MatchProxyConnection => PartOf(q, m, PROXY_CONNECTION)
    case MatchTransferEncoding => PartOf(q, m, TRANSFER_ENCODING)
    case MatchUpgrade => PartOf(q, m, UPGRADE)
    case Connection => q == CONNECTION || q == PROXY_CONNECTION
    case ContentLength => q == CONTENT_LENGTH
    case TransferEncoding => q == TRANSFER_ENCODING
    case Upgrade => q == UPGRADE
    case _ => false
  }

  /** No prefix of the keyword, in a way the solver can build on: some letter differs or the name is longer. */
  predicate Foreign(q: string, word: string) {
    |q| > |word| || exists i :: 0 <= i < |q| && q[i] != word[i]
  }

  predicate Other(q: string) {
    Foreign(q, PROXY_CONNECTION) && Foreign(q, TRANSFER_ENCODING) && Foreign(q, UPGRADE)
  }

  predicate PartOf(q: string, m: Matcher, word: string) {
    m.index + 1 == |q| < |word| && q == word[..|q|]
  }

  lemma ForeignLonger(q: string, c: char, word: string)
    requires Foreign(q, word)
    ensures Foreign(q + [c], word)
  {
    if |q| <= |word| {
      var i :| 0 <= i < |q| && q[i] != word[i];
      assert (q + [c])[i] != word[i];
    }
  }

  /** A name that starts with another letter, or has another fourth letter. */
  lemma ForeignAt(q: string, word: string, i: nat)
    requires i < |q| && (i >= |word| || q[i] != word[i])
    ensures Foreign(q, word)
  {
  }

  /** One comparison against a keyword. */
  lemma MatchReads(q: string, m: Matcher, word: string, c: char, going: Header, complete: Header)
    requires PartOf(q, m, word)
    ensures var (h, i) := Match(word, m.index, c, going, complete, General);
            if c != word[|q|] then h == General && Foreign(q + [c], word)
            else if |q| + 1 == |word| then h == complete && q + [c] == word
            else h == going && PartOf(q + [c], Matcher(h, i), word)
  {
    if c != word[|q|] {
      ForeignAt(q + [c], word, |q|);
    }
  }

  /** A name that leaves a keyword, or goes beyond it, is no other keyword either: the first letters
      tell the keywords apart, and the fourth tells `connection` from `content-length`. */
  lemma Apart(q: string)
    requires |q| > 0
    ensures q[0] != 'c' ==> Foreign(q, CONNECTION) && Foreign(q, CONTENT_LENGTH)
    ensures q[0] != 'p' ==> Foreign(q, PROXY_CONNECTION)
    ensures q[0] != 't' ==> Foreign(q, TRANSFER_ENCODING)
    ensures q[0] != 'u' ==> Foreign(q, UPGRADE)
    ensures |q| > 3 && q[3] != 'n' ==> Foreign(q, CONNECTION)
    ensures |q| > 3 && q[3] != 't' ==> Foreign(q, CONTENT_LENGTH)
  {
    if q[0] != 'c' {
      ForeignAt(q, CONNECTION, 0);
      ForeignAt(q, CONTENT_LENGTH, 0);
    }
    if q[0] != 'p' {
      ForeignAt(q, PROXY_CONNECTION, 0);
    }
    if q[0] != 't' {
      ForeignAt(q, TRANSFER_ENCODING, 0);
    }
    if q[0] != 'u' {
      ForeignAt(q, UPGRADE, 0);
    }
    if |q| > 3 && q[3] != 'n' {
      ForeignAt(q, CONNECTION, 3);
    }
    if |q| > 3 && q[3] != 't' {
      ForeignAt(q, CONTENT_LENGTH, 3);
    }
  }

  predicate NextReads(q: string, m: Matcher, c: char) {
    var (h, i) := NameChar(m.header, m.index, c);
    Reads(q + [c], Matcher(h, i))
  }

  lemma ReadsConnection(q: string, m: Matcher, c: char)
    requires Reads(q, m) && m.header == MatchConnection
    ensures NextReads(q, m, c)
  {
    hide Foreign, Match;
    MatchReads(q, m, CONNECTION, c, MatchConnection, Connection);
    assert q[0] == 'c' && q[3] == 'n';
    Apart(q + [c]);
  }

  lemma ReadsContentLength(q: string, m: Matcher, c: char)
    requires Reads(q, m) && m.header == MatchContentLength
    ensures NextReads(q, m, c)
  {
    hide Foreign, Match;
    MatchReads(q, m, CONTENT_LENGTH, c, MatchContentLength, ContentLength);
    assert q[0] == 'c' && q[3] == 't';
    Apart(q + [c]);
  }

  lemma ReadsProxy(q: string, m: Matcher, c: char)
    requires Reads(q, m) && m.header == MatchProxyConnection
    ensures NextReads(q, m, c)
  {
    hide Foreign, Match;
    MatchReads(q, m, PROXY_CONNECTION, c, MatchProxyConnection, Connection);
    assert q[0] == 'p';
    Apart(q + [c]);
  }

  lemma ReadsTransferEncoding(q: string, m: Matcher, c: char)
    requires Reads(q, m) && m.header == MatchTransferEncoding
    ensures NextReads(q, m, c)
  {
    hide Foreign, Match;
    MatchReads(q, m, TRANSFER_ENCODING, c, MatchTransferEncoding, TransferEncoding);
    assert q[0] == 't';
    Apart(q + [c]);
  }

  lemma ReadsUpgrade(q: string, m: Matcher, c: char)
    requires Reads(q, m) && m.header == MatchUpgrade
    ensures NextReads(q, m, c)
  {
    hide Foreign, Match;
    MatchReads(q, m, UPGRADE, c, MatchUpgrade, Upgrade);
    assert q[0] == 'u';
    Apart(q + [c]);
  }

  lemma ReadsEarly(q: string, m: Matcher, c: char)
    requires Reads(q, m) && (m.header == C || m.header == CO || m.header == CON)
    ensures NextReads(q, m, c)
  {
    hide Match;
    Apart(q + [c]);
    if (m.header == C && c != 'o') || (m.header == CO && c != 'n') {
      ForeignAt(q + [c], CONNECTION, |q|);
      ForeignAt(q + [c], CONTENT_LENGTH, |q|);
    }
  }

  /** Beyond a complete keyword, or off every keyword, nothing is recognised any more. */
  lemma ReadsLate(q: string, m: Matcher, c: char)
    requires Reads(q, m) && |q| > 0
    requires m.header == General || m.header == Connection || m.header == ContentLength
             || m.header == TransferEncoding || m.header == Upgrade
    ensures NextReads(q, m, c)
  {
    hide Match, Foreign;
    if m.header == General {
      ForeignLonger(q, c, CONNECTION);
      ForeignLonger(q, c, CONTENT_LENGTH);
      ForeignLonger(q, c, PROXY_CONNECTION);
      ForeignLonger(q, c, TRANSFER_ENCODING);
      ForeignLonger(q, c, UPGRADE);
    } else {
      Apart(q + [c]);
      ForeignAtEnd(q + [c]);
    }
  }

  lemma ForeignAtEnd(q: string)
    ensures |q| == |CONNECTION| + 1 ==> Foreign(q, CONNECTION)
    ensures |q| == |CONTENT_LENGTH| + 1 ==> Foreign(q, CONTENT_LENGTH)
    ensures |q| == |PROXY_CONNECTION| + 1 ==> Foreign(q, PROXY_CONNECTION)
    ensures |q| == |TRANSFER_ENCODING| + 1 ==> Foreign(q, TRANSFER_ENCODING)
    ensures |q| == |UPGRADE| + 1 ==> Foreign(q, UPGRADE)
  {
  }

  /** One letter of a name. */
  lemma ReadsNext(q: string, m: Matcher, c: char)
    requires Reads(q, m) && |q| > 0
    ensures NextReads(q, m, c)
  {
    hide NextReads;
    match m.header
    case MatchConnection => ReadsConnection(q, m, c);
    case MatchContentLength => ReadsContentLength(q, m, c);
    case MatchProxyConnection => ReadsProxy(q, m, c);
    case MatchTransferEncoding => ReadsTransferEncoding(q, m, c);
    case MatchUpgrade => ReadsUpgrade(q, m, c);
    case C => ReadsEarly(q, m, c);
    case CO => ReadsEarly(q, m, c);
    case CON => ReadsEarly(q, m, c);
    case _ => ReadsLate(q, m, c);
  }

  // ---------------------------------------------------------------- a whole name

  /** The parser after `n` more bytes of a header: only the matcher and the byte count have moved. */
  function Moved(s: Core, phase: Phase, m: Matcher, n: nat): Core {
    s.(phase := phase, name := m, frame := s.frame.(nread := s.frame.nread + n))
  }

  lemma FirstStep(s: State, c: char)
    requires Running(s.core) && s.core.phase == Heading(HeaderFieldStart) && Token(c) != NUL
    ensures Step(s, c)
        == State(Moved(s.core, Heading(HeaderField), Matcher(FirstLetter(Token(c)), 0), 1), Emit(s.events, Field, [c]))
  {
    hide Token, Emit;
    NoLineEnd(c);
    ApplySingle(s.events, Take(Field), c);
  }

  lemma NoLineEnd(c: char)
    requires Token(c) != NUL
    ensures c != CR && c != LF && c != ':' && c != ' '
  {
  }

  lemma FieldStep(s: State, c: char)
    requires Running(s.core) && s.core.phase == Heading(HeaderField) && Token(c) != NUL
    ensures var (h, i) := NameChar(s.core.name.header, s.core.name.index, Token(c));
            Step(s, c) == State(Moved(s.core, Heading(HeaderField), Matcher(h, i), 1), Emit(s.events, Field, [c]))
  {
    hide Token, NameChar, Emit;
    ApplySingle(s.events, Take(Field), c);
  }

  /** Reading a name: the matcher compares it with every keyword, and the callbacks get the name. */
  lemma {:induction false} NameRun(s: State, name: string)
    requires Running(s.core) && s.core.phase == Heading(HeaderFieldStart) && name != "" && Tokens(name)
    ensures var t := Run(s, name);
            && t.core == Moved(s.core, Heading(HeaderField), t.core.name, |name|)
            && t.events == Emit(s.events, Field, name) && Reads(Lowered(name), t.core.name)
  {
    hide Reads, Emit, Step, NameChar, Token;
    var n := |name| - 1;
    var c := name[n];
    assert name == name[..n] + [c];
    assert Lowered(name) == Lowered(name[..n]) + [Token(c)];
    RunLast(s, name[..n], c);
    if n == 0 {
      assert name[..0] == "";
      FirstStep(s, c);
      FirstReads(Token(c));
      assert Lowered(name) == [Token(c)];
    } else {
      var u := Run(s, name[..n]);
      NameRun(s, name[..n]);
      FieldStep(u, c);
      ReadsNext(Lowered(name[..n]), u.core.name, Token(c));
      EmitTwice(s.events, Field, name[..n], [c]);
    }
  }

  lemma FirstReads(c: char)
    ensures Reads([c], Matcher(FirstLetter(c), 0))
  {
    Apart([c]);
  }

  predicate Special(h: Header) {
    h == Connection || h == ContentLength || h == TransferEncoding || h == Upgrade
  }

  /** A state that only the value of a header leads to. */
  predicate OfValue(h: Header) {
    || h == ContentLengthWs || h == TokenStart || h == Chunked || h == KeepAlive || h == Close
    || h == ConnectionUpgrade
  }

  lemma ReadsWhole(q: string, m: Matcher)
    requires Reads(q, m) && q != ""
    ensures Special(m.header) || Special(Recognised(q)) ==> m.header == Recognised(q)
    ensures !OfValue(m.header)
  {
    hide Foreign;
    NotWords(q);
    Apart(q);
    match m.header
    case MatchConnection => assert q[0] == 'c' && q[3] == 'n';
    case MatchContentLength => assert q[0] == 'c' && q[3] == 't';
    case MatchProxyConnection => assert q[0] == 'p';
    case MatchTransferEncoding => assert q[0] == 't';
    case MatchUpgrade => assert q[0] == 'u';
    case _ =>
  }

  lemma NotWords(q: string)
    ensures Foreign(q, CONNECTION) ==> q != CONNECTION
    ensures Foreign(q, CONTENT_LENGTH) ==> q != CONTENT_LENGTH
    ensures Foreign(q, PROXY_CONNECTION) ==> q != PROXY_CONNECTION
    ensures Foreign(q, TRANSFER_ENCODING) ==> q != TRANSFER_ENCODING
    ensures Foreign(q, UPGRADE) ==> q != UPGRADE
  {
  }

  /** At the colon, the header state is the special one of a keyword exactly when the name is that
      keyword in any mixture of cases. */
  lemma NameRecognised(s: State, name: string)
    requires Running(s.core) && s.core.phase == Heading(HeaderFieldStart) && name != "" && Tokens(name)
    ensures var t := Run(s, name + ":");
            && t.core == Moved(s.core, Heading(ValueDiscardWs), t.core.name, |name| + 1)
            && t.events == Emit(s.events, Field, name)
            && (Special(t.core.name.header) || Special(Recognised(Lowered(name))) ==>
              t.core.name.header == Recognised(Lowered(name)))
            && !OfValue(t.core.name.header)
  {
    hide Emit, Reads, NameChar, Recognised;
    NameRun(s, name);
    var u := Run(s, name);
    RunLast(s, name, ':');
    ApplySingle(u.events, Flush(Field), ':');
    ReadsWhole(Lowered(name), u.core.name);
  }
}
