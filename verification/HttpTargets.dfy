/** Request targets as a client or a proxy's client writes them, and the states of
    lib/libhv/http/http_parser.c that read them. */
module HttpTargets {
  import opened HttpChars
  import opened Options
  import opened HttpStep
  import opened HttpTrace

  /** The characters of a path with its query and fragment. */
  predicate TailText(x: string) {
    forall i :: 0 <= i < |x| ==> IsUrlChar(x[i]) || x[i] == '?' || x[i] == '#'
  }

  /** Host, port and user information, with no two `@` in a row. */
  predicate AuthorityText(x: string) {
    && (forall i :: 0 <= i < |x| ==> IsUserInfo(x[i]) || x[i] == '[' || x[i] == ']' || x[i] == '@')
    && (forall i :: 0 < i < |x| ==> x[i] != '@' || x[i - 1] != '@')
  }

  predicate SchemeText(x: string) {
    x != "" && forall i :: 0 <= i < |x| ==> IsAlpha(x[i])
  }

  /** Behind an authority: nothing, a path or a query. */
  predicate RestText(authority: string, x: string) {
    if x == "" then authority != "" else (x[0] == '/' || x[0] == '?') && TailText(x[1..])
  }

  /** A target in origin form (or the asterisk), or with scheme and authority, as a proxy gets it. */
  ghost predicate UrlText(x: string) {
    || (x != "" && (x[0] == '/' || x[0] == '*') && TailText(x[1..]))
    || exists scheme, authority, rest ::
         && x == Absolute(scheme, authority, rest)
         && SchemeText(scheme) && AuthorityText(authority) && RestText(authority, rest)
  }

  function Absolute(scheme: string, authority: string, rest: string): string {
    scheme + ("://" + (authority + rest))
  }

  /** The states inside a request target in which it may end. */
  predicate LateUrl(at: UrlAt) {
    at != ReqSpacesBeforeUrl && !EarlyUrl(at)
  }

  /** `parse_url_char` on a whole string. */
  function UrlFold(at: UrlAt, x: string): Option<UrlAt>
    decreases |x|
  {
    if x == "" then Some(at)
    else match UrlChar(at, x[0])
      case None => None
      case Some(next) => UrlFold(next, x[1..])
  }

  lemma {:induction false} UrlConcat(at: UrlAt, x: string, y: string)
    ensures UrlFold(at, x + y) == match UrlFold(at, x) case None => None case Some(b) => UrlFold(b, y)
    decreases |x|
  {
    hide UrlChar;
    if x == "" {
      assert x + y == y;
    } else {
      assert (x + y)[1..] == x[1..] + y;
      match UrlChar(at, x[0])
      case None =>
      case Some(next) => UrlConcat(next, x[1..], y);
    }
  }

  predicate InTail(at: UrlAt) {
    || at == ReqPath || at == ReqQueryStringStart || at == ReqQueryString || at == ReqFragmentStart
    || at == ReqFragment
  }

  lemma {:induction false} TailAccepted(at: UrlAt, x: string)
    requires InTail(at) && TailText(x)
    ensures UrlFold(at, x).Some? && InTail(UrlFold(at, x).value)
    decreases |x|
  {
    if x != "" {
      TailStep(at, x[0]);
      TailAccepted(UrlChar(at, x[0]).value, x[1..]);
    }
  }

  lemma TailStep(at: UrlAt, c: char)
    requires InTail(at) && (IsUrlChar(c) || c == '?' || c == '#')
    ensures UrlChar(at, c).Some? && InTail(UrlChar(at, c).value)
  {
  }

  lemma {:induction false} AuthorityAccepted(at: UrlAt, x: string)
    requires at == ReqServerStart || at == ReqServer || at == ReqServerWithAt
    requires AuthorityText(x) && (x != "" && at == ReqServerWithAt ==> x[0] != '@')
    ensures UrlFold(at, x) == Some(at) || UrlFold(at, x) == Some(ReqServer) || UrlFold(at, x) == Some(ReqServerWithAt)
    ensures x != "" ==> UrlFold(at, x) != Some(ReqServerStart)
    decreases |x|
  {
    if x != "" {
      AuthorityStep(at, x[0]);
      AuthorityAccepted(UrlChar(at, x[0]).value, x[1..]);
    }
  }

  lemma AuthorityStep(at: UrlAt, c: char)
    requires at == ReqServerStart || at == ReqServer || (at == ReqServerWithAt && c != '@')
    requires IsUserInfo(c) || c == '[' || c == ']' || c == '@'
    ensures UrlChar(at, c) == Some(if c == '@' then ReqServerWithAt else ReqServer)
  {
  }

  lemma {:induction false} SchemeAccepted(at: UrlAt, x: string)
    requires (at == ReqSpacesBeforeUrl || at == ReqSchema) && forall i :: 0 <= i < |x| ==> IsAlpha(x[i])
    ensures UrlFold(at, x) == Some(if x == "" then at else ReqSchema)
    decreases |x|
  {
    if x != "" {
      SchemeAccepted(ReqSchema, x[1..]);
    }
  }

  lemma ColonSlashSlash()
    ensures UrlFold(ReqSchema, "://") == Some(ReqServerStart)
  {
    assert "://"[1..] == "//" && "//"[1..] == "/" && "/"[1..] == "";
    assert UrlFold(ReqServerStart, "") == Some(ReqServerStart);
    assert UrlFold(ReqSchemaSlashSlash, "/") == Some(ReqServerStart);
    assert UrlFold(ReqSchemaSlash, "//") == Some(ReqServerStart);
  }

  lemma RestAccepted(at: UrlAt, authority: string, x: string)
    requires at == ReqServerStart || at == ReqServer || at == ReqServerWithAt
    requires (at == ReqServerStart ==> authority == "") && RestText(authority, x)
    ensures UrlFold(at, x).Some? && LateUrl(UrlFold(at, x).value)
  {
    if x != "" {
      TailAccepted(UrlChar(at, x[0]).value, x[1..]);
    }
  }

  /** Every such target is accepted, and may end where it does. */
  lemma UrlAccepted(x: string)
    requires UrlText(x)
    ensures x != "" && UrlFold(ReqSpacesBeforeUrl, x).Some? && LateUrl(UrlFold(ReqSpacesBeforeUrl, x).value)
  {
    hide TailText, AuthorityText, IsUrlChar, IsUserInfo, IsAlpha;
    if x != "" && (x[0] == '/' || x[0] == '*') && TailText(x[1..]) {
      TailAccepted(ReqPath, x[1..]);
    } else {
      var scheme, authority, rest :| && x == Absolute(scheme, authority, rest)
         && SchemeText(scheme) && AuthorityText(authority) && RestText(authority, rest);
      AbsoluteAccepted(scheme, authority, rest);
    }
  }

  lemma AbsoluteAccepted(scheme: string, authority: string, rest: string)
    requires SchemeText(scheme) && AuthorityText(authority) && RestText(authority, rest)
    ensures var r := UrlFold(ReqSpacesBeforeUrl, Absolute(scheme, authority, rest)); r.Some? && LateUrl(r.value)
  {
    hide UrlFold, AuthorityText, RestText;
    SchemeAccepted(ReqSpacesBeforeUrl, scheme);
    UrlConcat(ReqSpacesBeforeUrl, scheme, "://" + (authority + rest));
    ColonSlashSlash();
    UrlConcat(ReqSchema, "://", authority + rest);
    AuthorityAccepted(ReqServerStart, authority);
    UrlConcat(ReqServerStart, authority, rest);
    RestAccepted(UrlFold(ReqServerStart, authority).value, authority, rest);
  }

  lemma UrlStep(s: State, at: UrlAt, c: char)
    requires Running(s.core) && s.core.phase == Target(at) && UrlChar(at, c).Some?
    requires at == ReqSpacesBeforeUrl ==> s.core.line.verb != CONNECT
    ensures Step(s, c) == State(Counted(s.core).(phase := Target(UrlChar(at, c).value)), Emit(s.events, Url, [c]))
  {
    hide Emit;
    ApplySingle(s.events, Take(Url), c);
  }

  lemma {:induction false} UrlRun(s: State, at: UrlAt, x: string)
    requires Running(s.core) && s.core.phase == Target(at)
    requires at == ReqSpacesBeforeUrl ==> s.core.line.verb != CONNECT
    requires x != "" && UrlFold(at, x).Some?
    ensures Run(s, x) == State(s.core.(phase := Target(UrlFold(at, x).value),
                                       frame := s.core.frame.(nread := s.core.frame.nread + |x|)),
                               Emit(s.events, Url, x))
    decreases |x|
  {
    hide Emit, Step, UrlChar;
    var c, r := x[0], x[1..];
    assert x == [c] + r;
    RunFirst(s, c, r);
    UrlStep(s, at, c);
    NotBack(at, c);
    if r == "" {
      assert x == [c] && Run(Step(s, c), "") == Step(s, c);
    } else {
      UrlRun(Step(s, c), UrlChar(at, c).value, r);
      EmitTwice(s.events, Url, [c], r);
    }
  }

  lemma NotBack(at: UrlAt, c: char)
    ensures UrlChar(at, c) != Some(ReqSpacesBeforeUrl)
  {
  }

  lemma ConnectStep(s: State, c: char)
    requires Running(s.core) && s.core.phase == Target(ReqSpacesBeforeUrl) && s.core.line.verb == CONNECT
    requires c != ' ' && UrlChar(ReqServerStart, c).Some?
    ensures Step(s, c)
         == State(Counted(s.core).(phase := Target(UrlChar(ReqServerStart, c).value)), Emit(s.events, Url, [c]))
  {
    hide Emit;
    ApplySingle(s.events, Take(Url), c);
  }

  lemma NothingRun(s: State)
    ensures Run(s, "") == s
  {
  }

  lemma NoBlankInTarget(at: UrlAt, c: char)
    requires UrlChar(at, c).Some?
    ensures c != ' '
  {
  }

  // ---------------------------------------------------------------- nothing else is accepted

  lemma {:induction false} TailOnly(at: UrlAt, x: string)
    requires InTail(at) && UrlFold(at, x).Some?
    ensures TailText(x) && InTail(UrlFold(at, x).value)
    decreases |x|
  {
    hide UrlChar;
    if x != "" {
      TailStepOnly(at, x[0]);
      TailOnly(UrlChar(at, x[0]).value, x[1..]);
      assert x == [x[0]] + x[1..];
    }
  }

  lemma TailStepOnly(at: UrlAt, c: char)
    requires InTail(at) && UrlChar(at, c).Some?
    ensures (IsUrlChar(c) || c == '?' || c == '#') && InTail(UrlChar(at, c).value)
  {
  }

  predicate InServer(at: UrlAt) {
    at == ReqServerStart || at == ReqServer || at == ReqServerWithAt
  }

  lemma ServerStepOnly(at: UrlAt, c: char)
    requires InServer(at) && UrlChar(at, c).Some?
    ensures var r := UrlChar(at, c).value;
            if c == '/' || c == '?' then InTail(r)
            else r == (if c == '@' then ReqServerWithAt else ReqServer) && (at == ReqServerWithAt ==> c != '@')
                 && (IsUserInfo(c) || c == '[' || c == ']' || c == '@')
  {
  }

  /** Where the authority ends. */
  lemma {:induction false} AuthorityOnly(at: UrlAt, x: string) returns (k: nat)
    requires InServer(at) && UrlFold(at, x).Some?
    ensures k <= |x| && AuthorityText(x[..k]) && (k > 0 && at == ReqServerWithAt ==> x[0] != '@')
    ensures k < |x| ==> (x[k] == '/' || x[k] == '?') && TailText(x[k + 1..])
    decreases |x|
  {
    hide UrlChar, IsUserInfo, TailText;
    k := 0;
    if x != "" {
      var c, y := x[0], x[1..];
      ServerStepOnly(at, c);
      var next := UrlChar(at, c).value;
      if c == '/' || c == '?' {
        TailOnly(next, y);
      } else {
        var j := AuthorityOnly(next, y);
        k := j + 1;
        assert x[..k] == [c] + y[..j];
        AuthorityMore(c, y[..j]);
        assert j < |y| ==> y[j + 1..] == x[k + 1..];
      }
    }
  }

  lemma AuthorityMore(c: char, x: string)
    requires AuthorityText(x) && (IsUserInfo(c) || c == '[' || c == ']' || c == '@')
    requires x != "" && c == '@' ==> x[0] != '@'
    ensures AuthorityText([c] + x)
  {
    hide IsUserInfo;
  }

  /** Where the scheme ends. */
  lemma {:induction false} SchemeOnly(x: string) returns (k: nat)
    requires UrlFold(ReqSchema, x).Some? && LateUrl(UrlFold(ReqSchema, x).value)
    ensures k + 3 <= |x| && (forall i :: 0 <= i < k ==> IsAlpha(x[i])) && x[k..k + 3] == "://"
    ensures UrlFold(ReqServerStart, x[k + 3..]) == UrlFold(ReqSchema, x)
    decreases |x|
  {
    var c, y := x[0], x[1..];
    if c == ':' {
      k := 0;
      assert UrlFold(ReqSchemaSlash, y).Some? && y != "" && y[0] == '/';
      assert UrlFold(ReqSchemaSlashSlash, y[1..]).Some? && y[1..] != "" && y[1..][0] == '/';
      assert y[1..][1..] == x[3..];
    } else {
      var j := SchemeOnly(y);
      k := j + 1;
      assert y[j..j + 3] == x[k..k + 3] && y[j + 3..] == x[k + 3..];
    }
  }

  /** What may stand behind CONNECT: an authority, and whatever may follow one. */
  ghost predicate ConnectText(x: string) {
    x != "" && exists authority, rest :: Split(x, authority, rest)
  }

  predicate Split(x: string, authority: string, rest: string) {
    x == authority + rest && AuthorityText(authority) && RestText(authority, rest)
  }

  lemma ConnectExact(x: string)
    requires x != ""
    ensures UrlFold(ReqServerStart, x).Some? <==> ConnectText(x)
    ensures UrlFold(ReqServerStart, x).Some? ==> LateUrl(UrlFold(ReqServerStart, x).value)
  {
    hide UrlFold, AuthorityText, TailText, UrlChar;
    if UrlFold(ReqServerStart, x).Some? {
      var k := AuthorityOnly(ReqServerStart, x);
      assert x == x[..k] + x[k..];
      assert k < |x| ==> x[k..][1..] == x[k + 1..];
      assert Split(x, x[..k], x[k..]);
    }
    if ConnectText(x) {
      var authority, rest :| Split(x, authority, rest);
      AuthorityAccepted(ReqServerStart, authority);
      UrlConcat(ReqServerStart, authority, rest);
      RestAccepted(UrlFold(ReqServerStart, authority).value, authority, rest);
    }
  }

  /** The targets that are accepted and may end where they do are exactly those. */
  lemma UrlExact(x: string)
    requires x != ""
    ensures UrlFold(ReqSpacesBeforeUrl, x).Some? && LateUrl(UrlFold(ReqSpacesBeforeUrl, x).value) <==> UrlText(x)
  {
    hide AuthorityText, TailText, IsUrlChar, IsUserInfo, IsAlpha;
    var r := UrlFold(ReqSpacesBeforeUrl, x);
    if r.Some? && LateUrl(r.value) {
      if x[0] == '/' || x[0] == '*' {
        TailOnly(ReqPath, x[1..]);
      } else {
        AbsoluteOnly(x);
      }
    }
    if UrlText(x) {
      UrlAccepted(x);
    }
  }

  lemma AbsoluteOnly(x: string)
    requires x != "" && IsAlpha(x[0]) && UrlFold(ReqSchema, x[1..]).Some? && LateUrl(UrlFold(ReqSchema, x[1..]).value)
    ensures UrlText(x)
  {
    hide AuthorityText, TailText, IsAlpha, UrlFold;
    var j := SchemeOnly(x[1..]);
    var scheme, y := x[..j + 1], x[j + 4..];
    assert x[1..][j..j + 3] == x[j + 1..j + 4] && x[1..][j + 3..] == y;
    assert x == scheme + (x[j + 1..j + 4] + y);
    assert forall i :: 0 < i < |scheme| ==> scheme[i] == x[1..][i - 1];
    if y == "" {
      NothingFolded();
    } else {
      ConnectExact(y);
      var authority, rest :| Split(y, authority, rest);
      assert x == Absolute(scheme, authority, rest);
    }
  }

  lemma NothingFolded()
    ensures UrlFold(ReqServerStart, "") == Some(ReqServerStart)
  {
  }

  /** The target of CONNECT is read as if the scheme stood before it. */
  lemma ConnectRun(s: State, x: string) returns (at: UrlAt)
    requires Running(s.core) && s.core.phase == Target(ReqSpacesBeforeUrl) && s.core.line.verb == CONNECT
    requires ConnectText(x)
    ensures LateUrl(at)
    ensures Run(s, x) == State(s.core.(phase := Target(at),
                                       frame := s.core.frame.(nread := s.core.frame.nread + |x|)),
                               Emit(s.events, Url, x))
  {
    hide Emit, Step, UrlChar, Run, IsUserInfo, Split;
    var c, r := x[0], x[1..];
    assert x == [c] + r;
    ConnectExact(x);
    NoBlankInTarget(ReqServerStart, c);
    NotBack(ReqServerStart, c);
    ConnectStep(s, c);
    RunFirst(s, c, r);
    at := UrlFold(ReqServerStart, x).value;
    if r == "" {
      assert x == [c];
      NothingRun(Step(s, c));
    } else {
      UrlRun(Step(s, c), UrlChar(ReqServerStart, c).value, r);
      EmitTwice(s.events, Url, [c], r);
    }
  }

  // ---------------------------------------------------------------- the whole target

  predicate NoBreak(x: string) {
    forall i :: 0 <= i < |x| ==> x[i] != ' ' && x[i] != CR && x[i] != LF
  }

  lemma RefusedStep(s: State, at: UrlAt, c: char)
    requires Running(s.core) && s.core.phase == Target(at) && c != ' ' && c != CR && c != LF
    requires UrlChar(if at == ReqSpacesBeforeUrl && s.core.line.verb == CONNECT then ReqServerStart else at, c).None?
    ensures Step(s, c).core.errno == INVALID_URL
  {
  }

  lemma {:induction false} UrlRefused(s: State, at: UrlAt, x: string)
    requires Running(s.core) && s.core.phase == Target(at) && NoBreak(x) && UrlFold(at, x).None?
    requires at == ReqSpacesBeforeUrl ==> s.core.line.verb != CONNECT
    ensures Run(s, x).core.errno == INVALID_URL
    decreases |x|
  {
    hide Step, UrlChar;
    var c, r := x[0], x[1..];
    assert x == [c] + r;
    RunFirst(s, c, r);
    if UrlChar(at, c).None? {
      RefusedStep(s, at, c);
      Stopped(Step(s, c), r);
    } else {
      UrlStep(s, at, c);
      NotBack(at, c);
      UrlRefused(Step(s, c), UrlChar(at, c).value, r);
    }
  }

  lemma TargetEnd(s: State, at: UrlAt)
    requires Running(s.core) && s.core.phase == Target(at) && at != ReqSpacesBeforeUrl
    ensures var t := Step(s, ' ');
            if LateUrl(at) then Running(t.core) && t.core.phase == Version(ReqHttpStart) && t.events == s.events
            else t.core.errno == INVALID_URL
  {
    ApplySingle(s.events, Flush(Url), ' ');
  }

  lemma {:induction false} NeverBack(at: UrlAt, x: string)
    requires x != "" || at != ReqSpacesBeforeUrl
    ensures UrlFold(at, x) != Some(ReqSpacesBeforeUrl)
    decreases |x|
  {
    hide UrlChar;
    if x != "" && UrlChar(at, x[0]).Some? {
      NotBack(at, x[0]);
      NeverBack(UrlChar(at, x[0]).value, x[1..]);
    }
  }

  lemma UrlReadExactly(s: State, x: string)
    requires Running(s.core) && s.core.phase == Target(ReqSpacesBeforeUrl) && s.core.line.verb != CONNECT
    requires x != "" && NoBreak(x)
    ensures var t := Run(s, x + " ");
            if UrlText(x) then Running(t.core) && t.core.phase == Version(ReqHttpStart)
                               && t.events == Emit(s.events, Url, x)
            else t.core.errno == INVALID_URL
  {
    hide Step, UrlFold, UrlText, Emit, LateUrl, NoBreak;
    UrlExact(x);
    RunLast(s, x, ' ');
    NeverBack(ReqSpacesBeforeUrl, x);
    if UrlFold(ReqSpacesBeforeUrl, x).Some? {
      UrlRun(s, ReqSpacesBeforeUrl, x);
      TargetEnd(Run(s, x), UrlFold(ReqSpacesBeforeUrl, x).value);
    } else {
      UrlRefused(s, ReqSpacesBeforeUrl, x);
      Halted(Run(s, x), ' ');
    }
  }

  lemma Halted(s: State, c: char)
    requires s.core.errno != OK
    ensures Step(s, c) == s
  {
  }

  lemma ConnectReadExactly(s: State, x: string)
    requires Running(s.core) && s.core.phase == Target(ReqSpacesBeforeUrl) && s.core.line.verb == CONNECT
    requires x != "" && NoBreak(x)
    ensures var t := Run(s, x + " ");
            if ConnectText(x) then Running(t.core) && t.core.phase == Version(ReqHttpStart)
                                   && t.events == Emit(s.events, Url, x)
            else t.core.errno == INVALID_URL
  {
    hide Step, ConnectText, Emit, LateUrl, UrlChar;
    ConnectExact(x);
    RunLast(s, x, ' ');
    var c, r := x[0], x[1..];
    assert x == [c] + r;
    RunFirst(s, c, r);
    NotBack(ReqServerStart, c);
    if ConnectText(x) {
      var at := ConnectRun(s, x);
      LateEnds(at);
      TargetEnd(Run(s, x), at);
    } else if UrlChar(ReqServerStart, c).None? {
      RefusedStep(s, ReqSpacesBeforeUrl, c);
      Stopped(Step(s, c), r);
      Halted(Run(s, x), ' ');
    } else {
      ConnectStep(s, c);
      UrlRefused(Step(s, c), UrlChar(ReqServerStart, c).value, r);
      Halted(Run(s, x), ' ');
    }
  }

  lemma LateEnds(at: UrlAt)
    requires LateUrl(at)
    ensures at != ReqSpacesBeforeUrl
  {
  }

  /** A word before a blank is accepted as a target if and only if it is one: of those above, or, for CONNECT, an
      authority with what may follow it; then it is handed to the URL callback whole. Otherwise the error is
      HPE_INVALID_URL. */
  lemma TargetExact(s: State, x: string)
    requires Running(s.core) && s.core.phase == Target(ReqSpacesBeforeUrl) && x != "" && NoBreak(x)
    ensures var t := Run(s, x + " ");
            && (Running(t.core) <==> if s.core.line.verb == CONNECT then ConnectText(x) else UrlText(x))
            && (if Running(t.core) then t.core.phase == Version(ReqHttpStart) && t.events == Emit(s.events, Url, x)
                else t.core.errno == INVALID_URL)
  {
    hide Run, UrlText, ConnectText;
    if s.core.line.verb == CONNECT {
      ConnectReadExactly(s, x);
    } else {
      UrlReadExactly(s, x);
    }
  }
}
