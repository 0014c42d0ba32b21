/** The request method: what `http_parser_execute` recognises by guessing and correcting its guess
    is exactly the table of method names. */
module HttpMethods {
  import opened HttpChars
  import opened Options
  import opened HttpStep
  import opened HttpTrace
  import opened HttpInvariant
  import opened Folding

  lemma Letters(m: Method, i: nat)
    requires i < |Name(m)|
    ensures Name(m)[i] != ' ' && Name(m)[i] != NUL && ('A' <= Name(m)[i] <= 'Z' || Name(m)[i] == '-')
  {
    hide Name;
    assert Capital(Name(m)[i]);
  }

  /** The guess after `i` letters of the name of `m`. */
  function GuessAt(m: Method, i: nat): Method {
    match m
    case PUT => if i <= 1 then POST else m
    case PATCH => if i <= 1 then POST else m
    case PROPFIND => if i <= 1 then POST else m
    case PROPPATCH => if i <= 1 then POST else if i <= 4 then PROPFIND else m
    case PURGE => if i <= 1 then POST else if i <= 2 then PUT else m
    case CHECKOUT => if i <= 1 then CONNECT else m
    case COPY => if i <= 2 then CONNECT else m
    case MOVE => if i <= 1 then MKCOL else m
    case MERGE => if i <= 1 then MKCOL else m
    case MSEARCH => if i <= 1 then MKCOL else m
    case MKACTIVITY => if i <= 2 then MKCOL else m
    case MKCALENDAR => if i <= 3 then MKCOL else m
    case SEARCH => if i <= 1 then SUBSCRIBE else m
    case SOURCE => if i <= 1 then SUBSCRIBE else m
    case REBIND => if i <= 2 then REPORT else m
    case LINK => if i <= 1 then LOCK else m
    case UNSUBSCRIBE => if i <= 2 then UNLOCK else m
    case UNBIND => if i <= 2 then UNLOCK else m
    case UNLINK => if i <= 3 then UNLOCK else m
    case _ => m
  }

  /** The next letter of `m` either fits the guess, or turns it into the next one. */
  predicate Leads(m: Method, i: nat) {
    var g, n := GuessAt(m, i), GuessAt(m, i + 1);
    i < |Name(m)| &&
      if i < |Name(g)| && Name(m)[i] == Name(g)[i] then n == g
      else NextGuess(g, i, Name(m)[i]) == Some(n)
  }

  lemma LeadsSettled(m: Method, i: nat)
    requires GuessAt(m, i) == m && i < |Name(m)|
    ensures Leads(m, i)
  {
    hide Name;
  }

  /** A method whose first guess was another one, until the letter `n` told them apart. */
  lemma LeadsBranch(a: Method, b: Method, n: nat, i: nat)
    requires 1 <= i <= n < |Name(b)| && Branches(a, b, n, Name(b)[n]) && NextGuess(a, n, Name(b)[n]) == Some(b)
    requires GuessAt(b, i) == a && GuessAt(b, i + 1) == if i == n then b else a
    ensures Leads(b, i)
  {
    hide Name, NextGuess, GuessAt;
  }

  lemma LeadsP(m: Method, i: nat)
    requires m == PUT || m == PATCH || m == PROPFIND || m == PROPPATCH || m == PURGE
    requires 1 <= i < |Name(m)| && GuessAt(m, i) != m
    ensures Leads(m, i)
  {
    hide Name, Leads;
    BranchesP();
    if i > 1 && m == PROPPATCH {
      LeadsBranch(PROPFIND, m, 4, i);
    } else if i > 1 && m == PURGE {
      LeadsBranch(PUT, m, 2, i);
    } else if m == PROPPATCH || m == PURGE {
      LeadsTwice();
    } else {
      LeadsBranch(POST, m, 1, i);
    }
  }

  lemma LeadsTwice()
    ensures Leads(PROPPATCH, 1) && Leads(PURGE, 1)
  {
    hide Name;
    BranchesP();
  }

  lemma LeadsM(m: Method, i: nat)
    requires m == MOVE || m == MERGE || m == MSEARCH || m == MKACTIVITY || m == MKCALENDAR
    requires 1 <= i < |Name(m)| && GuessAt(m, i) != m
    ensures Leads(m, i)
  {
    hide Name, Leads;
    BranchesM();
    LeadsBranch(MKCOL, m, if m == MKACTIVITY then 2 else if m == MKCALENDAR then 3 else 1, i);
  }

  lemma LeadsU(m: Method, i: nat)
    requires m == UNSUBSCRIBE || m == UNBIND || m == UNLINK || m == LINK
    requires 1 <= i < |Name(m)| && GuessAt(m, i) != m
    ensures Leads(m, i)
  {
    hide Name, Leads;
    BranchesU();
    if m == LINK {
      LeadsBranch(LOCK, m, 1, i);
    } else {
      LeadsBranch(UNLOCK, m, if m == UNLINK then 3 else 2, i);
    }
  }

  lemma LeadsCS(m: Method, i: nat)
    requires m == CHECKOUT || m == COPY || m == SEARCH || m == SOURCE || m == REBIND
    requires 1 <= i < |Name(m)| && GuessAt(m, i) != m
    ensures Leads(m, i)
  {
    hide Name, Leads;
    BranchesC();
    BranchesS();
    if m == CHECKOUT || m == COPY {
      LeadsBranch(CONNECT, m, if m == COPY then 2 else 1, i);
    } else if m == REBIND {
      LeadsBranch(REPORT, m, 2, i);
    } else {
      LeadsBranch(SUBSCRIBE, m, 1, i);
    }
  }

  lemma LeadsAlways(m: Method, i: nat)
    requires 1 <= i < |Name(m)|
    ensures Leads(m, i)
  {
    hide Name, Leads;
    if GuessAt(m, i) == m {
      LeadsSettled(m, i);
    } else {
      if m == PUT || m == PATCH || m == PROPFIND || m == PROPPATCH || m == PURGE {
        LeadsP(m, i);
      } else if m == MOVE || m == MERGE || m == MSEARCH || m == MKACTIVITY || m == MKCALENDAR {
        LeadsM(m, i);
      } else if m == CHECKOUT || m == COPY || m == SEARCH || m == SOURCE || m == REBIND {
        LeadsCS(m, i);
      } else {
        LeadsU(m, i);
      }
    }
  }

  lemma FirstLetterFits(m: Method)
    ensures |Name(m)| > 0 && FirstGuess(Name(m)[0]) == Some(GuessAt(m, 1))
  {
  }

  lemma FirstGuessFits(c: char)
    requires FirstGuess(c).Some?
    ensures |Name(FirstGuess(c).value)| > 0 && Name(FirstGuess(c).value)[0] == c && IsAlpha(c)
  {
  }

  // ---------------------------------------------------------------- reading a method

  /** The parser inside a method, `n` bytes after the start of the request. */
  function InName(s: Core, m: Method, n: nat): Core {
    s.(phase := ReqMethod, line := s.line.(verb := m), name := s.name.(index := n),
       frame := Framing(NONE, ABSENT, s.frame.nread + n))
  }

  lemma StartStep(s: State, c: char)
    requires Running(s.core) && s.core.phase == Begin(StartReq) && c != CR && c != LF
    ensures var t := Step(s, c);
            if FirstGuess(c).Some? then t == State(InName(s.core, FirstGuess(c).value, 1), s.events + [MessageBegin])
            else t.core.errno != OK
  {
    hide Name, FirstGuess;
    if FirstGuess(c).Some? {
      FirstGuessFits(c);
    }
    ApplySingle(s.events, Notify(MessageBegin), c);
  }

  lemma MethodStep(s: State, c: char)
    requires Running(s.core) && s.core.phase == ReqMethod
    ensures var t := Step(s, c); var i, name := s.core.name.index, Name(s.core.line.verb);
            t.events == s.events &&
            t.core == OnMethod(Counted(s.core), c).core
  {
    hide Name, OnMethod, NextGuess;
    ApplySingle(s.events, Notify(MessageBegin), c);
    NoActs(Counted(s.core), c);
  }

  lemma NoActs(s: Core, c: char)
    ensures OnMethod(s, c).acts == []
  {
    hide Name, NextGuess;
  }

  /** While no error occurs, what has been read is the beginning of the guessed method's name. */
  lemma {:induction false} MethodSound(s: State, q: string)
    requires Running(s.core) && s.core.phase == Begin(StartReq)
    requires q != "" && q[0] != CR && q[0] != LF && ' ' !in q
    ensures var t := Run(s, q);
            t.core.errno == OK ==>
              && t.core == InName(s.core, t.core.line.verb, |q|) && t.events == s.events + [MessageBegin]
              && |q| <= |Name(t.core.line.verb)| && q == Name(t.core.line.verb)[..|q|]
  {
    hide Name, NextGuess, FirstGuess, Step, OnMethod;
    var n := |q| - 1;
    var r, c := q[..n], q[n];
    assert q == r + [c];
    RunLast(s, r, c);
    if n == 0 {
      assert r == "";
      StartStep(s, c);
      if FirstGuess(c).Some? {
        FirstGuessFits(c);
      }
    } else {
      MethodSound(s, r);
      var u := Run(s, r);
      if u.core.errno == OK {
        MethodStep(u, c);
        LetterSound(u.core, r, c);
      } else {
        StoppedStep(u, c);
      }
    }
  }

  lemma StoppedStep(s: State, c: char)
    requires s.core.errno != OK
    ensures Step(s, c) == s
  {
  }

  lemma LetterSound(s: Core, r: string, c: char)
    requires s.phase == ReqMethod && s.name.index == |r| <= |Name(s.line.verb)| && r == Name(s.line.verb)[..|r|]
        && c != ' '
    requires s.errno == OK
    ensures var t := OnMethod(Counted(s), c).core;
            t.errno == OK ==>
              && t == Counted(s).(line := t.line, name := s.name.(index := |r| + 1))
                && t.line == s.line.(verb := t.line.verb)
              && |r| < |Name(t.line.verb)| && r + [c] == Name(t.line.verb)[..|r| + 1]
  {
    hide Name, NextGuess;
    var name := Name(s.line.verb);
    if |r| < |name| && c == name[|r|] {
      assert name[..|r| + 1] == r + [c];
    } else if NextGuess(s.line.verb, |r|, c).Some? {
      GuessFits(s.line.verb, |r|, c);
    }
  }

  /** A blank ends the method: accepted if and only if the name is complete. */
  lemma BlankStep(s: State)
    requires Running(s.core) && s.core.phase == ReqMethod && s.core.name.index <= |Name(s.core.line.verb)|
    ensures var t := Step(s, ' '); var n := |Name(s.core.line.verb)|;
            if s.core.name.index == n
              then t == State(Indexed(Counted(s.core), n + 1).(phase := Target(ReqSpacesBeforeUrl)), s.events)
            else t.core.errno != OK
  {
    hide Name, NextGuess, Handle;
    MethodStep(s, ' ');
    if s.core.name.index < |Name(s.core.line.verb)| {
      Letters(s.core.line.verb, s.core.name.index);
    }
  }

  lemma {:induction false} MethodComplete(s: State, m: Method, i: nat)
    requires Running(s.core) && s.core.phase == Begin(StartReq) && 1 <= i <= |Name(m)|
    ensures Run(s, Name(m)[..i]) == State(InName(s.core, GuessAt(m, i), i), s.events + [MessageBegin])
  {
    hide Name, NextGuess, FirstGuess, Step, OnMethod, GuessAt;
    var r, c := Name(m)[..i - 1], Name(m)[i - 1];
    assert Name(m)[..i] == r + [c];
    Letters(m, i - 1);
    RunLast(s, r, c);
    if i == 1 {
      assert r == "";
      StartStep(s, c);
      FirstLetterFits(m);
    } else {
      MethodComplete(s, m, i - 1);
      MethodStep(Run(s, r), c);
      LeadsAlways(m, i - 1);
      LetterComplete(Run(s, r).core, m, i - 1);
    }
  }

  lemma LetterComplete(s: Core, m: Method, i: nat)
    requires Leads(m, i) && s.phase == ReqMethod && s.name.index == i && s.line.verb == GuessAt(m, i)
    ensures OnMethod(Counted(s), Name(m)[i]).core
         == Counted(s).(line := s.line.(verb := GuessAt(m, i + 1)), name := s.name.(index := i + 1))
  {
    hide Name, NextGuess, GuessAt;
    Letters(m, i);
  }

  lemma GuessAtEnd(m: Method)
    ensures GuessAt(m, |Name(m)|) == m && |Name(m)| > 0
  {
  }

  /** A word before the first blank is accepted as the method if and only if it is one of the 34
      names, and then the method is the one of that name. */
  lemma MethodExact(s: State, q: string)
    requires Running(s.core) && s.core.phase == Begin(StartReq)
    requires q != "" && q[0] != CR && q[0] != LF && ' ' !in q
    ensures var t := Run(s, q + " ");
            && (t.core.errno == OK <==> exists m :: Name(m) == q)
            && (t.core.errno == OK ==> t.core.phase == Target(ReqSpacesBeforeUrl) && Name(t.core.line.verb) == q
                                       && t.events == s.events + [MessageBegin])
  {
    hide Name, GuessAt, Step;
    var u, t := Run(s, q), Run(s, q + " ");
    RunLast(s, q, ' ');
    MethodSound(s, q);
    if u.core.errno == OK {
      BlankStep(u);
    } else {
      StoppedStep(u, ' ');
    }
    if m :| Name(m) == q {
      GuessAtEnd(m);
      assert Name(m)[..|q|] == q;
      MethodComplete(s, m, |q|);
    }
    if t.core.errno == OK {
      assert Name(u.core.line.verb)[..|q|] == Name(u.core.line.verb);
    }
  }
}
