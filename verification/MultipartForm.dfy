/** lib/libhv/http/http_content.cpp: a form is written as multipart/form-data and read back. */
module MultipartForm {
  import opened MultipartSpec
  import opened Folding

  /** A field of the form. The map of the source is walked in the order of its keys. */
  datatype Entry = Entry(name: string, content: string)

  datatype FormData = FormData(content: string, filename: string)

  const NUL: char := '\0'
  const DISPOSITION := "Content-Disposition"
  const FORM_DATA := "form-data"
  /** `char c_str[256]`. */
  const LINE_MAX: nat := 255

  // ---------------------------------------------------------------- dump_multipart

  function Quoted(name: string): string {
    "; name=\"" + name + "\""
  }

  /** `snprintf` into a buffer of 256 bytes. */
  function Clipped(x: string): string {
    if |x| > LINE_MAX then x[..LINE_MAX] else x
  }

  function EntryText(e: Entry, boundary: string): string {
    "--" + boundary + CRLF + (DISPOSITION + ": " + FORM_DATA + Clipped(Quoted(e.name)) + CRLF + CRLF) + e.content + CRLF
  }

  function Dump(entries: seq<Entry>, boundary: string): string {
    Entries(entries, boundary) + "--" + boundary + "--"
  }

  function Entries(entries: seq<Entry>, boundary: string): string {
    if entries == [] then ""
      else Entries(entries[..|entries| - 1], boundary) + EntryText(entries[|entries| - 1], boundary)
  }

  /** `dump_multipart`, for fields without a file. */
  method DumpMultipart(mp: seq<Entry>, boundary: string) returns (str: string)
    ensures str == Dump(mp, boundary)
  {
    str := "";
    var i := 0;
    while i < |mp|
      invariant i <= |mp| && str == Entries(mp[..i], boundary)
    {
      ghost var before := str;
      assert mp[..i + 1][..i] == mp[..i];
      str := str + "--";
      str := str + boundary;
      str := str + "\r\n";
      str := str + "Content-Disposition: form-data";
      str := str + Clipped(Quoted(mp[i].name));
      str := str + "\r\n\r\n";
      str := str + mp[i].content;
      str := str + "\r\n";
      Appended(before, mp[i], boundary);
      i := i + 1;
    }
    assert mp[..i] == mp;
    str := str + "--";
    str := str + boundary;
    str := str + "--";
  }

  lemma Appended(before: string, e: Entry, boundary: string)
    ensures before + "--" + boundary + "\r\n" + "Content-Disposition: form-data" + Clipped(Quoted(e.name))
            + "\r\n\r\n" + e.content + "\r\n"
         == before + EntryText(e, boundary)
  {
    assert "Content-Disposition: form-data" == DISPOSITION + ": " + FORM_DATA;
    assert "\r\n\r\n" == CRLF + CRLF;
  }

  // ---------------------------------------------------------------- parse_multipart

  function ToLower(c: char): char {
    if 'A' <= c <= 'Z' then (c as int + 32) as char else c
  }

  predicate SameIgnoringCase(a: string, b: string) {
    |a| == |b| && forall i :: 0 <= i < |a| ==> ToLower(a[i]) == ToLower(b[i])
  }

  /** `split`: the pieces between delimiters, up to a NUL. */
  function Split(s: string, d: char): (r: seq<string>)
    ensures r != []
  {
    if s == "" || s[0] == NUL then [""]
    else
      var rest := Split(s[1..], d);
      if s[0] == d then [""] + rest else [[s[0]] + rest[0]] + rest[1..]
  }

  function TrimLeft(s: string): string {
    if s != "" && s[0] == ' ' then TrimLeft(s[1..]) else s
  }

  function TrimRight(s: string): string {
    if s != "" && s[|s| - 1] == ' ' then TrimRight(s[..|s| - 1]) else s
  }

  /** `trim(str, " ")`. */
  function Trim(s: string): string {
    TrimRight(TrimLeft(s))
  }

  /** `trim_pairs` for double and single quotes. */
  function TrimPairs(s: string): string {
    if s == "" || s[0] != s[|s| - 1] || (s[0] != '"' && s[0] != '\'') then s
    else if |s| == 1 then "" else s[1..|s| - 1]
  }

  /** `multipart_parser_userdata`. */
  datatype UserData = UserData(mp: map<string, FormData>, field: string, value: string, data: string,
                               name: string, filename: string)

  function TakeParameter(u: UserData, piece: string): UserData {
    var kv := Split(Trim(piece), '=');
    if |kv| == 2 && kv[0] == "name" then u.(name := TrimPairs(kv[1]))
    else if |kv| == 2 && kv[0] == "filename" then u.(filename := TrimPairs(kv[1]))
    else u
  }

  function TakeParameters(u: UserData, pieces: seq<string>): UserData
    decreases |pieces|
  {
    if pieces == [] then u else TakeParameters(TakeParameter(u, pieces[0]), pieces[1..])
  }

  function HandleHeader(u: UserData): UserData {
    if u.field == "" || u.value == "" then u
    else
      var v := if SameIgnoringCase(u.field, DISPOSITION) then TakeParameters(u, Split(u.value, ';')) else u;
      v.(field := "", value := "")
  }

  function HandleData(u: UserData): UserData {
    u.(mp := if u.name != "" then u.mp[u.name := FormData(u.data, u.filename)]
      else u.mp, name := "", filename := "", data := "")
  }

  /** The callbacks. */
  function Feed(u: UserData, e: Event): UserData {
    match e
    case Data(Field, text) => var v := HandleHeader(u); v.(field := v.field + text)
    case Data(Value, text) => u.(value := u.value + text)
    case Data(Content, text) => u.(data := u.data + text)
    case HeadersComplete => HandleHeader(u)
    case PartDone => HandleData(u)
    case _ => u
  }

  const NOTHING := UserData(map[], "", "", "", "", "")

  /** `parse_multipart`: the form, or nothing where the source returns -1. */
  function Parse(str: string, boundary: string): (r: Result)
  {
    var s := Run(Init("--" + boundary), str);
    if s.core.failed then Bad else Form(Fold(Feed, NOTHING, s.events).mp)
  }

  datatype Result = Bad | Form(mp: map<string, FormData>)

  // ---------------------------------------------------------------- reading the header

  predicate GoodName(name: string) {
    && name != "" && |Quoted(name)| <= LINE_MAX
    && ';' !in name && '=' !in name && CR !in name && NUL !in name
  }

  lemma {:induction false} SplitNone(a: string, d: char)
    requires d !in a && NUL !in a
    ensures Split(a, d) == [a]
  {
    if a != "" {
      SplitNone(a[1..], d);
      assert [a[0]] + a[1..] == a;
      assert [a[1..]][1..] == [];
    }
  }

  lemma {:induction false} SplitOnce(a: string, b: string, d: char)
    requires d !in a && d !in b && NUL !in a && NUL !in b && d != NUL
    ensures Split(a + [d] + b, d) == [a, b]
  {
    var s := a + [d] + b;
    if a == "" {
      assert s[1..] == b && s[0] == d;
      SplitNone(b, d);
    } else {
      assert s[1..] == a[1..] + [d] + b;
      SplitOnce(a[1..], b, d);
      assert [a[0]] + a[1..] == a;
      assert [a[1..], b][1..] == [b];
    }
  }

  /** The header written for a name gives the name back. */
  lemma NameRead(u: UserData, name: string)
    requires GoodName(name) && u.field == DISPOSITION && u.value == FORM_DATA + Quoted(name)
    ensures HandleHeader(u) == u.(field := "", value := "", name := name)
  {
    hide Split, TrimPairs, Trim, SameIgnoringCase;
    assert SameIgnoringCase(DISPOSITION, DISPOSITION) by {
      Same(DISPOSITION);
    }
    var piece := " name=\"" + name + "\"";
    var quoted := "\"" + name + "\"";
    assert FORM_DATA + Quoted(name) == FORM_DATA + [';'] + piece;
    SplitOnce(FORM_DATA, piece, ';');
    Trims(name);
    SplitNone(FORM_DATA, '=');
    assert "name=" + quoted == "name" + ['='] + quoted;
    SplitOnce("name", quoted, '=');
    Unquotes(name);
    var pieces := [FORM_DATA, piece];
    assert pieces[1..] == [piece] && [piece][1..] == [];
    assert TakeParameter(u, FORM_DATA) == u;
    assert TakeParameter(u, piece) == u.(name := name);
    assert TakeParameters(u, [piece]) == TakeParameter(u, piece);
  }

  lemma Same(a: string)
    ensures SameIgnoringCase(a, a)
  {
  }

  lemma Trims(name: string)
    ensures Trim(FORM_DATA) == FORM_DATA
    ensures Trim(" name=\"" + name + "\"") == "name=" + ("\"" + name + "\"")
  {
    var x := "name=" + ("\"" + name + "\"");
    var y := " name=\"" + name + "\"";
    assert y == " " + x;
    assert y[1..] == x && y[0] == ' ' && x[0] == 'n' && x[|x| - 1] == '"';
    assert TrimLeft(x) == x && TrimRight(x) == x && TrimLeft(y) == TrimLeft(x);
    assert TrimLeft(FORM_DATA) == FORM_DATA && TrimRight(FORM_DATA) == FORM_DATA;
  }

  lemma Unquotes(name: string)
    ensures TrimPairs("\"" + name + "\"") == name
  {
    var q := "\"" + name + "\"";
    assert q[0] == '"' && q[|q| - 1] == '"' && q[1..|q| - 1] == name;
  }

  // ---------------------------------------------------------------- reading the stream

  /** In a parser for this boundary that has met no error. */
  predicate In(s: State, d: string, phase: Phase) {
    !s.core.failed && s.core.boundary == d && s.core.phase == phase && !s.core.torn
  }

  predicate FieldText(x: string) {
    x != "" && forall i :: 0 <= i < |x| ==> x[i] == '-' || IsAlpha(x[i])
  }

  lemma FieldStep(s: State, d: string, c: char)
    requires (In(s, d, HeaderFieldStart) || In(s, d, HeaderField)) && (c == '-' || IsAlpha(c))
    ensures In(Step(s, c), d, HeaderField) && Step(s, c).events == Emit(s.events, Field, [c])
  {
    hide Emit;
    ApplySingle(s.events, Take(Field), c);
  }

  lemma {:induction false} FieldRun(s: State, d: string, x: string)
    requires In(s, d, HeaderFieldStart) && FieldText(x)
    ensures In(Run(s, x), d, HeaderField) && Run(s, x).events == Emit(s.events, Field, x)
  {
    hide Emit, Step, In;
    var r, c := x[..|x| - 1], x[|x| - 1];
    assert x == r + [c];
    RunLast(s, r, c);
    if r == "" {
      assert x == [c];
      FieldStep(s, d, c);
    } else {
      FieldRun(s, d, r);
      FieldStep(Run(s, r), d, c);
      EmitTwice(s.events, Field, r, [c]);
    }
  }

  lemma ValueStep(s: State, d: string, c: char)
    requires (In(s, d, HeaderValueStart) && c != ' ') || In(s, d, HeaderValue)
    requires c != CR
    ensures In(Step(s, c), d, HeaderValue) && Step(s, c).events == Emit(s.events, Value, [c])
  {
    hide Emit;
    ApplySingle(s.events, Take(Value), c);
  }

  lemma {:induction false} ValueRun(s: State, d: string, x: string)
    requires In(s, d, HeaderValueStart) && x != "" && x[0] != ' ' && CR !in x
    ensures In(Run(s, x), d, HeaderValue) && Run(s, x).events == Emit(s.events, Value, x)
  {
    hide Emit, Step, In;
    var r, c := x[..|x| - 1], x[|x| - 1];
    assert x == r + [c];
    RunLast(s, r, c);
    if r == "" {
      assert x == [c];
      ValueStep(s, d, c);
    } else {
      ValueRun(s, d, r);
      ValueStep(Run(s, r), d, c);
      EmitTwice(s.events, Value, r, [c]);
    }
  }

  lemma ColonRun(s: State, d: string)
    requires In(s, d, HeaderField)
    ensures In(Run(s, ": "), d, HeaderValueStart) && Run(s, ": ").events == Emit(s.events, Field, "")
  {
    hide Emit;
    assert ": " == [':'] + [' '];
    RunFirst(s, ':', [' ']);
    RunOne(Step(s, ':'), ' ');
    ApplySingle(s.events, Flush(Field), ':');
    ApplySingle(Emit(s.events, Field, ""), Flush(Field), ' ');
  }

  lemma ValueEnd(s: State, d: string)
    requires In(s, d, HeaderValue)
    ensures In(Run(s, CRLF), d, HeaderFieldStart) && Run(s, CRLF).events == Emit(s.events, Value, "")
  {
    hide Emit;
    assert CRLF == [CR] + [LF];
    RunFirst(s, CR, [LF]);
    RunOne(Step(s, CR), LF);
    ApplySingle(s.events, Flush(Value), CR);
    ApplySingle(Emit(s.events, Value, ""), Flush(Value), LF);
  }

  lemma HeadersEnd(s: State, d: string)
    requires In(s, d, HeaderFieldStart)
    ensures In(Run(s, CRLF), d, PartDataStart) && Run(s, CRLF).events == s.events
  {
    assert CRLF == [CR] + [LF];
    RunFirst(s, CR, [LF]);
    RunOne(Step(s, CR), LF);
    ApplySingle(s.events, Flush(Value), CR);
  }

  lemma EmitFresh(events: seq<Event>, e: Event, part: Part, x: string)
    requires !e.Data? || e.part != part
    ensures Emit(events + [e], part, x) == events + [e] + [Data(part, x)]
    ensures Emit(events + [e] + [Data(part, x)], part, "") == events + [e] + [Data(part, x)]
  {
    var f := events + [e] + [Data(part, x)];
    assert f[..|f| - 1] == events + [e] && x + "" == x;
  }

  /** One header line and the blank line behind it. */
  lemma HeaderRun(s: State, d: string, e: seq<Event>, name: string, value: string)
    requires In(s, d, HeaderFieldStart) && s.events == e + [PartBegin] && FieldText(name)
    requires value != "" && value[0] != ' ' && CR !in value
    ensures var u := Run(s, name + (": " + (value + (CRLF + CRLF))));
            In(u, d, PartDataStart) && u.events == e + [PartBegin] + [Data(Field, name)] + [Data(Value, value)]
  {
    hide Emit, Step, In;
    RunConcat(s, name, ": " + (value + (CRLF + CRLF)));
    FieldRun(s, d, name);
    EmitFresh(e, PartBegin, Field, name);
    var s1 := Run(s, name);
    RunConcat(s1, ": ", value + (CRLF + CRLF));
    ColonRun(s1, d);
    var s2 := Run(s1, ": ");
    RunConcat(s2, value, CRLF + CRLF);
    ValueRun(s2, d, value);
    EmitFresh(e + [PartBegin], Data(Field, name), Value, value);
    var s3 := Run(s2, value);
    RunConcat(s3, CRLF, CRLF);
    ValueEnd(s3, d);
    HeadersEnd(Run(s3, CRLF), d);
  }

  // ---------------------------------------------------------------- reading a form

  /** The content does not contain the boundary line. */
  ghost predicate GoodEntry(e: Entry, boundary: string) {
    GoodName(e.name) && !Occurs(e.content, CRLF + ("--" + boundary))
  }

  function EntryEvents(e: Entry): seq<Event> {
    [PartBegin, Data(Field, DISPOSITION), Data(Value, FORM_DATA + Quoted(e.name)), HeadersComplete,
      Data(Content, e.content), PartDone]
  }

  function EntriesEvents(entries: seq<Entry>): seq<Event> {
    if entries == [] then [] else EntriesEvents(entries[..|entries| - 1]) + EntryEvents(entries[|entries| - 1])
  }

  /** Before the line end behind a boundary: at the very start, or after a part. */
  predicate AtDelimiter(s: State, d: string) {
    In(s, d, AlmostEnd) || (In(s, d, StartBoundary) && s.core.index == |d|)
  }

  lemma DelimiterLine(s: State, d: string)
    requires AtDelimiter(s, d)
    ensures In(Run(s, CRLF), d, HeaderFieldStart) && Run(s, CRLF).events == s.events + [PartBegin]
  {
    assert CRLF == [CR] + [LF];
    RunFirst(s, CR, [LF]);
    RunOne(Step(s, CR), LF);
    ApplySingle(s.events, Notify(PartBegin), LF);
  }

  /** From the delimiter before a field to the one behind it. */
  function EntryBody(e: Entry, boundary: string): string {
    CRLF + ((DISPOSITION + (": " + ((FORM_DATA + Quoted(e.name)) + (CRLF + CRLF))))
            + (e.content + (CRLF + ("--" + boundary))))
  }

  /** A field of the form, from one delimiter to the next. */
  lemma EntryRun(s: State, boundary: string, e: Entry)
    requires AtDelimiter(s, "--" + boundary) && CR !in boundary && GoodEntry(e, boundary)
    ensures var u := Run(s, EntryBody(e, boundary));
            In(u, "--" + boundary, AlmostEnd) && u.events == s.events + EntryEvents(e)
  {
    hide Step, Occurs, AtDelimiter;
    var d, value := "--" + boundary, FORM_DATA + Quoted(e.name);
    var header := DISPOSITION + (": " + (value + (CRLF + CRLF)));
    var rest := e.content + (CRLF + d);
    RunConcat(s, CRLF, header + rest);
    DelimiterLine(s, d);
    var s1 := Run(s, CRLF);
    RunConcat(s1, header, rest);
    ValueGood(e.name);
    HeaderRun(s1, d, s.events, DISPOSITION, value);
    var s2 := Run(s1, header);
    PartRead(s2, e.content);
    assert s.events + [PartBegin] + [Data(Field, DISPOSITION)] + [Data(Value, value)] + [HeadersComplete,
        Data(Content, e.content)]
           + [PartDone] == s.events + EntryEvents(e);
  }

  lemma ValueGood(name: string)
    requires GoodName(name)
    ensures FieldText(DISPOSITION)
    ensures var value := FORM_DATA + Quoted(name); value != "" && value[0] != ' ' && CR !in value
  {
    var value := FORM_DATA + Quoted(name);
    assert value[0] == 'f';
    assert CR !in FORM_DATA && CR !in "; name=\"" && CR !in "\"";
  }

  lemma {:induction false} BoundaryStart(d: string, k: nat)
    requires k <= |d|
    ensures var u := Run(Init(d), d[..k]);
            !u.core.failed && !u.core.torn && u.core.boundary == d && u.events == []
            && (k == 0 ==> u == Init(d)) && (k > 0 ==> u.core.phase == StartBoundary && u.core.index == k)
  {
    if k > 0 {
      assert d[..k] == d[..k - 1] + [d[k - 1]];
      BoundaryStart(d, k - 1);
      RunLast(Init(d), d[..k - 1], d[k - 1]);
      ApplySingle([], Flush(Value), d[k - 1]);
    }
  }

  /** All fields, up to the delimiter behind the last. */
  lemma {:induction false} EntriesRun(entries: seq<Entry>, boundary: string)
    requires CR !in boundary && forall i :: 0 <= i < |entries| ==> GoodEntry(entries[i], boundary)
    ensures var d := "--" + boundary; var u := Run(Init(d), Entries(entries, boundary) + d);
            && AtDelimiter(u, d) && u.events == EntriesEvents(entries)
            && (if entries == [] then u.core.phase == StartBoundary else u.core.phase == AlmostEnd)
  {
    hide Step, GoodEntry, EntryEvents;
    hide Entries, EntryText, EntryBody, AtDelimiter;
    var d := "--" + boundary;
    if entries == [] {
      NoEntries(boundary);
      assert d[..|d|] == d;
      BoundaryStart(d, |d|);
      AtStart(Run(Init(d), d), d);
    } else {
      var front, e := entries[..|entries| - 1], entries[|entries| - 1];
      EntriesRun(front, boundary);
      LastEntry(entries, boundary);
      RunConcat(Init(d), Entries(front, boundary) + d, EntryBody(e, boundary));
      EntryRun(Run(Init(d), Entries(front, boundary) + d), boundary, e);
      AtEnd(Run(Init(d), Entries(entries, boundary) + d), d);
    }
  }

  lemma AtStart(s: State, d: string)
    requires In(s, d, StartBoundary) && s.core.index == |d|
    ensures AtDelimiter(s, d)
  {
  }

  lemma AtEnd(s: State, d: string)
    requires In(s, d, AlmostEnd)
    ensures AtDelimiter(s, d)
  {
  }

  lemma NoEntries(boundary: string)
    ensures Entries([], boundary) + ("--" + boundary) == "--" + boundary
  {
  }

  lemma LastEntry(entries: seq<Entry>, boundary: string)
    requires entries != [] && GoodEntry(entries[|entries| - 1], boundary)
    ensures Entries(entries, boundary) + ("--" + boundary)
         == Entries(entries[..|entries| - 1], boundary) + ("--" + boundary) + EntryBody(entries[|entries| - 1],
           boundary)
  {
    hide EntryText, EntryBody;
    var n := |entries| - 1;
    EntryShape(entries[n], boundary);
    Regroup(Entries(entries[..n], boundary), EntryText(entries[n], boundary), "--" + boundary,
      EntryBody(entries[n], boundary));
  }

  lemma Regroup(a: string, b: string, d: string, x: string)
    requires b + d == d + x
    ensures a + b + d == a + d + x
  {
    assert a + b + d == a + (b + d);
    assert a + d + x == a + (d + x);
  }

  lemma EntryShape(e: Entry, boundary: string)
    requires GoodEntry(e, boundary)
    ensures EntryText(e, boundary) + ("--" + boundary) == "--" + boundary + EntryBody(e, boundary)
  {
  }

  // ---------------------------------------------------------------- the form again

  /** The form as a map from names to what `parse_multipart` stores. */
  function MapOf(entries: seq<Entry>): map<string, FormData> {
    if entries == [] then map[]
    else var n := |entries| - 1; MapOf(entries[..n])[entries[n].name := FormData(entries[n].content, "")]
  }

  predicate Distinct(entries: seq<Entry>) {
    forall i, j :: 0 <= i < j < |entries| ==> entries[i].name != entries[j].name
  }

  /** Every field is in the map under its name, with its content, and nothing else is. */
  lemma {:induction false} MapOfEntries(entries: seq<Entry>)
    requires Distinct(entries)
    ensures forall i :: 0 <= i < |entries| ==> entries[i].name in MapOf(entries)
                                               && MapOf(entries)[entries[i].name] == FormData(entries[i].content, "")
    ensures forall n :: n in MapOf(entries) ==> exists i :: 0 <= i < |entries| && entries[i].name == n
  {
    if entries != [] {
      var n := |entries| - 1;
      MapOfEntries(entries[..n]);
      forall i | 0 <= i < |entries|
        ensures entries[i].name in MapOf(entries) && MapOf(entries)[entries[i].name] == FormData(entries[i].content, "")
      {
        if i < n {
          assert entries[..n][i] == entries[i];
        }
      }
      forall x | x in MapOf(entries)
        ensures exists i :: 0 <= i < |entries| && entries[i].name == x
      {
        if x != entries[n].name {
          var i :| 0 <= i < n && entries[..n][i].name == x;
          assert entries[i].name == x;
        } else {
          assert entries[n].name == x;
        }
      }
    }
  }

  lemma FeedEntry(m: map<string, FormData>, e: Entry)
    requires GoodName(e.name)
    ensures Fold(Feed, NOTHING.(mp := m), EntryEvents(e)) == NOTHING.(mp := m[e.name := FormData(e.content, "")])
  {
    hide HandleHeader, Fold, Quoted, GoodName;
    var u := NOTHING.(mp := m);
    var es := EntryEvents(e);
    var v1 := u.(field := DISPOSITION);
    var v2 := v1.(value := FORM_DATA + Quoted(e.name));
    FoldSix(u, es);
    NoHeader(u);
    assert "" + DISPOSITION == DISPOSITION;
    assert Feed(u, es[0]) == u && Feed(u, es[1]) == v1;
    assert "" + (FORM_DATA + Quoted(e.name)) == FORM_DATA + Quoted(e.name);
    assert Feed(v1, es[2]) == v2;
    NameRead(v2, e.name);
    assert "" + e.content == e.content;
    NameNonEmpty(e.name);
  }

  lemma NameNonEmpty(name: string)
    requires GoodName(name)
    ensures name != ""
  {
  }

  lemma NoHeader(u: UserData)
    requires u.field == ""
    ensures HandleHeader(u) == u
  {
  }

  lemma FoldSix(u: UserData, es: seq<Event>)
    requires |es| == 6
    ensures Fold(Feed, u, es) == Feed(Feed(Feed(Feed(Feed(Feed(u, es[0]), es[1]), es[2]), es[3]), es[4]), es[5])
  {
    hide Feed;
    FoldLast(Feed, u, es[..0], es[0]);
    FoldLast(Feed, u, es[..1], es[1]);
    FoldLast(Feed, u, es[..2], es[2]);
    FoldLast(Feed, u, es[..3], es[3]);
    FoldLast(Feed, u, es[..4], es[4]);
    FoldLast(Feed, u, es[..5], es[5]);
    assert es[..0] + [es[0]] == es[..1] && es[..1] + [es[1]] == es[..2] && es[..2] + [es[2]] == es[..3];
    assert es[..3] + [es[3]] == es[..4] && es[..4] + [es[4]] == es[..5] && es[..5] + [es[5]] == es;
  }

  lemma {:induction false} FeedEntries(entries: seq<Entry>)
    requires forall i :: 0 <= i < |entries| ==> GoodName(entries[i].name)
    ensures Fold(Feed, NOTHING, EntriesEvents(entries)) == NOTHING.(mp := MapOf(entries))
  {
    hide Feed, EntryEvents, GoodName;
    if entries != [] {
      var n := |entries| - 1;
      FeedEntries(entries[..n]);
      FoldConcat(Feed, NOTHING, EntriesEvents(entries[..n]), EntryEvents(entries[n]));
      FeedEntry(MapOf(entries[..n]), entries[n]);
    }
  }

  lemma ClosingRun(s: State, d: string)
    requires In(s, d, AlmostEnd)
    ensures In(Run(s, "--"), d, End) && Run(s, "--").events == s.events + [BodyEnd]
  {
    assert "--" == ['-'] + ['-'];
    RunFirst(s, '-', ['-']);
    RunOne(Step(s, '-'), '-');
    ApplySingle(s.events, Notify(BodyEnd), '-');
  }

  /** A form that is written and read back is the same form: non-empty, with distinct names that avoid
      the delimiters, and contents without the boundary line. */
  lemma {:induction false} RoundTrip(entries: seq<Entry>, boundary: string)
    requires entries != [] && Distinct(entries) && CR !in boundary
    requires forall i :: 0 <= i < |entries| ==> GoodEntry(entries[i], boundary)
    ensures Parse(Dump(entries, boundary), boundary) == Form(MapOf(entries))
  {
    hide Step, Feed, Entries, AtDelimiter;
    var d := "--" + boundary;
    EntriesRun(entries, boundary);
    var s := Run(Init(d), Entries(entries, boundary) + d);
    assert Dump(entries, boundary) == Entries(entries, boundary) + d + "--";
    RunConcat(Init(d), Entries(entries, boundary) + d, "--");
    EndPhase(s, d);
    ClosingRun(s, d);
    FeedEntries(entries);
    FoldLast(Feed, NOTHING, EntriesEvents(entries), BodyEnd);
    IgnoresEnd(NOTHING.(mp := MapOf(entries)));
  }

  lemma EndPhase(s: State, d: string)
    requires AtDelimiter(s, d) && s.core.phase == AlmostEnd
    ensures In(s, d, AlmostEnd)
  {
  }

  lemma IgnoresEnd(u: UserData)
    ensures Feed(u, BodyEnd) == u
  {
  }

  /** An empty form is written in a way that is not read back. */
  lemma EmptyForm(boundary: string)
    requires CR !in boundary
    ensures Parse(Dump([], boundary), boundary) == Bad
  {
    hide Step, In;
    var d := "--" + boundary;
    EntriesRun([], boundary);
    NoEntries(boundary);
    var s := Run(Init(d), d);
    assert Dump([], boundary) == d + "--";
    RunConcat(Init(d), d, "--");
    assert "--" == ['-'] + ['-'];
    RunFirst(s, '-', ['-']);
    RunOne(Step(s, '-'), '-');
    HyphenFails(s, d);
  }

  lemma HyphenFails(s: State, d: string)
    requires AtDelimiter(s, d) && s.core.phase == StartBoundary
    ensures Step(s, '-').core.failed && Step(Step(s, '-'), '-').core.failed
  {
  }
}
