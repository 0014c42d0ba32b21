/** Characters, tokens and methods of lib/libhv/http/http_parser.c in strict mode. A byte is a
    `char` below 256; larger characters are treated like the bytes from 128 up. */
module HttpChars {

  import opened Options

  const CR: char := '\r'
  const LF: char := '\n'
  const NUL: char := '\0'
  const FF: char := '\U{0C}'

  /** `ch | 0x20`; from 128 up the result is compared with nothing. */
  function Lower(c: char): char {
    if c < ' ' || '@' <= c < '`' then (c as int + 32) as char else c
  }

  predicate IsNum(c: char) {
    '0' <= c <= '9'
  }

  predicate IsAlpha(c: char) {
    'A' <= c <= 'Z' || 'a' <= c <= 'z'
  }

  predicate IsMark(c: char) {
    c == '-' || c == '_' || c == '.' || c == '!' || c == '~' || c == '*' || c == '\'' || c == '(' || c == ')'
  }

  predicate IsUserInfo(c: char) {
    || IsAlpha(c) || IsNum(c) || IsMark(c)
    || c == '%' || c == ';' || c == ':' || c == '&' || c == '=' || c == '+' || c == '$' || c == ','
  }

  /** `normal_url_char`. */
  predicate IsUrlChar(c: char) {
    ' ' < c <= '~' && c != '#' && c != '?'
  }

  predicate IsHeaderChar(c: char) {
    c == CR || c == LF || c == '\t' || (c >= ' ' && c != '\U{7F}')
  }

  /** `TOKEN`: the lower-case letter of a header name, or 0. A space is no token in strict mode. */
  function Token(c: char): char {
    if 'A' <= c <= 'Z' then Lower(c)
    else if IsNum(c) || 'a' <= c <= 'z' then c
    else if c == '!' || ('#' <= c <= '\'') || c == '*' || c == '+' || c == '-' || c == '.' then c
    else if c == '^' || c == '_' || c == '`' || c == '|' || c == '~' then c
    else NUL
  }

  function Digit(c: char): nat
    requires IsNum(c)
  {
    c as int - '0' as int
  }

  /** The table `unhex`, -1 for what is no hexadecimal digit. Its initialiser stops at 127, so every
      byte from 128 up reads as 0. */
  function Unhex(c: char): (v: int)
    ensures -1 <= v < 16
  {
    if IsNum(c) then Digit(c)
    else if 'a' <= c <= 'f' then c as int - 'a' as int + 10
    else if 'A' <= c <= 'F' then c as int - 'A' as int + 10
    else if c >= '\U{80}' then 0
    else -1
  }

  datatype Method =
    | DELETE | GET | HEAD | POST | PUT | CONNECT | OPTIONS | TRACE
    | COPY | LOCK | MKCOL | MOVE | PROPFIND | PROPPATCH | SEARCH | UNLOCK | BIND | REBIND | UNBIND | ACL
    | REPORT | MKACTIVITY | CHECKOUT | MERGE
    | MSEARCH | NOTIFY | SUBSCRIBE | UNSUBSCRIBE
    | PATCH | PURGE | MKCALENDAR | LINK | UNLINK | SOURCE

  predicate Capital(c: char) {
    'A' <= c <= 'Z' || c == '-'
  }

  /** `method_strings`. */
  function Name(m: Method): (r: string)
    ensures 3 <= |r| <= 11 && forall i :: 0 <= i < |r| ==> Capital(r[i])
  {
    match m
    case DELETE => "DELETE" case GET => "GET" case HEAD => "HEAD" case POST => "POST"
    case PUT => "PUT" case CONNECT => "CONNECT" case OPTIONS => "OPTIONS" case TRACE => "TRACE"
    case COPY => "COPY" case LOCK => "LOCK" case MKCOL => "MKCOL" case MOVE => "MOVE"
    case PROPFIND => "PROPFIND" case PROPPATCH => "PROPPATCH" case SEARCH => "SEARCH"
    case UNLOCK => "UNLOCK" case BIND => "BIND" case REBIND => "REBIND" case UNBIND => "UNBIND"
    case ACL => "ACL" case REPORT => "REPORT" case MKACTIVITY => "MKACTIVITY"
    case CHECKOUT => "CHECKOUT" case MERGE => "MERGE" case MSEARCH => "M-SEARCH"
    case NOTIFY => "NOTIFY" case SUBSCRIBE => "SUBSCRIBE" case UNSUBSCRIBE => "UNSUBSCRIBE"
    case PATCH => "PATCH" case PURGE => "PURGE" case MKCALENDAR => "MKCALENDAR"
    case LINK => "LINK" case UNLINK => "UNLINK" case SOURCE => "SOURCE"
  }

  /** The first guess of the method, from its first letter. */
  function FirstGuess(c: char): Option<Method> {
    match c
    case 'A' => Some(ACL) case 'B' => Some(BIND) case 'C' => Some(CONNECT) case 'D' => Some(DELETE)
    case 'G' => Some(GET) case 'H' => Some(HEAD) case 'L' => Some(LOCK) case 'M' => Some(MKCOL)
    case 'N' => Some(NOTIFY) case 'O' => Some(OPTIONS) case 'P' => Some(POST) case 'R' => Some(REPORT)
    case 'S' => Some(SUBSCRIBE) case 'T' => Some(TRACE) case 'U' => Some(UNLOCK)
    case _ => None
  }

  /** The guess after a letter that does not fit the current one. */
  function NextGuess(m: Method, pos: nat, c: char): Option<Method> {
    if m == POST && pos == 1 && c == 'U' then Some(PUT)
    else if m == POST && pos == 1 && c == 'A' then Some(PATCH)
    else if m == POST && pos == 1 && c == 'R' then Some(PROPFIND)
    else if m == PUT && pos == 2 && c == 'R' then Some(PURGE)
    else if m == CONNECT && pos == 1 && c == 'H' then Some(CHECKOUT)
    else if m == CONNECT && pos == 2 && c == 'P' then Some(COPY)
    else if m == MKCOL && pos == 1 && c == 'O' then Some(MOVE)
    else if m == MKCOL && pos == 1 && c == 'E' then Some(MERGE)
    else if m == MKCOL && pos == 1 && c == '-' then Some(MSEARCH)
    else if m == MKCOL && pos == 2 && c == 'A' then Some(MKACTIVITY)
    else if m == MKCOL && pos == 3 && c == 'A' then Some(MKCALENDAR)
    else if m == SUBSCRIBE && pos == 1 && c == 'E' then Some(SEARCH)
    else if m == SUBSCRIBE && pos == 1 && c == 'O' then Some(SOURCE)
    else if m == REPORT && pos == 2 && c == 'B' then Some(REBIND)
    else if m == PROPFIND && pos == 4 && c == 'P' then Some(PROPPATCH)
    else if m == LOCK && pos == 1 && c == 'I' then Some(LINK)
    else if m == UNLOCK && pos == 2 && c == 'S' then Some(UNSUBSCRIBE)
    else if m == UNLOCK && pos == 2 && c == 'B' then Some(UNBIND)
    else if m == UNLOCK && pos == 3 && c == 'I' then Some(UNLINK)
    else None
  }
}
