/** The request machine of `src/http/http11_parser.rl` with its marks and callbacks, and the parser
    object of `src/http/http_parser.cpp`. */
module HttpParsers {
  import opened Collections
  import opened HttpRequests

  // ---- Character classes ----

  predicate Alpha(c: char) { 'a' <= c <= 'z' || 'A' <= c <= 'Z' }

  predicate IsDigit(c: char) { '0' <= c <= '9' }

  predicate Hex(c: char) { IsDigit(c) || 'a' <= c <= 'f' || 'A' <= c <= 'F' }

  predicate MethodChar(c: char) { 'A' <= c <= 'Z' || IsDigit(c) }

  predicate SubDelim(c: char, relaxed: bool) {
    c in "!$&'()*+,;=" || (relaxed && c in "{}^")
  }

  /** A path character other than a percent triplet (sections 2.3 and 3.3 of RFC 3986). */
  predicate PathChar(c: char, relaxed: bool) {
    Alpha(c) || IsDigit(c) || c in "-._~:@" || SubDelim(c, relaxed)
  }

  predicate Control(c: char) { c < ' ' || c == 127 as char }

  predicate Separator(c: char) { c in "()<>@,;:\\\"/[]?={} \t" }

  predicate TokenChar(c: char) { c < 128 as char && !Control(c) && !Separator(c) }

  predicate Blank(c: char) { c == ' ' || c == '\t' }

  /** The characters of a path, written out: unreserved characters, sub-delimiters, the colon and the at
      sign (sections 2.2, 2.3 and 3.3 of RFC 3986), and three more when relaxed. */
  lemma PathCharacters(c: char, relaxed: bool)
    ensures PathChar(c, relaxed) <==>
            || 'a' <= c <= 'z' || 'A' <= c <= 'Z' || '0' <= c <= '9'
            || c in ['-', '.', '_', '~', '!', '$', '&', '\'', '(', ')', '*', '+', ',', ';', '=', ':', '@']
            || (relaxed && c in ['{', '}', '^'])
  {
  }

  /** The characters of a header name are those of a token: the visible ones except the delimiters
      (section 3.2.6 of RFC 7230). */
  lemma TokenCharacters(c: char)
    ensures TokenChar(c) <==>
            && 33 <= c as int <= 126
            && c !in ['\"', '(', ')', ',', '/', ':', ';', '<', '=', '>', '?', '@', '[', '\\', ']', '{', '}']
  {
  }

  lemma OtherCharacters(c: char)
    ensures Hex(c) <==> '0' <= c <= '9' || 'a' <= c <= 'f' || 'A' <= c <= 'F'
    ensures MethodChar(c) <==> 'A' <= c <= 'Z' || '0' <= c <= '9'
    ensures Blank(c) <==> c in [' ', '\t']
    ensures Control(c) <==> (c as int) < 32 || c as int == 127
  {
  }

  // ---- The machine ----

  /** The stretch of the URI being read; `Colonless` is the first segment of a path without a
      leading slash. */
  datatype Part = Path | Colonless | Query | Fragment

  predicate UriChar(part: Part, c: char, relaxed: bool) {
    match part
    case Path => PathChar(c, relaxed) || c == '/'
    case Colonless => PathChar(c, relaxed) && c != ':'
    case _ => PathChar(c, relaxed) || c == '/' || c == '?'
  }

  /** Beyond the characters of a path, slashes stand in all but a first segment without one before it, and
      question marks in query and fragment; such a first segment has no colon. */
  lemma UriCharacters(part: Part, c: char, relaxed: bool)
    ensures UriChar(part, c, relaxed) <==>
            || (PathChar(c, relaxed) && !(part == Colonless && c == ':'))
            || (c == '/' && part != Colonless)
            || (c == '?' && part in {Query, Fragment})
  {
  }

  /** `Outside` is a branch of the grammar that is not modelled. */
  datatype State =
    | Start
    | Method(count: nat)
    | Uri
    | PathStart
    | Text(part: Part, hex: nat)
    | QueryStart
    | FragmentStart
    | Version(seen: nat)
    | VersionEnd
    | LineFeed
    | HeadStart
    | Field
    | ValueStart
    | InValue
    | LastLineFeed
    | Done
    | Error
    | Outside

  /** `http_parser`, with the error and the request of the object its callbacks write to. */
  datatype Parser = Parser(
    cs: State, mark: nat, fieldStart: nat, fieldLen: nat, queryStart: nat, bodyStart: nat,
    nread: nat, error: nat, request: Request)

  const INIT := Parser(Start, 0, 0, 0, 0, 0, 0, 0, FRESH.(version := 0x11, close := true))

  /** The marks from which a callback will still be given text lie in the part of the buffer that has
      been read. Between the lines, at the end of the head and after an error there are none. */
  predicate Marks(p: Parser, at: nat) {
    match p.cs
    case Method(_) => p.mark <= at
    case PathStart => p.mark <= at
    case Text(part, _) => p.mark <= at && (part.Query? ==> p.queryStart <= at)
    case QueryStart => p.mark <= at
    case FragmentStart => p.mark <= at
    case Version(seen) => seen > 0 ==> p.mark <= at
    case VersionEnd => p.mark <= at
    case Field => p.fieldStart <= at
    case ValueStart => p.fieldStart + p.fieldLen <= at
    case InValue => p.mark <= at && p.fieldStart + p.fieldLen <= at
    case _ => true
  }

  /** A call that begins inside a token is modelled if the token began at the very start of an earlier
      buffer, and one that begins between tokens always. */
  lemma InsideATokenIff(p: Parser)
    ensures p.cs.Method? || p.cs == PathStart || p.cs == QueryStart || p.cs == FragmentStart || p.cs == VersionEnd ==>
              (Marks(p, 0) <==> p.mark == 0)
    ensures p.cs.Text? ==> (Marks(p, 0) <==> p.mark == 0 && (p.cs.part == Query ==> p.queryStart == 0))
    ensures p.cs == Field ==> (Marks(p, 0) <==> p.fieldStart == 0)
    ensures p.cs == InValue ==> (Marks(p, 0) <==> p.mark == 0 && p.fieldStart == 0 && p.fieldLen == 0)
    ensures p.cs in [Start, Uri, Version(0), LineFeed, HeadStart, LastLineFeed, Done, Error, Outside] ==> Marks(p, 0)
  {
  }

  // ---- The callbacks ----

  /** The name is compared with the buffer from the mark on, not with the marked characters only. */
  function OnMethod(p: Parser, buffer: string): Parser
    requires p.mark <= |buffer|
  {
    var m := CharsToHttpMethod(buffer[p.mark..]);
    if m == METHODS then p.(error := 1000) else p.(request := p.request.(meth := m))
  }

  /** A name outside the table sets error 1000 and leaves the request as it is; a name of the table sets
      the method. */
  lemma UnknownMethodIff(p: Parser, buffer: string)
    requires p.mark <= |buffer|
    ensures var (q, chars) := (OnMethod(p, buffer), buffer[p.mark..]);
            if forall m | 0 <= m < 34 :: !(Name(m) <= chars)
            then q == p.(error := 1000)
            else exists m | 0 <= m < 34 && Name(m) <= chars :: q == p.(request := p.request.(meth := m))
  {
    hide Name, FirstMatch;
    MethodOf(0, buffer[p.mark..]);
  }

  function OnPath(p: Parser, at: string): Parser {
    p.(request := p.request.(path := at))
  }

  function OnQuery(p: Parser, at: string): Parser {
    p.(request := p.request.(query := at))
  }

  function OnFragment(p: Parser, at: string): Parser {
    p.(request := p.request.(fragment := at))
  }

  function OnVersion(p: Parser, at: string): Parser {
    if at == "HTTP/1.1" then p.(request := p.request.(version := 0x11))
    else if at == "HTTP/1.0" then p.(request := p.request.(version := 0x10))
    else p.(error := 1001)
  }

  function OnField(p: Parser, field: string, value: string): Parser {
    if field == "" then p.(error := 1002)
    else p.(request := p.request.(headers := Put(p.request.headers, field, value)))
  }

  /** Any version but the two sets error 1001, and a header without a name error 1002; the request then
      stays as it is. */
  lemma OddVersionAndName(p: Parser, text: string, name: string, value: string)
    ensures text == "HTTP/1.1" ==> OnVersion(p, text) == p.(request := p.request.(version := 17))
    ensures text == "HTTP/1.0" ==> OnVersion(p, text) == p.(request := p.request.(version := 16))
    ensures text != "HTTP/1.0" && text != "HTTP/1.1" ==> OnVersion(p, text) == p.(error := 1001)
    ensures OnField(p, name, value) == p.(error := 1002) || (name != [] && OnField(p, name, value).error == p.error)
    ensures OnField(p, [], value) == p.(error := 1002)
  {
  }

  // ---- Transitions ----

  function Goto(p: Parser, cs: State): Parser {
    p.(cs := cs)
  }

  /** What follows a stretch of the URI. */
  function Leave(p: Parser, buffer: string, at: nat): (q: Parser)
    requires at < |buffer| && p.cs.Text? && Marks(p, at)
    ensures Marks(q, at + 1) && q.nread == p.nread
  {
    var c := buffer[at];
    match p.cs.part
    case Fragment =>
      if c == ' ' then Goto(OnFragment(p, buffer[p.mark..at]), Version(0)) else Goto(p, Error)
    case Query =>
      var q := OnQuery(p, buffer[p.queryStart..at]);
      if c == ' ' then Goto(q, Version(0)) else if c == '#' then Goto(q, FragmentStart) else Goto(p, Error)
    case _ =>
      var q := OnPath(p, buffer[p.mark..at]);
      if c == ' ' then Goto(q, Version(0))
      else if c == '#' then Goto(q, FragmentStart)
      else if c == '?' then Goto(q, QueryStart)
      else Goto(p, if c == '/' then Text(Path, 0) else Error)
  }

  function InText(p: Parser, buffer: string, at: nat, relaxed: bool): (q: Parser)
    requires at < |buffer| && p.cs.Text? && Marks(p, at)
    ensures Marks(q, at + 1) && q.nread == p.nread
  {
    var (part, c) := (p.cs.part, buffer[at]);
    if p.cs.hex > 0 then Goto(p, if Hex(c) then Text(part, p.cs.hex - 1) else Error)
    else if c == '%' then Goto(p, Text(part, 2))
    else if UriChar(part, c, relaxed) then p
    else Leave(p, buffer, at)
  }

  /** The states of the request line. */
  predicate Line(cs: State) {
    cs.Start? || cs.Method? || cs.Uri? || cs.PathStart? || cs.Text? || cs.QueryStart? || cs.FragmentStart?
    || cs.Version? || cs.VersionEnd?
  }

  /** One character of the request line. */
  function InLine(p: Parser, buffer: string, at: nat, relaxed: bool): (q: Parser)
    requires at < |buffer| && Marks(p, at) && Line(p.cs)
    ensures Marks(q, at + 1) && q.nread == p.nread
  {
    var c := buffer[at];
    match p.cs
    case Start =>
      if MethodChar(c) then Goto(p.(mark := at), Method(1))
      else Goto(p, if c in "@<" then Outside else Error)
    case Method(count) =>
      if c == ' ' then Goto(OnMethod(p, buffer), Uri)
      else Goto(p, if MethodChar(c) && count < 20 then Method(count + 1) else Error)
    case Uri =>
      if c == '/' then Goto(p.(mark := at), PathStart)
      else if !Alpha(c) && (c == '%' || UriChar(Colonless, c, relaxed)) then
        InText(Goto(p.(mark := at), Text(Colonless, 0)), buffer, at, relaxed)
      else Goto(p, Outside)
    case PathStart =>
      if c == '/' then Goto(p, Outside) else InText(Goto(p, Text(Path, 0)), buffer, at, relaxed)
    case Text(_, _) => InText(p, buffer, at, relaxed)
    case QueryStart => InText(Goto(p.(queryStart := at), Text(Query, 0)), buffer, at, relaxed)
    case FragmentStart =>
      var begins := c == '%' || UriChar(Fragment, c, relaxed);
      InText(Goto(if begins then p.(mark := at) else p, Text(Fragment, 0)), buffer, at, relaxed)
    case Version(seen) =>
      if seen < 7 && c == "HTTP/1."[seen] then Goto(if seen == 0 then p.(mark := at) else p, Version(seen + 1))
      else Goto(p, if seen == 7 && c in "01" then VersionEnd else Error)
    case VersionEnd =>
      if c == '\r' then Goto(OnVersion(p, buffer[p.mark..at]), LineFeed)
      else if c == '\n' then Goto(OnVersion(p, buffer[p.mark..at]), HeadStart)
      else Goto(p, Error)
  }

  /** A character that does not fit; on control characters the two readings of the grammar's
      control class differ. */
  function Odd(c: char): State {
    if '\0' < c < ' ' then Outside else Error
  }

  /** One character of the header lines. */
  function InHeaders(p: Parser, buffer: string, at: nat): (q: Parser)
    requires at < |buffer| && Marks(p, at)
    ensures Marks(q, at + 1) && q.nread == p.nread
  {
    var c := buffer[at];
    match p.cs
    case LineFeed => Goto(p, if c == '\n' then HeadStart else Error)
    case HeadStart =>
      if c == '\r' then Goto(p, LastLineFeed)
      else if c == '\n' then Goto(p.(bodyStart := at + 1), Done)
      else if TokenChar(c) then Goto(p.(fieldStart := at), Field)
      else Goto(p, Odd(c))
    case Field =>
      if c == ':' then Goto(p.(fieldLen := at - p.fieldStart), ValueStart)
      else if TokenChar(c) then p
      else Goto(p, Odd(c))
    case ValueStart =>
      if Blank(c) then p.(mark := at)
      else if Control(c) then Goto(p, Odd(c))
      else Goto(p.(mark := at), InValue)
    case InValue =>
      var field := buffer[p.fieldStart..p.fieldStart + p.fieldLen];
      if c == '\r' then Goto(OnField(p, field, buffer[p.mark..at]), LineFeed)
      else if c == '\n' then Goto(OnField(p, field, buffer[p.mark..at]), HeadStart)
      else if Control(c) && c != '\t' then Goto(p, Odd(c))
      else p
    case LastLineFeed =>
      if c == '\n' then Goto(p.(bodyStart := at + 1), Done) else Goto(p, Outside)
    case _ => Goto(p, Error)
  }

  function Step(p: Parser, buffer: string, at: nat, relaxed: bool): (q: Parser)
    requires at < |buffer| && Marks(p, at)
    ensures Marks(q, at + 1) && q.nread == p.nread
  {
    if Line(p.cs) then InLine(p, buffer, at, relaxed) else InHeaders(p, buffer, at)
  }

  predicate Stuck(p: Parser) {
    p.cs.Error? || p.cs.Outside?
  }

  /** From `at` on, until the head is complete, the buffer ends, or a character does not fit;
      and where it stops. */
  function Run(p: Parser, buffer: string, at: nat, relaxed: bool): (r: (Parser, nat))
    requires at <= |buffer| && Marks(p, at)
    ensures at <= r.1 <= |buffer| && r.0.nread == p.nread
    decreases |buffer| - at
  {
    if Stuck(p) || at == |buffer| then (p, at)
    else
      var q := Step(p, buffer, at, relaxed);
      if Stuck(q) then (q, at)
      else if q.cs.Done? then (q, at + 1)
      else Run(q, buffer, at + 1, relaxed)
  }

  // ---- The object ----

  /** What a call of `execute` did: it returned that offset and moved the buffer down by it; or the
      count it keeps over all calls is past the end of this buffer; or it left what is modelled. A debug
      build stops at the machine's assertion on a count past the end. A release build compiles the
      assertion out (`CMakeLists.txt:24`), and `memmove` is then given the wrapped difference
      `len - offset`. */
  datatype Outcome = Consumed(offset: nat) | PastEnd(offset: nat) | NotModelled

  /** How many characters a call goes over. An empty buffer is not looked at. */
  function Length(p: Parser, buffer: string, relaxed: bool): nat {
    if buffer == [] || !Marks(p, 0) then 0 else Run(p, buffer, 0, relaxed).1
  }

  /** The state after a call. */
  function Called(p: Parser, buffer: string, relaxed: bool): Parser {
    if buffer == [] || !Marks(p, 0) then p
    else
      var (q, n) := Run(p, buffer, 0, relaxed);
      q.(nread := p.nread + n)
  }

  /** The answer of a call: the offset is the count over all calls. */
  function Answer(p: Parser, buffer: string, relaxed: bool): Outcome {
    if buffer == [] then Consumed(0)
    else if !Marks(p, 0) || Called(p, buffer, relaxed).cs.Outside? then NotModelled
    else if Called(p, buffer, relaxed).nread <= |buffer| then Consumed(Called(p, buffer, relaxed).nread)
    else PastEnd(Called(p, buffer, relaxed).nread)
  }

  /** The state after calls on these buffers, and how many characters they went over. */
  function AfterCalls(p: Parser, buffers: seq<string>, relaxed: bool): Parser
    decreases |buffers|
  {
    if buffers == [] then p else AfterCalls(Called(p, buffers[0], relaxed), buffers[1..], relaxed)
  }

  function TotalLength(p: Parser, buffers: seq<string>, relaxed: bool): nat
    decreases |buffers|
  {
    if buffers == [] then 0
    else Length(p, buffers[0], relaxed) + TotalLength(Called(p, buffers[0], relaxed), buffers[1..], relaxed)
  }

  lemma {:induction false} CountIsTotal(p: Parser, buffers: seq<string>, relaxed: bool)
    ensures AfterCalls(p, buffers, relaxed).nread == p.nread + TotalLength(p, buffers, relaxed)
    decreases |buffers|
  {
    if buffers != [] {
      CountIsTotal(Called(p, buffers[0], relaxed), buffers[1..], relaxed);
    }
  }

  /** `execute` is documented to return the length that it parsed and to remove that much. From any
      state it does so exactly when the count is zero. */
  lemma OffsetIsLengthIff(p: Parser, buffer: string, relaxed: bool)
    requires buffer != [] && Marks(p, 0) && !Called(p, buffer, relaxed).cs.Outside?
    ensures Answer(p, buffer, relaxed) == Consumed(Length(p, buffer, relaxed)) <==> p.nread == 0
  {
    hide Run, Marks;
  }

  /** All these calls come back. */
  predicate Return(p: Parser, buffers: seq<string>, relaxed: bool)
    decreases |buffers|
  {
    buffers == [] ||
    (Answer(p, buffers[0], relaxed).Consumed? && Return(Called(p, buffers[0], relaxed), buffers[1..], relaxed))
  }

  /** So after any calls on a new parser the next one is as documented exactly when none of them went
      over any character: the first call that reads something is right, and every one after it is
      wrong. */
  lemma {:induction false} OnlyFirstReadIsRight(buffers: seq<string>, buffer: string, relaxed: bool)
    requires Return(INIT, buffers, relaxed)
    requires var p := AfterCalls(INIT, buffers, relaxed);
             buffer != [] && Marks(p, 0) && !Called(p, buffer, relaxed).cs.Outside?
    ensures var p := AfterCalls(INIT, buffers, relaxed);
            Answer(p, buffer, relaxed) == Consumed(Length(p, buffer, relaxed)) <==>
            TotalLength(INIT, buffers, relaxed) == 0
  {
    hide Run, Marks, Called, Answer, Length, Return;
    CountIsTotal(INIT, buffers, relaxed);
    OffsetIsLengthIff(AfterCalls(INIT, buffers, relaxed), buffer, relaxed);
  }

  /** After a complete head another call reads nothing and puts the machine into its error state. It
      returns the count so far, so that many characters are dropped unread; if there are fewer, the
      count is past the end. */
  lemma AfterCompleteHead(p: Parser, buffer: string, relaxed: bool)
    requires buffer != [] && p.cs.Done?
    ensures Called(p, buffer, relaxed) == Goto(p, Error) && Length(p, buffer, relaxed) == 0
    ensures Answer(p, buffer, relaxed) == if p.nread <= |buffer| then Consumed(p.nread) else PastEnd(p.nread)
  {
  }

  class HttpRequestParser {
    var cs: State
    var mark: nat
    var field_start: nat
    var field_len: nat
    var query_start: nat
    var body_start: nat
    var nread: nat
    var uri_relaxed: bool
    var m_error: nat
    const m_data: HttpRequest

    function View(): Parser
      reads this, m_data
    {
      Parser(cs, mark, field_start, field_len, query_start, body_start, nread, m_error, m_data.Value())
    }

    ghost predicate Valid()
      reads this, m_data
    {
      Sorted(m_data.m_headers)
    }

    /** `http_parser_init` does not set `uri_relaxed`; here it is a parameter. */
    constructor (relaxed: bool)
      ensures Valid() && View() == INIT && uri_relaxed == relaxed && fresh(m_data)
    {
      cs, mark, field_start, field_len, query_start, body_start, nread := Start, 0, 0, 0, 0, 0, 0;
      uri_relaxed, m_error := relaxed, 0;
      m_data := new HttpRequest(0x11, true);
    }

    method OnRequestMethod(buffer: string)
      requires Valid() && mark <= |buffer|
      modifies this`m_error, m_data`m_method
      ensures Valid() && View() == OnMethod(old(View()), buffer)
    {
      var m := CharsToHttpMethod(buffer[mark..]);
      if m == METHODS {
        m_error := 1000;
        return;
      }
      m_data.m_method := m;
    }

    method OnRequestVersion(at: string)
      requires Valid()
      modifies this`m_error, m_data`m_version
      ensures Valid() && View() == OnVersion(old(View()), at)
    {
      var v := 0;
      if at == "HTTP/1.1" {
        v := 0x11;
      } else if at == "HTTP/1.0" {
        v := 0x10;
      } else {
        m_error := 1001;
        return;
      }
      m_data.m_version := v;
    }

    method OnHttpField(field: string, value: string)
      requires Valid()
      modifies this`m_error, m_data`m_headers
      ensures Valid() && View() == OnField(old(View()), field, value)
    {
      if |field| == 0 {
        m_error := 1002;
        return;
      }
      m_data.SetHeader(field, value);
    }

    /** The end of a stretch of the URI. */
    method LeaveText(buffer: string, at: nat)
      requires Valid() && at < |buffer| && cs.Text? && Marks(View(), at)
      modifies this, m_data
      ensures Valid() && View() == Leave(old(View()), buffer, at) && uri_relaxed == old(uri_relaxed)
    {
      var c := buffer[at];
      if cs.part == Fragment && c == ' ' {
        m_data.m_fragment := buffer[mark..at];
      } else if cs.part == Query && (c == ' ' || c == '#') {
        m_data.m_query := buffer[query_start..at];
      } else if (cs.part == Path || cs.part == Colonless) && (c == ' ' || c == '#' || c == '?') {
        m_data.m_path := buffer[mark..at];
      }
      if c == ' ' {
        cs := Version(0);
      } else if c == '#' && cs.part != Fragment {
        cs := FragmentStart;
      } else if c == '?' && (cs.part == Path || cs.part == Colonless) {
        cs := QueryStart;
      } else if c == '/' && (cs.part == Path || cs.part == Colonless) {
        cs := Text(Path, 0);
      } else {
        cs := Error;
      }
    }

    method ReadText(buffer: string, at: nat)
      requires Valid() && at < |buffer| && cs.Text? && Marks(View(), at)
      modifies this, m_data
      ensures Valid() && View() == InText(old(View()), buffer, at, uri_relaxed) && uri_relaxed == old(uri_relaxed)
    {
      var c := buffer[at];
      if cs.hex > 0 {
        cs := if Hex(c) then Text(cs.part, cs.hex - 1) else Error;
      } else if c == '%' {
        cs := Text(cs.part, 2);
      } else if !UriChar(cs.part, c, uri_relaxed) {
        LeaveText(buffer, at);
      }
    }

    method ReadLine(buffer: string, at: nat)
      requires Valid() && at < |buffer| && Marks(View(), at) && Line(cs)
      modifies this, m_data
      ensures Valid() && View() == InLine(old(View()), buffer, at, uri_relaxed) && uri_relaxed == old(uri_relaxed)
    {
      var c := buffer[at];
      match cs {
        case Start =>
          if MethodChar(c) {
            mark, cs := at, Method(1);
          } else {
            cs := if c in "@<" then Outside else Error;
          }
        case Method(count) =>
          if c == ' ' {
            OnRequestMethod(buffer);
            cs := Uri;
          } else {
            cs := if MethodChar(c) && count < 20 then Method(count + 1) else Error;
          }
        case Uri =>
          if c == '/' {
            mark, cs := at, PathStart;
          } else if !Alpha(c) && (c == '%' || UriChar(Colonless, c, uri_relaxed)) {
            mark, cs := at, Text(Colonless, 0);
            ReadText(buffer, at);
          } else {
            cs := Outside;
          }
        case PathStart =>
          if c == '/' {
            cs := Outside;
          } else {
            cs := Text(Path, 0);
            ReadText(buffer, at);
          }
        case Text(_, _) => ReadText(buffer, at);
        case QueryStart =>
          query_start, cs := at, Text(Query, 0);
          ReadText(buffer, at);
        case FragmentStart =>
          if c == '%' || UriChar(Fragment, c, uri_relaxed) {
            mark := at;
          }
          cs := Text(Fragment, 0);
          ReadText(buffer, at);
        case Version(seen) =>
          if seen < 7 && c == "HTTP/1."[seen] {
            if seen == 0 {
              mark := at;
            }
            cs := Version(seen + 1);
          } else {
            cs := if seen == 7 && c in "01" then VersionEnd else Error;
          }
        case VersionEnd =>
          if c == '\r' || c == '\n' {
            OnRequestVersion(buffer[mark..at]);
            cs := if c == '\r' then LineFeed else HeadStart;
          } else {
            cs := Error;
          }
      }
    }

    method ReadHeaders(buffer: string, at: nat)
      requires Valid() && at < |buffer| && Marks(View(), at) && !Line(cs)
      modifies this, m_data
      ensures Valid() && View() == InHeaders(old(View()), buffer, at) && uri_relaxed == old(uri_relaxed)
    {
      hide TokenChar, Control, Blank, Odd, Put, HttpRequests.Sorted;
      var c := buffer[at];
      match cs {
        case LineFeed => cs := if c == '\n' then HeadStart else Error;
        case HeadStart =>
          if c == '\r' {
            cs := LastLineFeed;
          } else if c == '\n' {
            body_start, cs := at + 1, Done;
          } else if TokenChar(c) {
            field_start, cs := at, Field;
          } else {
            cs := Odd(c);
          }
        case Field =>
          if c == ':' {
            field_len, cs := at - field_start, ValueStart;
          } else if !TokenChar(c) {
            cs := Odd(c);
          }
        case ValueStart =>
          if Blank(c) {
            mark := at;
          } else if Control(c) {
            cs := Odd(c);
          } else {
            mark, cs := at, InValue;
          }
        case InValue =>
          if c == '\r' || c == '\n' {
            OnHttpField(buffer[field_start..field_start + field_len], buffer[mark..at]);
            cs := if c == '\r' then LineFeed else HeadStart;
          } else if Control(c) && c != '\t' {
            cs := Odd(c);
          }
        case LastLineFeed =>
          if c == '\n' {
            body_start, cs := at + 1, Done;
          } else {
            cs := Outside;
          }
        case Done => cs := Error;
        case Error =>
        case Outside => cs := Error;
      }
    }

    /** `http_parser_execute` from offset 0: how many characters it went over in this call. */
    method Advance(buffer: string) returns (p: nat)
      requires Valid() && Marks(View(), 0)
      modifies this, m_data
      ensures Valid() && uri_relaxed == old(uri_relaxed)
      ensures (View(), p) == Run(old(View()), buffer, 0, uri_relaxed)
    {
      hide InLine, InHeaders;
      p := 0;
      while p != |buffer| && !Stuck(View())
        invariant 0 <= p <= |buffer| && Valid() && uri_relaxed == old(uri_relaxed)
        invariant Marks(View(), p)
        invariant Run(View(), buffer, p, uri_relaxed) == Run(old(View()), buffer, 0, uri_relaxed)
        decreases |buffer| - p
      {
        if Line(cs) {
          ReadLine(buffer, p);
        } else {
          ReadHeaders(buffer, p);
        }
        if cs.Error? || cs.Outside? {
          return;
        }
        p := p + 1;
        if cs.Done? {
          return;
        }
      }
    }

    /** `execute`: run the machine over the buffer, then move the buffer down by the offset. The count
        `nread` runs over all calls, and so does the offset it returns. */
    method Execute(data: array<char>, len: nat) returns (r: Outcome)
      requires Valid() && len <= data.Length
      modifies this, m_data, data
      ensures Valid() && uri_relaxed == old(uri_relaxed)
      ensures View() == Called(old(View()), old(data[..len]), uri_relaxed)
      ensures r == Answer(old(View()), old(data[..len]), uri_relaxed)
      ensures if r.Consumed? then data[..len - r.offset] == old(data[r.offset..len])
                                  && data[len - r.offset..] == old(data[len - r.offset..])
              else data[..] == old(data[..])
    {
      if len == 0 {
        return Consumed(0);
      }
      if !Marks(View(), 0) {
        return NotModelled;
      }
      var n := Advance(data[..len]);
      nread := nread + n;
      if cs.Outside? {
        return NotModelled;
      }
      if nread > len {
        return PastEnd(nread);
      }
      MoveDown(data, nread, len);
      return Consumed(nread);
    }

    /** `getContentLength`: a printed number under the name, in any spelling, comes back, and an answer
        other than 0 means that there is such a header. */
    method GetContentLength() returns (n: nat)
      requires Valid()
      ensures n == LengthHeader(m_data.m_headers) < U64
      ensures forall k: nat | k < U64 && Find(m_data.m_headers, "content-length") == Some(Decimal(k)) :: n == k
      ensures n > 0 ==> exists i :: 0 <= i < |m_data.m_headers| && Same(m_data.m_headers[i].name, "content-length")
                                    && IsDigits(m_data.m_headers[i].value) && Number(m_data.m_headers[i].value) == n
    {
      n := LengthHeader(m_data.m_headers);
      LengthMeaning(m_data.m_headers, 0, 0);
      forall k: nat | k < U64 && Find(m_data.m_headers, "content-length") == Some(Decimal(k))
        ensures n == k
      {
        DecimalRoundTrip(k);
      }
    }
  }

  /** `memmove(data, data + offset, len - offset)` */
  method MoveDown(data: array<char>, offset: nat, len: nat)
    requires offset <= len <= data.Length
    modifies data
    ensures data[..len - offset] == old(data[offset..len])
    ensures data[len - offset..] == old(data[len - offset..])
  {
    var i := 0;
    ghost var was := data[..];
    while i != len - offset
      invariant 0 <= i <= len - offset
      invariant forall k | 0 <= k < i :: data[k] == was[offset + k]
      invariant forall k | i <= k < data.Length :: data[k] == was[k]
    {
      data[i] := data[offset + i];
      i := i + 1;
    }
    assert data[..len - offset] == was[offset..len];
    assert data[len - offset..] == was[len - offset..];
  }
}
