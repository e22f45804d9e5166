/** What the printer writes, the parser reads back. */
module HttpRoundTrip {
  import opened Collections
  import opened HttpRequests
  import opened HttpParsers
  import opened HttpReference

  // ---- The requests the statement is about ----

  /** Characters of that part of a URI, percent triplets included (section 2.1 of RFC 3986). */
  predicate UriText(part: Part, s: string, relaxed: bool)
    decreases |s|
  {
    || s == []
    || (UriChar(part, s[0], relaxed) && UriText(part, s[1..], relaxed))
    || (|s| >= 3 && s[0] == '%' && Hex(s[1]) && Hex(s[2]) && UriText(part, s[3..], relaxed))
  }

  /** `path-absolute` of section 3.3 of RFC 3986 */
  predicate AbsolutePath(s: string, relaxed: bool) {
    |s| >= 1 && s[0] == '/' && (|s| > 1 ==> s[1] != '/') && UriText(Path, s[1..], relaxed)
  }

  predicate Token(s: string) {
    s != [] && forall k | 0 <= k < |s| :: TokenChar(s[k])
  }

  predicate FieldValue(s: string) {
    s != [] && !Blank(s[0]) && forall k | 0 <= k < |s| :: !Control(s[k])
  }

  predicate Printable(r: Request, relaxed: bool) {
    && r.meth < METHODS && r.meth != MSEARCH
    && AbsolutePath(r.path, relaxed) && UriText(Query, r.query, relaxed) && UriText(Fragment, r.fragment, relaxed)
    && r.version in {0x10, 0x11}
    && Sorted(r.headers)
    && forall k | 0 <= k < |r.headers| :: Token(r.headers[k].name) && FieldValue(r.headers[k].value)
  }

  // ---- Runs ----

  predicate At(buffer: string, i: nat, s: string) {
    i + |s| <= |buffer| && buffer[i..i + |s|] == s
  }

  lemma AtSplit(buffer: string, i: nat, a: string, b: string)
    requires At(buffer, i, a + b)
    ensures At(buffer, i, a) && At(buffer, i + |a|, b)
  {
    assert (a + b)[..|a|] == a && (a + b)[|a|..] == b;
  }

  lemma AtChar(buffer: string, i: nat, s: string, k: nat)
    requires At(buffer, i, s) && k < |s|
    ensures i + k < |buffer| && buffer[i + k] == s[k]
  {
    assert buffer[i..i + |s|][k] == s[k];
  }

  lemma Next(p: Parser, q: Parser, buffer: string, i: nat, relaxed: bool)
    requires i < |buffer| && Marks(p, i) && Live(p) && Step(p, buffer, i, relaxed) == q && Live(q)
    ensures Run(p, buffer, i, relaxed) == Run(q, buffer, i + 1, relaxed)
  {
  }

  lemma {:induction false} Stop(p: Parser, buffer: string, i: nat, relaxed: bool)
    requires i < |buffer| && Marks(p, i) && Live(p) && Step(p, buffer, i, relaxed).cs == Error
    ensures Run(p, buffer, i, relaxed) == (Step(p, buffer, i, relaxed), i)
  {
  }

  // ---- The method ----

  lemma NameChars(m: nat)
    requires m < METHODS && m != MSEARCH
    ensures 1 <= |Name(m)| <= 20 && forall k | 0 <= k < |Name(m)| :: MethodChar(Name(m)[k])
  {
  }

  lemma MethodPart(p: Parser, buffer: string, i: nat, m: nat, relaxed: bool)
    requires m < METHODS && m != MSEARCH && p.cs == Start && Marks(p, i) && At(buffer, i, Name(m) + " ")
    ensures Run(p, buffer, i, relaxed) ==
            Run(p.(cs := Uri, mark := i, request := p.request.(meth := m)), buffer, i + |Name(m)| + 1, relaxed)
  {
    hide Run, Name, FirstMatch;
    var n := |Name(m)|;
    NameChars(m);
    AtSplit(buffer, i, Name(m), " ");
    forall k | i <= k < i + n
      ensures MethodChar(buffer[k])
    {
      AtChar(buffer, i, Name(m), k - i);
    }
    AtChar(buffer, i + n, " ", 0);
    var p1 := p.(mark := i, cs := Method(1));
    Next(p, p1, buffer, i, relaxed);
    MethodRead(p1, buffer, i + 1, i + n, relaxed);
    assert buffer[i..][..n] == Name(m);
    NamesAreDistinct(m, 0, buffer[i..]);
    var p2 := p1.(cs := Method(n));
    Next(p2, OnMethod(p2, buffer).(cs := Uri), buffer, i + n, relaxed);
  }

  // ---- The URI ----

  lemma Triplet(p: Parser, buffer: string, i: nat, relaxed: bool)
    requires p.cs.Text? && p.cs.hex == 0 && Marks(p, i) && i + 3 <= |buffer|
    requires buffer[i] == '%' && Hex(buffer[i + 1]) && Hex(buffer[i + 2])
    ensures Run(p, buffer, i, relaxed) == Run(p, buffer, i + 3, relaxed)
  {
    hide Run, Hex, UriChar;
    var (p1, p2) := (Goto(p, Text(p.cs.part, 2)), Goto(p, Text(p.cs.part, 1)));
    Next(p, p1, buffer, i, relaxed);
    Next(p1, p2, buffer, i + 1, relaxed);
    Next(p2, p, buffer, i + 2, relaxed);
  }

  lemma OneChar(p: Parser, buffer: string, i: nat, relaxed: bool)
    requires p.cs.Text? && p.cs.hex == 0 && Marks(p, i) && i < |buffer|
    requires UriChar(p.cs.part, buffer[i], relaxed)
    ensures Run(p, buffer, i, relaxed) == Run(p, buffer, i + 1, relaxed)
  {
    hide Run;
    Next(p, p, buffer, i, relaxed);
  }

  lemma {:induction false} TextLoop(p: Parser, buffer: string, i: nat, s: string, relaxed: bool)
    requires p.cs.Text? && p.cs.hex == 0 && Marks(p, i) && At(buffer, i, s) && UriText(p.cs.part, s, relaxed)
    ensures Run(p, buffer, i, relaxed) == Run(p, buffer, i + |s|, relaxed)
    decreases |s|
  {
    hide Run, Hex, UriChar;
    if s != [] {
      AtChar(buffer, i, s, 0);
      if UriChar(p.cs.part, s[0], relaxed) && UriText(p.cs.part, s[1..], relaxed) {
        OneChar(p, buffer, i, relaxed);
        assert buffer[i + 1..i + |s|] == s[1..];
        TextLoop(p, buffer, i + 1, s[1..], relaxed);
      } else {
        AtChar(buffer, i, s, 1);
        AtChar(buffer, i, s, 2);
        Triplet(p, buffer, i, relaxed);
        assert buffer[i + 3..i + |s|] == s[3..];
        TextLoop(p, buffer, i + 3, s[3..], relaxed);
      }
    }
  }

  lemma PathPart(p: Parser, buffer: string, i: nat, path: string, relaxed: bool)
    requires p.cs == Uri && Marks(p, i) && AbsolutePath(path, relaxed)
    requires At(buffer, i, path) && i + |path| < |buffer| && buffer[i + |path|] in " ?#"
    ensures Run(p, buffer, i, relaxed) == Run(p.(cs := Text(Path, 0), mark := i), buffer, i + |path|, relaxed)
  {
    hide Run;
    AtChar(buffer, i, path, 0);
    var (p1, p2) := (p.(cs := PathStart, mark := i), p.(cs := Text(Path, 0), mark := i));
    Next(p, p1, buffer, i, relaxed);
    assert path[1..] == buffer[i + 1..i + |path|];
    if |path| > 1 {
      AtChar(buffer, i, path, 1);
      TextStart(Path, path[1..], relaxed);
    }
    hide UriText, UriChar;
    PathOpens(p1, buffer, i + 1, relaxed);
    TextLoop(p2, buffer, i + 1, path[1..], relaxed);
  }

  /** A path goes on with a character that is no second slash, or ends at once. */
  lemma {:induction false} PathOpens(p: Parser, buffer: string, i: nat, relaxed: bool)
    requires p.cs == PathStart && i < |buffer| && Marks(p, i) && buffer[i] != '/'
    requires buffer[i] == '%' || UriChar(Path, buffer[i], relaxed) || buffer[i] in " ?#"
    ensures Run(p, buffer, i, relaxed) == Run(p.(cs := Text(Path, 0)), buffer, i, relaxed)
  {
    hide Run, UriChar;
    Alike(p, p.(cs := Text(Path, 0)), buffer, i, relaxed);
  }

  lemma {:induction false} TextStart(part: Part, s: string, relaxed: bool)
    requires s != [] && UriText(part, s, relaxed)
    ensures s[0] == '%' || UriChar(part, s[0], relaxed)
  {
  }

  lemma {:induction false} QueryOpens(p: Parser, buffer: string, i: nat, relaxed: bool)
    requires p.cs == QueryStart && i < |buffer| && Marks(p, i)
    requires buffer[i] == '%' || UriChar(Query, buffer[i], relaxed)
    ensures Run(p, buffer, i, relaxed) == Run(p.(cs := Text(Query, 0), queryStart := i), buffer, i, relaxed)
  {
    hide Run;
    Alike(p, p.(cs := Text(Query, 0), queryStart := i), buffer, i, relaxed);
  }

  lemma {:induction false} FragmentOpens(p: Parser, buffer: string, i: nat, relaxed: bool)
    requires p.cs == FragmentStart && i < |buffer| && Marks(p, i)
    requires buffer[i] == '%' || UriChar(Fragment, buffer[i], relaxed)
    ensures Run(p, buffer, i, relaxed) == Run(p.(cs := Text(Fragment, 0), mark := i), buffer, i, relaxed)
  {
    hide Run;
    Alike(p, p.(cs := Text(Fragment, 0), mark := i), buffer, i, relaxed);
  }

  lemma EndOfPath(p: Parser, buffer: string, i: nat, relaxed: bool)
    requires p.cs == Text(Path, 0) && i < |buffer| && Marks(p, i) && buffer[i] == '?'
    ensures Run(p, buffer, i, relaxed) ==
            Run(OnPath(p, buffer[p.mark..i]).(cs := QueryStart), buffer, i + 1, relaxed)
  {
    hide Run;
    Next(p, OnPath(p, buffer[p.mark..i]).(cs := QueryStart), buffer, i, relaxed);
  }

  /** A `#` ends the path or the query. */
  lemma Hash(p: Parser, buffer: string, i: nat, relaxed: bool)
    requires p.cs == Text(Path, 0) || p.cs == Text(Query, 0)
    requires i < |buffer| && Marks(p, i) && buffer[i] == '#'
    ensures Leave(p, buffer, i).cs == FragmentStart
    ensures Run(p, buffer, i, relaxed) == Run(Leave(p, buffer, i), buffer, i + 1, relaxed)
  {
    hide Run;
    Next(p, Leave(p, buffer, i), buffer, i, relaxed);
  }

  lemma QueryPart(p: Parser, buffer: string, i: nat, query: string, relaxed: bool)
    requires p.cs == Text(Path, 0) && Marks(p, i) && query != [] && UriText(Query, query, relaxed)
    requires At(buffer, i, "?" + query)
    ensures Run(p, buffer, i, relaxed) ==
            Run(OnPath(p, buffer[p.mark..i]).(cs := Text(Query, 0), queryStart := i + 1),
                buffer, i + 1 + |query|, relaxed)
  {
    hide Run, UriText, UriChar;
    AtSplit(buffer, i, "?", query);
    AtChar(buffer, i, "?", 0);
    AtChar(buffer, i + 1, query, 0);
    TextStart(Query, query, relaxed);
    EndOfPath(p, buffer, i, relaxed);
    var p1 := OnPath(p, buffer[p.mark..i]).(cs := QueryStart);
    QueryOpens(p1, buffer, i + 1, relaxed);
    TextLoop(p1.(cs := Text(Query, 0), queryStart := i + 1), buffer, i + 1, query, relaxed);
  }

  lemma FragmentPart(p: Parser, buffer: string, i: nat, fragment: string, relaxed: bool)
    requires p.cs == Text(Path, 0) || p.cs == Text(Query, 0)
    requires Marks(p, i) && fragment != [] && UriText(Fragment, fragment, relaxed)
    requires At(buffer, i, "#" + fragment)
    ensures buffer[i] == '#'
    ensures Run(p, buffer, i, relaxed) ==
            Run(Leave(p, buffer, i).(cs := Text(Fragment, 0), mark := i + 1), buffer, i + 1 + |fragment|, relaxed)
  {
    hide Run, UriText, UriChar, Leave;
    AtSplit(buffer, i, "#", fragment);
    AtChar(buffer, i, "#", 0);
    AtChar(buffer, i + 1, fragment, 0);
    TextStart(Fragment, fragment, relaxed);
    Hash(p, buffer, i, relaxed);
    var p1 := Leave(p, buffer, i);
    FragmentOpens(p1, buffer, i + 1, relaxed);
    TextLoop(p1.(cs := Text(Fragment, 0), mark := i + 1), buffer, i + 1, fragment, relaxed);
  }

  /** The request, once the stretch being read ends at `i`. */
  function Closed(p: Parser, buffer: string, i: nat): Request
    requires p.cs.Text? && Marks(p, i) && i <= |buffer|
  {
    match p.cs.part
    case Query => OnQuery(p, buffer[p.queryStart..i]).request
    case Fragment => OnFragment(p, buffer[p.mark..i]).request
    case _ => OnPath(p, buffer[p.mark..i]).request
  }

  lemma OptionalQuery(p: Parser, buffer: string, i: nat, r: Request, relaxed: bool) returns (q: Parser)
    requires p.cs == Text(Path, 0) && Marks(p, i) && p.request.query == []
    requires UriText(Query, r.query, relaxed) && At(buffer, i, QueryText(r))
    ensures var k := i + |QueryText(r)|;
            && (q.cs == Text(Path, 0) || q.cs == Text(Query, 0)) && Marks(q, k) && q.error == p.error
            && Closed(q, buffer, k) == Closed(p, buffer, i).(query := r.query)
            && Run(p, buffer, i, relaxed) == Run(q, buffer, k, relaxed)
  {
    hide Run, UriText;
    q := p;
    if r.query != [] {
      QueryPart(p, buffer, i, r.query, relaxed);
      AtSplit(buffer, i, "?", r.query);
      q := OnPath(p, buffer[p.mark..i]).(cs := Text(Query, 0), queryStart := i + 1);
    }
  }

  lemma OptionalFragment(p: Parser, buffer: string, i: nat, r: Request, relaxed: bool) returns (q: Parser)
    requires p.cs == Text(Path, 0) || p.cs == Text(Query, 0)
    requires Marks(p, i) && p.request.fragment == [] && i <= |buffer|
    requires UriText(Fragment, r.fragment, relaxed) && At(buffer, i, FragmentText(r))
    ensures var k := i + |FragmentText(r)|;
            && q.cs.Text? && q.cs.hex == 0 && Marks(q, k) && q.error == p.error
            && Closed(q, buffer, k) == Closed(p, buffer, i).(fragment := r.fragment)
            && Run(p, buffer, i, relaxed) == Run(q, buffer, k, relaxed)
  {
    hide Run, UriText;
    q := p;
    if r.fragment != [] {
      FragmentPart(p, buffer, i, r.fragment, relaxed);
      AtSplit(buffer, i, "#", r.fragment);
      q := Leave(p, buffer, i).(cs := Text(Fragment, 0), mark := i + 1);
    }
  }

  lemma EndOfUri(p: Parser, buffer: string, i: nat, relaxed: bool)
    requires p.cs.Text? && p.cs.hex == 0 && Marks(p, i) && At(buffer, i, " ")
    ensures Run(p, buffer, i, relaxed) ==
            Run(p.(cs := Version(0), request := Closed(p, buffer, i)), buffer, i + 1, relaxed)
  {
    hide Run;
    AtChar(buffer, i, " ", 0);
    Next(p, p.(cs := Version(0), request := Closed(p, buffer, i)), buffer, i, relaxed);
  }

  lemma TargetEnd(buffer: string, i: nat, r: Request)
    requires At(buffer, i, QueryText(r)) && At(buffer, i + |QueryText(r)|, FragmentText(r) + " ")
    ensures i < |buffer| && buffer[i] in " ?#"
  {
    var (t, u) := (QueryText(r), FragmentText(r) + " ");
    assert t != [] ==> t[0] == '?';
    assert u[0] == '#' || u[0] == ' ';
    if t != [] {
      AtChar(buffer, i, t, 0);
    } else {
      AtChar(buffer, i, u, 0);
    }
  }

  lemma UriPieces(buffer: string, i: nat, r: Request)
    requires At(buffer, i, r.path + QueryText(r) + FragmentText(r) + " ")
    ensures var (t, u) := (QueryText(r), FragmentText(r));
            && At(buffer, i, r.path) && At(buffer, i + |r.path|, t) && At(buffer, i + |r.path| + |t|, u)
            && At(buffer, i + |r.path| + |t| + |u|, " ")
            && i + |r.path| < |buffer| && buffer[i..i + |r.path|] == r.path && buffer[i + |r.path|] in " ?#"
            && i + |r.path| + |t| + |u| < |buffer|
  {
    hide QueryText, FragmentText;
    var (t, u) := (QueryText(r), FragmentText(r));
    Associative(r.path + t, u, " ");
    AtSplit(buffer, i, r.path + t, u + " ");
    AtSplit(buffer, i, r.path, t);
    AtSplit(buffer, i + |r.path| + |t|, u, " ");
    hide At;
    TargetEnd(buffer, i + |r.path|, r);
    AtChar(buffer, i + |r.path| + |t| + |u|, " ", 0);
  }

  lemma UriStretch(p: Parser, buffer: string, i: nat, r: Request, relaxed: bool) returns (q: Parser)
    requires p.cs == Uri && Marks(p, i) && p.request.query == [] && p.request.fragment == []
    requires AbsolutePath(r.path, relaxed) && UriText(Query, r.query, relaxed) && UriText(Fragment, r.fragment, relaxed)
    requires i <= |buffer| && At(buffer, i, r.path + QueryText(r) + FragmentText(r) + " ")
    ensures var e := i + |r.path| + |QueryText(r)| + |FragmentText(r)|;
            && e < |buffer| && q.cs.Text? && q.cs.hex == 0 && Marks(q, e) && q.error == p.error
            && Closed(q, buffer, e) == p.request.(path := r.path, query := r.query, fragment := r.fragment)
            && Run(p, buffer, i, relaxed) == Run(q, buffer, e, relaxed)
  {
    hide Run, At, AbsolutePath, UriText, QueryText, FragmentText;
    UriPieces(buffer, i, r);
    var (j, k) := (i + |r.path|, i + |r.path| + |QueryText(r)|);
    PathPart(p, buffer, i, r.path, relaxed);
    var p1 := p.(cs := Text(Path, 0), mark := i);
    assert Closed(p1, buffer, j) == p.request.(path := r.path);
    hide Closed;
    var p2 := OptionalQuery(p1, buffer, j, r, relaxed);
    q := OptionalFragment(p2, buffer, k, r, relaxed);
  }

  /** The URI and the blank after it set path, query and fragment. */
  lemma UriPart(p: Parser, buffer: string, i: nat, r: Request, relaxed: bool) returns (q: Parser)
    requires p.cs == Uri && Marks(p, i) && p.request.query == [] && p.request.fragment == []
    requires AbsolutePath(r.path, relaxed) && UriText(Query, r.query, relaxed) && UriText(Fragment, r.fragment, relaxed)
    requires At(buffer, i, r.path + QueryText(r) + FragmentText(r) + " ")
    ensures var end := i + |r.path| + |QueryText(r)| + |FragmentText(r)| + 1;
            && Marks(q, end) && end <= |buffer| && q.cs == Version(0) && q.error == p.error
            && q.request == p.request.(path := r.path, query := r.query, fragment := r.fragment)
            && Run(p, buffer, i, relaxed) == Run(q, buffer, end, relaxed)
  {
    hide Run, AbsolutePath, UriText, QueryText, FragmentText, Closed;
    UriPieces(buffer, i, r);
    var e := i + |r.path| + |QueryText(r)| + |FragmentText(r)|;
    var p1 := UriStretch(p, buffer, i, r, relaxed);
    EndOfUri(p1, buffer, e, relaxed);
    q := p1.(cs := Version(0), request := Closed(p1, buffer, e));
  }

  // ---- The version ----

  lemma {:induction false} VersionLoop(p: Parser, buffer: string, i: nat, seen: nat, relaxed: bool)
    requires 1 <= seen <= 7 && p.cs == Version(seen) && Marks(p, i + seen) && At(buffer, i, "HTTP/1.")
    ensures Run(p, buffer, i + seen, relaxed) == Run(p.(cs := Version(7)), buffer, i + 7, relaxed)
    decreases 7 - seen
  {
    hide Run;
    if seen < 7 {
      AtChar(buffer, i, "HTTP/1.", seen);
      Next(p, p.(cs := Version(seen + 1)), buffer, i + seen, relaxed);
      VersionLoop(p.(cs := Version(seen + 1)), buffer, i, seen + 1, relaxed);
    }
  }

  /** The digit, the callback and the end of the line. */
  lemma VersionTail(p: Parser, buffer: string, i: nat, digit: char, relaxed: bool)
    requires p.cs == Version(7) && p.mark == i && Marks(p, i) && digit in "01"
    requires At(buffer, i, "HTTP/1." + [digit]) && At(buffer, i + 8, "\r\n") && buffer[i + 7] == digit
    ensures Run(p, buffer, i + 7, relaxed) ==
            Run(p.(cs := HeadStart, request := p.request.(version := if digit == '1' then 0x11 else 0x10)),
                buffer, i + 10, relaxed)
  {
    hide Run;
    AtChar(buffer, i + 8, "\r\n", 0);
    AtChar(buffer, i + 8, "\r\n", 1);
    var p1 := p.(cs := VersionEnd);
    Next(p, p1, buffer, i + 7, relaxed);
    VersionCalled(p1, buffer, i + 8, relaxed);
  }

  lemma VersionCalled(p: Parser, buffer: string, i: nat, relaxed: bool)
    requires p.cs == VersionEnd && Marks(p, i) && i + 1 < |buffer| && buffer[i] == '\r' && buffer[i + 1] == '\n'
    ensures Run(p, buffer, i, relaxed) == Run(Goto(OnVersion(p, buffer[p.mark..i]), HeadStart), buffer, i + 2, relaxed)
  {
    hide Run, OnVersion;
    var p1 := Goto(OnVersion(p, buffer[p.mark..i]), LineFeed);
    Next(p, p1, buffer, i, relaxed);
    Next(p1, Goto(p1, HeadStart), buffer, i + 1, relaxed);
  }

  lemma VersionPart(p: Parser, buffer: string, i: nat, digit: char, relaxed: bool)
    requires p.cs == Version(0) && Marks(p, i) && digit in "01"
    requires At(buffer, i, "HTTP/1." + [digit] + "\r\n")
    ensures Run(p, buffer, i, relaxed) ==
            Run(p.(cs := HeadStart, mark := i, request := p.request.(version := if digit == '1' then 0x11 else 0x10)),
                buffer, i + 10, relaxed)
  {
    hide Run;
    AtSplit(buffer, i, "HTTP/1." + [digit], "\r\n");
    AtSplit(buffer, i, "HTTP/1.", [digit]);
    AtChar(buffer, i, "HTTP/1.", 0);
    AtChar(buffer, i + 7, [digit], 0);
    var p1 := p.(cs := Version(1), mark := i);
    Next(p, p1, buffer, i, relaxed);
    VersionLoop(p1, buffer, i, 1, relaxed);
    VersionTail(p1.(cs := Version(7)), buffer, i, digit, relaxed);
  }

  // ---- Header lines ----

  /** A line as printed: header entries have no blank after the colon, the two added lines have. */
  datatype HeaderLine = HeaderLine(name: string, pad: string, value: string)

  predicate Sendable(l: HeaderLine) {
    Token(l.name) && FieldValue(l.value) && (l.pad == "" || l.pad == " ")
  }

  function LineText(l: HeaderLine): string {
    l.name + ":" + l.pad + l.value + "\r\n"
  }

  lemma TokenIsNoEnd(c: char)
    requires TokenChar(c)
    ensures c != ':' && c != '\r' && c != '\n'
  {
  }

  lemma NamePart(p: Parser, buffer: string, i: nat, name: string, relaxed: bool)
    requires p.cs == HeadStart && Marks(p, i) && Token(name) && At(buffer, i, name + ":")
    ensures Run(p, buffer, i, relaxed) ==
            Run(p.(cs := ValueStart, fieldStart := i, fieldLen := |name|), buffer, i + |name| + 1, relaxed)
  {
    hide Run, TokenChar, Marks, Judged, Unexpected;
    NoTokens();
    AtSplit(buffer, i, name, ":");
    AtChar(buffer, i + |name|, ":", 0);
    forall k | i <= k < i + |name|
      ensures buffer[k] == name[k - i]
    {
      AtChar(buffer, i, name, k - i);
    }
    NameRead(p, buffer, i, i + |name|, relaxed);
  }

  lemma ValueLoop(p: Parser, buffer: string, i: nat, value: string, relaxed: bool)
    requires p.cs == InValue && Marks(p, i) && FieldValue(value) && At(buffer, i, value)
    ensures Run(p, buffer, i + 1, relaxed) == Run(p, buffer, i + |value|, relaxed)
  {
    hide Run, Step, Control, Blank;
    forall k | i + 1 <= k < i + |value|
      ensures Step(p, buffer, k, relaxed) == p
    {
      AtChar(buffer, i, value, k - i);
      ValueGoesOn(p, buffer, k, relaxed);
    }
    Skip(p, buffer, i + 1, i + |value|, relaxed);
  }

  /** The blank after the colon, if there is one. */
  lemma PadPart(p: Parser, buffer: string, i: nat, pad: string, relaxed: bool) returns (q: Parser)
    requires p.cs == ValueStart && Marks(p, i) && (pad == "" || pad == " ") && At(buffer, i, pad)
    ensures q == p.(mark := q.mark) && Marks(q, i + |pad|)
    ensures Run(p, buffer, i, relaxed) == Run(q, buffer, i + |pad|, relaxed)
  {
    hide Run, InLine;
    q := p;
    if pad == " " {
      AtChar(buffer, i, pad, 0);
      q := p.(mark := i);
      Next(p, q, buffer, i, relaxed);
    }
  }

  lemma ValueOpens(p: Parser, buffer: string, i: nat, relaxed: bool)
    requires p.cs == ValueStart && i < |buffer| && Marks(p, i) && !Blank(buffer[i]) && !Control(buffer[i])
    ensures Run(p, buffer, i, relaxed) == Run(p.(cs := InValue, mark := i), buffer, i + 1, relaxed)
  {
    hide Run, InLine, Blank, Control;
    Next(p, p.(cs := InValue, mark := i), buffer, i, relaxed);
  }

  lemma {:induction false} ValuePart(p: Parser, buffer: string, i: nat, pad: string, value: string, relaxed: bool)
    requires p.cs == ValueStart && Marks(p, i) && FieldValue(value) && (pad == "" || pad == " ")
    requires At(buffer, i, pad + value + "\r\n")
    ensures var (j, end) := (i + |pad|, i + |pad| + |value|);
            && end + 1 < |buffer| && buffer[j..end] == value
            && Run(p, buffer, i, relaxed) == Run(p.(cs := InValue, mark := j), buffer, end, relaxed)
            && buffer[end] == '\r' && buffer[end + 1] == '\n'
  {
    hide Run, Step, Blank, Control;
    AtSplit(buffer, i, pad + value, "\r\n");
    AtSplit(buffer, i, pad, value);
    var (j, end) := (i + |pad|, i + |pad| + |value|);
    AtChar(buffer, end, "\r\n", 0);
    AtChar(buffer, end, "\r\n", 1);
    var p1 := PadPart(p, buffer, i, pad, relaxed);
    AtChar(buffer, j, value, 0);
    ValueOpens(p1, buffer, j, relaxed);
    ValueLoop(p.(cs := InValue, mark := j), buffer, j, value, relaxed);
  }

  /** The machine has read name and value of the line, and the end of the line comes next. */
  predicate AtLineEnd(p: Parser, buffer: string, i: nat, l: HeaderLine) {
    && p.cs == InValue && Marks(p, i) && i + 1 < |buffer| && l.name != []
    && buffer[p.fieldStart..p.fieldStart + p.fieldLen] == l.name && buffer[p.mark..i] == l.value
    && buffer[i] == '\r' && buffer[i + 1] == '\n'
  }

  /** The two characters that end a line call back with name and value. */
  lemma LineEnd(p: Parser, buffer: string, i: nat, l: HeaderLine, relaxed: bool) returns (q: Parser)
    requires AtLineEnd(p, buffer, i, l)
    ensures Marks(p, i) && i + 2 <= |buffer|
    ensures Marks(q, i + 2) && q.cs == HeadStart && q.error == p.error
    ensures q.request == p.request.(headers := Put(p.request.headers, l.name, l.value))
    ensures Run(p, buffer, i, relaxed) == Run(q, buffer, i + 2, relaxed)
  {
    hide Run, Put;
    var p1 := OnField(p, l.name, l.value).(cs := LineFeed);
    Next(p, p1, buffer, i, relaxed);
    q := p1.(cs := HeadStart);
    Next(p1, q, buffer, i + 1, relaxed);
  }

  /** The parts of a line lie where they should. */
  predicate LineAt(buffer: string, i: nat, l: HeaderLine) {
    && i + |l.name| <= |buffer| && buffer[i..i + |l.name|] == l.name != []
    && At(buffer, i, l.name + ":") && At(buffer, i + |l.name| + 1, l.pad + l.value + "\r\n")
  }

  lemma LinePieces(buffer: string, i: nat, l: HeaderLine)
    requires At(buffer, i, LineText(l)) && Sendable(l)
    ensures LineAt(buffer, i, l) && |LineText(l)| == |l.name| + 1 + |l.pad| + |l.value| + 2
  {
    assert LineText(l) == (l.name + ":") + (l.pad + l.value + "\r\n");
    AtSplit(buffer, i, l.name + ":", l.pad + l.value + "\r\n");
    AtSplit(buffer, i, l.name, ":");
  }

  lemma NameAndValue(p: Parser, buffer: string, i: nat, l: HeaderLine, relaxed: bool) returns (q: Parser)
    requires p.cs == HeadStart && Marks(p, i) && Sendable(l) && LineAt(buffer, i, l)
    ensures var end := i + |l.name| + 1 + |l.pad| + |l.value|;
            && AtLineEnd(q, buffer, end, l) && q.request == p.request && q.error == p.error
            && Run(p, buffer, i, relaxed) == Run(q, buffer, end, relaxed)
  {
    hide Run, At, Token, FieldValue, Step;
    NamePart(p, buffer, i, l.name, relaxed);
    q := p.(cs := ValueStart, fieldStart := i, fieldLen := |l.name|);
    ValuePart(q, buffer, i + |l.name| + 1, l.pad, l.value, relaxed);
    q := q.(cs := InValue, mark := i + |l.name| + 1 + |l.pad|);
  }

  /** One line sets one header. */
  lemma LinePart(p: Parser, buffer: string, i: nat, l: HeaderLine, relaxed: bool) returns (q: Parser)
    requires p.cs == HeadStart && Marks(p, i) && Sendable(l) && At(buffer, i, LineText(l))
    ensures Marks(q, i + |LineText(l)|) && q.cs == HeadStart && q.error == p.error
    ensures q.request == p.request.(headers := Put(p.request.headers, l.name, l.value))
    ensures Run(p, buffer, i, relaxed) == Run(q, buffer, i + |LineText(l)|, relaxed)
  {
    hide Run, At, LineAt, AtLineEnd, LineText, Sendable, Put, Marks;
    LinePieces(buffer, i, l);
    var end := i + |l.name| + 1 + |l.pad| + |l.value|;
    var p1 := NameAndValue(p, buffer, i, l, relaxed);
    q := LineEnd(p1, buffer, end, l, relaxed);
  }

  function LinesText(ls: seq<HeaderLine>): string {
    if ls == [] then "" else LinesText(ls[..|ls| - 1]) + LineText(ls[|ls| - 1])
  }

  function PutAll(ls: seq<HeaderLine>): seq<Header> {
    if ls == [] then []
    else Put(PutAll(ls[..|ls| - 1]), ls[|ls| - 1].name, ls[|ls| - 1].value)
  }

  lemma {:induction false} LinesPart(p: Parser, buffer: string, i: nat, ls: seq<HeaderLine>, relaxed: bool)
    returns (q: Parser)
    requires p.cs == HeadStart && Marks(p, i) && p.request.headers == []
    requires (forall l | l in ls :: Sendable(l)) && At(buffer, i, LinesText(ls))
    ensures Marks(q, i + |LinesText(ls)|) && q.cs == HeadStart && q.error == p.error
    ensures q.request == p.request.(headers := PutAll(ls))
    ensures Run(p, buffer, i, relaxed) == Run(q, buffer, i + |LinesText(ls)|, relaxed)
    decreases |ls|
  {
    hide Run, Put, LineText, Sendable;
    if ls == [] {
      q := p;
    } else {
      var (init, last) := (ls[..|ls| - 1], ls[|ls| - 1]);
      AtSplit(buffer, i, LinesText(init), LineText(last));
      var q1 := LinesPart(p, buffer, i, init, relaxed);
      q := LinePart(q1, buffer, i + |LinesText(init)|, last, relaxed);
    }
  }

  // ---- What the lines say ----

  /** The last line under a name, in any spelling, is the one found. */
  function LastUnder(ls: seq<HeaderLine>, key: string): Option<string> {
    if ls == [] then None
    else if Same(ls[|ls| - 1].name, key) then Some(ls[|ls| - 1].value)
    else LastUnder(ls[..|ls| - 1], key)
  }

  lemma {:induction false} LastLineCounts(ls: seq<HeaderLine>, key: string)
    ensures Sorted(PutAll(ls)) && Find(PutAll(ls), key) == LastUnder(ls, key)
  {
    if ls != [] {
      LastLineCounts(ls[..|ls| - 1], key);
      PutLookup(PutAll(ls[..|ls| - 1]), ls[|ls| - 1].name, ls[|ls| - 1].value, key);
    }
  }

  /** The lines of the entries that are printed, after the lines `first`. */
  function EntryLines(first: seq<HeaderLine>, h: seq<Header>, websocket: bool): seq<HeaderLine> {
    if h == [] then first
    else
      var last := h[|h| - 1];
      EntryLines(first, h[..|h| - 1], websocket)
      + if Skipped(last, websocket) then [] else [HeaderLine(last.name, "", last.value)]
  }

  function FirstLines(r: Request): seq<HeaderLine> {
    if r.websocket then [] else [HeaderLine("connection", " ", Connection(r))]
  }

  function LengthLine(r: Request): seq<HeaderLine> {
    if r.body == [] then [] else [HeaderLine("content-length", " ", Decimal(|r.body|))]
  }

  function Lines(r: Request): seq<HeaderLine> {
    EntryLines(FirstLines(r), r.headers, r.websocket) + LengthLine(r)
  }

  /** What looking up a header of the printed text finds. */
  function Expected(r: Request, key: string): Option<string> {
    if r.body != [] && Same("content-length", key) then Some(Decimal(|r.body|))
    else if !r.websocket && Same("connection", key) then Some(if r.close then "close" else "keep-alive")
    else Find(r.headers, key)
  }

  /** Looking up in a sorted map and in the map without its last entry. */
  lemma FindWithLast(h: seq<Header>, key: string)
    requires Sorted(h) && h != []
    ensures var (init, last) := (h[..|h| - 1], h[|h| - 1]);
            Find(h, key) == if Same(last.name, key) then Some(last.value) else Find(init, key)
  {
    hide Less, Fold, Find;
    var (init, last) := (h[..|h| - 1], h[|h| - 1]);
    FindMeaning(init, key);
    FindMeaning(h, key);
    if !Same(last.name, key) {
      forall i | 0 <= i < |h| && Same(h[i].name, key)
        ensures Find(init, key) == Some(h[i].value)
      {
        assert i < |init| && init[i] == h[i];
      }
      if Find(init, key).Some? {
        var i :| 0 <= i < |init| && Same(init[i].name, key);
        assert h[i] == init[i];
      }
    }
  }

  lemma {:induction false} EntriesUnder(first: seq<HeaderLine>, h: seq<Header>, websocket: bool, key: string)
    requires Sorted(h)
    ensures LastUnder(EntryLines(first, h, websocket), key) ==
            if Find(h, key).Some? && (websocket || !Same("connection", key)) then Find(h, key)
            else LastUnder(first, key)
  {
    if h != [] {
      hide Less, Fold, Find;
      var (init, last) := (h[..|h| - 1], h[|h| - 1]);
      EntriesUnder(first, init, websocket, key);
      FindWithLast(h, key);
      var ls := EntryLines(first, init, websocket);
      if !Skipped(last, websocket) {
        assert (ls + [HeaderLine(last.name, "", last.value)])[..|ls|] == ls;
      } else {
        assert ls + [] == ls;
      }
    }
  }

  lemma {:induction false} FirstUnder(r: Request, key: string)
    ensures LastUnder(FirstLines(r), key) ==
            if !r.websocket && Same("connection", key) then Some(if r.close then "close" else "keep-alive") else None
  {
    hide Same;
    if !r.websocket {
      assert FirstLines(r)[..0] == [];
    }
  }

  lemma {:induction false} LengthUnder(ls: seq<HeaderLine>, r: Request, key: string)
    ensures LastUnder(ls + LengthLine(r), key) ==
            if r.body != [] && Same("content-length", key) then Some(Decimal(|r.body|)) else LastUnder(ls, key)
  {
    hide Same, Decimal;
    if r.body != [] {
      assert (ls + LengthLine(r))[..|ls|] == ls;
    } else {
      assert ls + LengthLine(r) == ls;
    }
  }

  lemma LinesSay(r: Request, key: string)
    requires Sorted(r.headers)
    ensures Sorted(PutAll(Lines(r))) && Find(PutAll(Lines(r)), key) == Expected(r, key)
  {
    hide Find, Put, Sorted, Same, Decimal, Connection, LastUnder, EntryLines, FirstLines, LengthLine;
    LastLineCounts(Lines(r), key);
    FirstUnder(r, key);
    EntriesUnder(FirstLines(r), r.headers, r.websocket, key);
    LengthUnder(EntryLines(FirstLines(r), r.headers, r.websocket), r, key);
  }

  // ---- The whole text ----

  lemma {:induction false} LinesTextAppend(ls: seq<HeaderLine>, l: HeaderLine)
    ensures LinesText(ls + [l]) == LinesText(ls) + LineText(l)
  {
    assert (ls + [l])[..|ls|] == ls;
  }

  lemma {:induction false} EntryLinesText(first: seq<HeaderLine>, h: seq<Header>, websocket: bool)
    ensures LinesText(EntryLines(first, h, websocket)) == LinesText(first) + HeaderText(h, websocket)
  {
    if h != [] {
      var (init, last) := (h[..|h| - 1], h[|h| - 1]);
      EntryLinesText(first, init, websocket);
      var ls := EntryLines(first, init, websocket);
      if Skipped(last, websocket) {
        assert ls + [] == ls;
        assert HeaderText(h, websocket) == HeaderText(init, websocket) + "";
      } else {
        var l := HeaderLine(last.name, "", last.value);
        LinesTextAppend(ls, l);
        assert LineText(l) == last.name + ":" + last.value + "\r\n";
        Associative(LinesText(first), HeaderText(init, websocket), LineText(l));
      }
    }
  }

  /** Everything before the body. */
  function Head(r: Request): string {
    RequestLine(r) + "\r\n" + LinesText(Lines(r)) + "\r\n"
  }

  /** A line that the printer adds has a blank after the colon. */
  lemma PaddedLine(name: string, value: string)
    ensures LineText(HeaderLine(name, " ", value)) == (name + ": ") + value + "\r\n"
  {
    assert ":" + " " == ": ";
  }

  lemma FirstLinesText(r: Request)
    ensures LinesText(FirstLines(r)) == if r.websocket then "" else "connection: " + Connection(r) + "\r\n"
  {
    assert LinesText([]) == "";
    if !r.websocket {
      var l := FirstLines(r)[0];
      assert FirstLines(r) == [] + [l];
      hide LineText, LinesText, Connection, FirstLines;
      LinesTextAppend([], l);
      assert "" + LineText(l) == LineText(l);
      PaddedLine("connection", Connection(r));
      assert "connection" + ": " == "connection: ";
    }
  }

  function LengthText(r: Request): string {
    if r.body == [] then "" else "content-length: " + Decimal(|r.body|) + "\r\n"
  }

  lemma {:induction false} LengthLineText(ls: seq<HeaderLine>, r: Request)
    ensures LinesText(ls + LengthLine(r)) == LinesText(ls) + LengthText(r)
  {
    if r.body != [] {
      var l := LengthLine(r)[0];
      hide LineText, LinesText, Decimal;
      LinesTextAppend(ls, l);
      PaddedLine("content-length", Decimal(|r.body|));
      assert "content-length" + ": " == "content-length: ";
    } else {
      assert ls + [] == ls;
    }
  }

  /** The text between the first line and the empty line. */
  lemma LinesOfText(r: Request)
    ensures LinesText(Lines(r)) ==
            (if r.websocket then "" else "connection: " + Connection(r) + "\r\n") + HeaderText(r.headers, r.websocket)
            + LengthText(r)
  {
    hide HeaderText, Connection, LengthText, LinesText, EntryLines, FirstLines, LengthLine;
    FirstLinesText(r);
    EntryLinesText(FirstLines(r), r.headers, r.websocket);
    LengthLineText(EntryLines(FirstLines(r), r.headers, r.websocket), r);
  }

  lemma Reassociate(a: string, b: string, c: string, d: string, body: string)
    ensures a + b + c + (d + "\r\n\r\n" + body) == a + (b + c + (d + "\r\n")) + "\r\n" + body
    ensures a + b + c + "\r\n" == a + (b + c + "") + "\r\n" + ""
  {
    assert "\r\n\r\n" == "\r\n" + "\r\n";
    Associative(a, b, c);
    var ab := a + b + c;
    assert ab + (d + "\r\n\r\n" + body) == ab + (d + "\r\n") + "\r\n" + body;
    assert ab + (d + "\r\n") == a + (b + c + (d + "\r\n"));
    assert b + c + "" == b + c;
  }

  lemma HeadAndBody(r: Request)
    ensures Dump(r) == Head(r) + r.body
  {
    hide HeaderText, Connection, Decimal, LinesText, RequestLine;
    LinesOfText(r);
    Reassociate(RequestLine(r) + "\r\n", if r.websocket then "" else "connection: " + Connection(r) + "\r\n",
                HeaderText(r.headers, r.websocket), "content-length: " + Decimal(|r.body|), r.body);
  }

  lemma RequestLineParts(r: Request)
    requires r.version in {0x10, 0x11}
    ensures RequestLine(r) + "\r\n" ==
            (Name(r.meth) + " ") + ((r.path + QueryText(r) + FragmentText(r) + " ")
            + ("HTTP/1." + [if r.version == 0x11 then '1' else '0'] + "\r\n"))
  {
    var digit := [if r.version == 0x11 then '1' else '0'];
    assert Decimal(r.version / 16) == "1" && Decimal(r.version % 16) == digit;
    hide Decimal, Name, QueryText, FragmentText;
    FirstLine(Name(r.meth), r.path + QueryText(r) + FragmentText(r), digit);
  }

  lemma FirstLine(name: string, uri: string, digit: string)
    ensures name + " " + uri + " HTTP/" + "1" + "." + digit + "\r\n" ==
            (name + " ") + ((uri + " ") + ("HTTP/1." + digit + "\r\n"))
  {
    var x := name + " " + uri;
    assert " HTTP/" + "1" + "." + digit == " " + ("HTTP/1." + digit);
    assert x + " HTTP/" + "1" + "." + digit == x + (" HTTP/" + "1" + "." + digit);
    assert x + (" " + ("HTTP/1." + digit)) + "\r\n" == x + " " + ("HTTP/1." + digit + "\r\n");
  }

  lemma {:induction false} LastPart(p: Parser, buffer: string, i: nat, relaxed: bool)
    requires p.cs == HeadStart && Marks(p, i) && At(buffer, i, "\r\n")
    ensures Run(p, buffer, i, relaxed) == (p.(cs := Done, bodyStart := i + 2), i + 2)
  {
    AtChar(buffer, i, "\r\n", 0);
    AtChar(buffer, i, "\r\n", 1);
    Next(p, p.(cs := LastLineFeed), buffer, i, relaxed);
  }

  lemma {:induction false} EntriesSendable(first: seq<HeaderLine>, h: seq<Header>, websocket: bool)
    requires forall l | l in first :: Sendable(l)
    requires forall k | 0 <= k < |h| :: Token(h[k].name) && FieldValue(h[k].value)
    ensures forall l | l in EntryLines(first, h, websocket) :: Sendable(l)
  {
    if h != [] {
      EntriesSendable(first, h[..|h| - 1], websocket);
    }
  }

  lemma {:induction false} DecimalIsValue(n: nat)
    ensures FieldValue(Decimal(n))
  {
    DecimalRoundTrip(n);
  }

  lemma ConstantNames()
    ensures Token("connection") && Token("content-length")
  {
    PlainToken("connection");
    PlainToken("content-length");
    hide Token;
  }

  lemma PlainToken(s: string)
    requires s != [] && forall k | 0 <= k < |s| :: 'a' <= s[k] <= 'z' || s[k] == '-'
    ensures Token(s)
  {
  }

  lemma ConstantsSendable()
    ensures Token("connection") && Token("content-length")
    ensures FieldValue("close") && FieldValue("keep-alive")
  {
    ConstantNames();
    hide Token;
  }

  lemma AddedLinesSendable(r: Request)
    ensures forall l | l in FirstLines(r) + LengthLine(r) :: Sendable(l)
  {
    DecimalIsValue(|r.body|);
    ConstantsSendable();
    hide Decimal, Token, FieldValue;
  }

  lemma LinesSendable(r: Request, relaxed: bool)
    requires Printable(r, relaxed)
    ensures forall l | l in Lines(r) :: Sendable(l)
  {
    hide Token, FieldValue, Sendable, FirstLines, LengthLine, EntryLines;
    AddedLinesSendable(r);
    EntriesSendable(FirstLines(r), r.headers, r.websocket);
  }

  /** The request line of a printed text. */
  lemma RequestLinePart(r: Request, buffer: string, relaxed: bool) returns (q: Parser)
    requires Printable(r, relaxed) && At(buffer, 0, RequestLine(r) + "\r\n")
    ensures Marks(q, |RequestLine(r)| + 2) && q.cs == HeadStart && q.error == 0
    ensures q.request == FRESH.(meth := r.meth, path := r.path, query := r.query, fragment := r.fragment,
                                version := r.version)
    ensures Run(INIT, buffer, 0, relaxed) == Run(q, buffer, |RequestLine(r)| + 2, relaxed)
  {
    hide Run, At, AbsolutePath, UriText, Name, FragmentText, QueryText, RequestLine;
    RequestLineParts(r);
    var digit := if r.version == 0x11 then '1' else '0';
    var (a, b, c) := (Name(r.meth) + " ", r.path + QueryText(r) + FragmentText(r) + " ",
                      "HTTP/1." + [digit] + "\r\n");
    AtSplit(buffer, 0, a, b + c);
    AtSplit(buffer, |a|, b, c);
    MethodPart(INIT, buffer, 0, r.meth, relaxed);
    var p1 := INIT.(cs := Uri, mark := 0, request := FRESH.(meth := r.meth));
    var p2 := UriPart(p1, buffer, |a|, r, relaxed);
    VersionPart(p2, buffer, |a| + |b|, digit, relaxed);
    q := p2.(cs := HeadStart, mark := |a| + |b|,
             request := p2.request.(version := if digit == '1' then 0x11 else 0x10));
  }

  /** The round trip. Parsing a printed request, whatever follows its head, consumes exactly the
      head and gives back method, path, query, fragment and version, and under every name the
      header there was, apart from the two lines the printer adds. */
  lemma ParseOfDump(r: Request, rest: string, relaxed: bool) returns (q: Parser)
    requires Printable(r, relaxed)
    ensures Dump(r) == Head(r) + r.body
    ensures Run(INIT, Head(r) + rest, 0, relaxed) == (q, |Head(r)|)
    ensures q.cs == Done && q.error == 0 && q.bodyStart == |Head(r)|
    ensures q.request.meth == r.meth && q.request.version == r.version
    ensures q.request.path == r.path && q.request.query == r.query && q.request.fragment == r.fragment
    ensures Sorted(q.request.headers)
    ensures forall key :: Find(q.request.headers, key) == Expected(r, key)
    ensures !r.websocket ==>
              Find(q.request.headers, "connection") == Some(if r.close then "close" else "keep-alive")
    ensures r.body != [] ==> Find(q.request.headers, "content-length") == Some(Decimal(|r.body|))
  {
    hide Run, Printable, Head, Dump, Expected, Lines, Find, PutAll, Decimal, Sorted;
    HeadAndBody(r);
    q := HeadPart(r, rest, relaxed);
    HeadersSorted(r, relaxed);
    AllLinesSay(r);
  }

  lemma HeadersSorted(r: Request, relaxed: bool)
    requires Printable(r, relaxed)
    ensures Sorted(r.headers)
  {
  }

  /** The head is read to its end, and its lines are set one after the other. */
  lemma HeadPart(r: Request, rest: string, relaxed: bool) returns (q: Parser)
    requires Printable(r, relaxed)
    ensures Run(INIT, Head(r) + rest, 0, relaxed) == (q, |Head(r)|)
    ensures q.cs == Done && q.error == 0 && q.bodyStart == |Head(r)|
    ensures q.request == FRESH.(meth := r.meth, path := r.path, query := r.query, fragment := r.fragment,
                                version := r.version, headers := PutAll(Lines(r)))
  {
    hide Run, UriText, Name, LinesText, RequestLine, Lines, PutAll;
    var buffer := Head(r) + rest;
    var (a, b) := (RequestLine(r) + "\r\n", LinesText(Lines(r)));
    assert At(buffer, 0, Head(r));
    AtSplit(buffer, 0, a + b, "\r\n");
    AtSplit(buffer, 0, a, b);
    var p1 := RequestLinePart(r, buffer, relaxed);
    LinesSendable(r, relaxed);
    var p2 := LinesPart(p1, buffer, |a|, Lines(r), relaxed);
    LastPart(p2, buffer, |a| + |b|, relaxed);
    q := p2.(cs := Done, bodyStart := |Head(r)|);
  }

  lemma AllLinesSay(r: Request)
    requires Sorted(r.headers)
    ensures var h := PutAll(Lines(r));
            && Sorted(h)
            && (forall key :: Find(h, key) == Expected(r, key))
            && (!r.websocket ==> Find(h, "connection") == Some(if r.close then "close" else "keep-alive"))
            && (r.body != [] ==> Find(h, "content-length") == Some(Decimal(|r.body|)))
  {
    hide Expected, Find, Put, Lines;
    forall key
      ensures Sorted(PutAll(Lines(r))) && Find(PutAll(Lines(r)), key) == Expected(r, key)
    {
      LinesSay(r, key);
    }
    LinesSay(r, "");
    AddedLines(r);
  }

  /** The two lines that the printer adds. */
  lemma AddedLines(r: Request)
    ensures !r.websocket ==> Expected(r, "connection") == Some(if r.close then "close" else "keep-alive")
    ensures r.body != [] ==> Expected(r, "content-length") == Some(Decimal(|r.body|))
  {
    hide Same, Find, Decimal;
    NamesDiffer();
  }

  /** Framing: what is left of the buffer is the body and what came after it, and the content
      length is the length of the body, even if the request held another header of that name. */
  lemma {:induction false} Framing(r: Request, extra: string, relaxed: bool)
    requires Printable(r, relaxed) && |r.body| < U64
    ensures var buffer := Dump(r) + extra;
            var (q, n) := Run(INIT, buffer, 0, relaxed);
            && q.cs == Done && buffer[n..] == r.body + extra
            && LengthHeader(q.request.headers) == if r.body != [] then |r.body| else LengthHeader(r.headers)
  {
    hide Run, Head, Dump, Find, UriText, Decimal, Number, Same;
    var q := ParseOfDump(r, r.body + extra, relaxed);
    Associative(Head(r), r.body, extra);
    DecimalRoundTrip(|r.body|);
    NamesDiffer();
    assert Find(q.request.headers, "content-length") == Expected(r, "content-length");
  }

  lemma HeadIsNotEmpty(r: Request)
    ensures |Head(r)| > 0
  {
  }

  /** A second call on the same parser: whatever text it is given, it reads none of it, drops as many
      characters as the head before had, and leaves the machine in its error state. */
  lemma SecondCall(r: Request, rest: string, next: string, relaxed: bool)
    requires Printable(r, relaxed) && next != []
    ensures Answer(INIT, Head(r) + rest, relaxed) == Consumed(|Head(r)|)
    ensures var p := Called(INIT, Head(r) + rest, relaxed);
            && p.cs == Done && Length(p, next, relaxed) == 0 && Called(p, next, relaxed).cs == Error
            && Answer(p, next, relaxed) ==
               if |Head(r)| <= |next| then Consumed(|Head(r)|) else PastEnd(|Head(r)|)
  {
    hide Run, Head, UriText;
    HeadIsNotEmpty(r);
    var q := ParseOfDump(r, rest, relaxed);
    AfterCompleteHead(q.(nread := |Head(r)|), next, relaxed);
  }

  /** The shortest request, given twice: the second one is dropped unread, and both calls answer 18. */
  lemma SecondRequestIsDropped(relaxed: bool)
    ensures var text := "GET / HTTP/1.1\r\n\r\n";
            var p := Called(INIT, text, relaxed);
            && Answer(INIT, text, relaxed) == Consumed(18) && p.cs == Done
            && Answer(p, text, relaxed) == Consumed(18)
            && Length(p, text, relaxed) == 0 && Called(p, text, relaxed).cs == Error
  {
    var text := "GET / HTTP/1.1\r\n\r\n";
    var r := FRESH.(websocket := true);
    assert Lines(r) == [];
    assert RequestLine(r) == "GET / HTTP/1.1";
    assert Head(r) == text && text + "" == text;
    hide Head, Called, Answer, Length;
    SecondCall(r, "", text, relaxed);
  }

  lemma NamesDiffer()
    ensures !Same("connection", "content-length") && !Same("content-length", "connection")
    ensures Same("content-length", "content-length") && Same("connection", "connection")
  {
    assert Fold("connection")[3] == 'n' && Fold("content-length")[3] == 't';
  }

  lemma StartsWithName(r: Request, rest: string)
    ensures Name(r.meth) <= Head(r) + rest
  {
    hide Name, Decimal, LinesText, Lines;
    assert RequestLine(r)[..|Name(r.meth)|] == Name(r.meth);
    assert (Head(r) + rest)[..|RequestLine(r)|] == RequestLine(r);
  }

  lemma MSearchText(r: Request, rest: string)
    requires r.meth == MSEARCH
    ensures var buffer := Head(r) + rest;
            && |buffer| >= 10 && buffer[0] == 'M' && buffer[1] == ' ' && buffer[2] == '-' && buffer[3] == ' '
            && buffer[4] == 'S' && CharsToHttpMethod(buffer) == MSEARCH
  {
    StartsWithName(r, rest);
    hide Head, FirstMatch;
    var buffer := Head(r) + rest;
    assert buffer[..10] == "M - SEARCH";
    assert forall k | 0 <= k < 10 :: buffer[k] == buffer[..10][k];
    NamesAreDistinct(MSEARCH, 0, buffer);
  }

  /** A request with the method MSEARCH is printed with blanks inside the method, and the parser
      stops there: it takes `-` for the path. */
  lemma {:induction false} MSearchFails(r: Request, rest: string, relaxed: bool)
    requires r.meth == MSEARCH
    ensures var end := Run(INIT, Head(r) + rest, 0, relaxed); end.0.cs == Error && end.1 == 4
  {
    hide Head, CharsToHttpMethod, Run;
    var buffer := Head(r) + rest;
    MSearchText(r, rest);
    assert buffer[0..] == buffer;
    var p1 := INIT.(mark := 0, cs := Method(1));
    Next(INIT, p1, buffer, 0, relaxed);
    var p2 := p1.(cs := Uri, request := FRESH.(meth := MSEARCH));
    Next(p1, p2, buffer, 1, relaxed);
    DashIsNoVersion(p2, buffer, relaxed);
  }

  lemma {:induction false} NoVersion(p: Parser, buffer: string, i: nat, relaxed: bool)
    requires p.cs == Version(0) && i < |buffer| && Marks(p, i) && buffer[i] != 'H'
    ensures var end := Run(p, buffer, i, relaxed); end.0.cs == Error && end.1 == i
  {
    Stop(p, buffer, i, relaxed);
  }

  lemma {:induction false} DashIsNoVersion(p: Parser, buffer: string, relaxed: bool)
    requires p.cs == Uri && Marks(p, 2) && |buffer| > 4
    requires buffer[2] == '-' && buffer[3] == ' ' && buffer[4] != 'H'
    ensures var end := Run(p, buffer, 2, relaxed); end.0.cs == Error && end.1 == 4
  {
    hide Run;
    var p1 := p.(mark := 2, cs := Text(Colonless, 0));
    Next(p, p1, buffer, 2, relaxed);
    EndOfUri(p1, buffer, 3, relaxed);
    NoVersion(p1.(cs := Version(0), request := Closed(p1, buffer, 3)), buffer, 4, relaxed);
  }

  /** So among requests that are otherwise printable, exactly those with another method than
      MSEARCH can be read back. */
  lemma {:induction false} ReadBackIff(r: Request, rest: string, relaxed: bool)
    requires r.meth < METHODS && Printable(r.(meth := GET), relaxed)
    ensures Run(INIT, Head(r) + rest, 0, relaxed).0.cs == Done <==> r.meth != MSEARCH
  {
    hide Run, Head, UriText;
    if r.meth == MSEARCH {
      MSearchFails(r, rest, relaxed);
    } else {
      var q := ParseOfDump(r, rest, relaxed);
    }
  }

  /** The same with the parser object and a buffer in memory: a printed request, with whatever came
      in after it, goes through one call of `execute`, and the buffer is left with the body in
      front. */
  method Receive(data: array<char>, ghost r: Request, ghost extra: string, relaxed: bool)
    returns (parser: HttpRequestParser, outcome: Outcome, length: nat)
    requires Printable(r, relaxed) && |r.body| < U64 && data[..] == Dump(r) + extra
    modifies data
    ensures outcome == Consumed(|Head(r)|) && data[..|r.body| + |extra|] == r.body + extra
    ensures parser.cs == Done && parser.m_error == 0
    ensures var q := parser.m_data.Value();
            && q.meth == r.meth && q.version == r.version
            && q.path == r.path && q.query == r.query && q.fragment == r.fragment
            && forall key :: Find(q.headers, key) == Expected(r, key)
    ensures !r.websocket ==> Find(parser.m_data.m_headers, "connection") ==
                             Some(if r.close then "close" else "keep-alive")
    ensures length == if r.body != [] then |r.body| else LengthHeader(r.headers)
  {
    parser := new HttpRequestParser(relaxed);
    hide Run, Head, Dump, Find, UriText, Decimal, Number, Same, Expected;
    ghost var q := ParseOfDump(r, r.body + extra, relaxed);
    Associative(Head(r), r.body, extra);
    Framing(r, extra, relaxed);
    ghost var buffer := Head(r) + (r.body + extra);
    assert data[..data.Length] == data[..] == buffer;
    assert buffer[|Head(r)|..] == r.body + extra && |buffer| > 0 by { HeadIsNotEmpty(r); }
    outcome := parser.Execute(data, data.Length);
    assert parser.View() == q.(nread := |Head(r)|);
    length := parser.GetContentLength();
  }
}
