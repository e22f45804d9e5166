/** HTTP requests as values: the method table, the header map, and the printer (`src/http/http.cpp`). */
module HttpRequests {
  import opened Collections

  // ---- Methods ----

  /** A method is its number in the table; 34 is the invalid method. */
  const METHODS := 34

  const GET := 1
  const MSEARCH := 24

  /** The names as printed. The entry of MSEARCH has blanks in it. */
  function Name(m: nat): string {
    match m
    case 0 => "DELETE" case 1 => "GET" case 2 => "HEAD" case 3 => "POST" case 4 => "PUT"
    case 5 => "CONNECT" case 6 => "OPTIONS" case 7 => "TRACE" case 8 => "COPY" case 9 => "LOCK"
    case 10 => "MKCOL" case 11 => "MOVE" case 12 => "PROPFIND" case 13 => "PROPPATCH"
    case 14 => "SEARCH" case 15 => "UNLOCK" case 16 => "BIND" case 17 => "REBIND"
    case 18 => "UNBIND" case 19 => "ACL" case 20 => "REPORT" case 21 => "MKACTIVITY"
    case 22 => "CHECKOUT" case 23 => "MERGE" case 24 => "M - SEARCH" case 25 => "NOTIFY"
    case 26 => "SUBSCRIBE" case 27 => "UNSUBSCRIBE" case 28 => "PATCH" case 29 => "PURGE"
    case 30 => "MKCALENDAR" case 31 => "LINK" case 32 => "UNLINK" case 33 => "SOURCE"
    case _ => "<unknown>"
  }

  /** The methods of section 4 of RFC 7231, and of RFC 5789, print as such. */
  lemma StandardMethods()
    ensures Name(1) == "GET" && Name(2) == "HEAD" && Name(3) == "POST" && Name(4) == "PUT" && Name(0) == "DELETE"
    ensures Name(5) == "CONNECT" && Name(6) == "OPTIONS" && Name(7) == "TRACE" && Name(28) == "PATCH"
  {
  }

  /** The first entry from `k` on whose name the characters start with; 34 if there is none. */
  function FirstMatch(k: nat, chars: string): nat
    requires k <= METHODS
    decreases METHODS - k
  {
    if k == METHODS then METHODS
    else if Name(k) <= chars then k
    else FirstMatch(k + 1, chars)
  }

  function CharsToHttpMethod(chars: string): nat {
    FirstMatch(0, chars)
  }

  /** The method is the first of the table whose name the characters start with, and 34 says that there
      is none. */
  lemma {:induction false} MethodOf(k: nat, chars: string)
    requires k <= METHODS
    ensures var m := FirstMatch(k, chars);
            && k <= m <= 34 && (m < 34 ==> Name(m) <= chars)
            && forall j | k <= j < m :: !(Name(j) <= chars)
    decreases METHODS - k
  {
    hide Name;
    if k < METHODS {
      MethodOf(k + 1, chars);
    }
  }

  function CharAt(s: string, i: nat): char {
    if i < |s| then s[i] else '\0'
  }

  /** A decision by single characters, right for every name of the table. */
  function Classify(s: string): nat {
    match (CharAt(s, 0), CharAt(s, 1))
    case ('A', _) => 19
    case ('B', _) => 16
    case ('C', 'H') => 22
    case ('C', _) => if CharAt(s, 2) == 'N' then 5 else 8
    case ('D', _) => 0
    case ('G', _) => 1
    case ('H', _) => 2
    case ('L', 'O') => 9
    case ('L', _) => 31
    case ('M', ' ') => 24
    case ('M', 'E') => 23
    case ('M', 'O') => 11
    case ('M', _) => if CharAt(s, 2) == 'A' then 21 else if CharAt(s, 3) == 'O' then 10 else 30
    case ('N', _) => 25
    case ('O', _) => 6
    case ('P', 'A') => 28
    case ('P', 'O') => 3
    case ('P', 'R') => if CharAt(s, 4) == 'F' then 12 else 13
    case ('P', _) => if CharAt(s, 2) == 'T' then 4 else 29
    case ('R', _) => if CharAt(s, 2) == 'B' then 17 else 20
    case ('S', 'E') => 14
    case ('S', 'U') => 26
    case ('S', _) => 33
    case ('T', _) => 7
    case ('U', _) =>
      if CharAt(s, 2) == 'B' then 18
      else if CharAt(s, 2) == 'S' then 27
      else if CharAt(s, 3) == 'O' then 15 else 32
    case _ => METHODS
  }

  /** The characters that the decision looks at lie within the name. */
  lemma NamesAreLong(m: nat)
    requires m < METHODS
    ensures |Name(m)| >= 3
    ensures m == 10 || m == 12 || m == 13 || m == 15 || m == 30 || m == 32 ==> |Name(m)| >= 5
  {
  }

  lemma ClassifiesNames(m: nat)
    requires m < METHODS
    ensures Classify(Name(m)) == m
  {
  }

  /** No name is the start of another, so whatever follows the name, the table gives the method
      back. */
  lemma {:induction false} NamesAreDistinct(m: nat, k: nat, chars: string)
    requires m < METHODS && k <= m && Name(m) <= chars
    ensures FirstMatch(k, chars) == m
    decreases m - k
  {
    if k < m {
      if Name(k) <= chars {
        OnlyOneName(k, m, chars);
      }
      NamesAreDistinct(m, k + 1, chars);
    }
  }

  lemma OnlyOneName(k: nat, m: nat, chars: string)
    requires k < METHODS && m < METHODS && Name(k) <= chars && Name(m) <= chars
    ensures k == m
  {
    NameDecides(k, chars);
    NameDecides(m, chars);
  }

  lemma NameDecides(m: nat, chars: string)
    requires m < METHODS && Name(m) <= chars
    ensures Classify(chars) == m
  {
    ClassifiesNames(m);
    NamesAreLong(m);
    assert forall i: nat | i < |Name(m)| :: CharAt(chars, i) == CharAt(Name(m), i);
  }

  // ---- The order of header names ----

  function Lower(c: char): char {
    if 'A' <= c <= 'Z' then c + 32 as char else c
  }

  function Fold(s: string): string {
    seq(|s|, i requires 0 <= i < |s| => Lower(s[i]))
  }

  predicate LexLess(a: string, b: string)
    decreases |a|
  {
    if b == [] then false
    else if a == [] then true
    else if a[0] != b[0] then a[0] < b[0]
    else LexLess(a[1..], b[1..])
  }

  /** `CaseInsensitiveLess` */
  predicate Less(a: string, b: string) {
    LexLess(Fold(a), Fold(b))
  }

  predicate Same(a: string, b: string) {
    Fold(a) == Fold(b)
  }

  lemma {:induction false} LexTotal(a: string, b: string)
    ensures LexLess(a, b) || LexLess(b, a) || a == b
    ensures !(LexLess(a, b) && LexLess(b, a))
    decreases |a|
  {
    if a != [] && b != [] {
      LexTotal(a[1..], b[1..]);
      if a[0] == b[0] && a[1..] == b[1..] {
        assert a == [a[0]] + a[1..] && b == [b[0]] + b[1..];
      }
    }
  }

  lemma {:induction false} LexTransitive(a: string, b: string, c: string)
    requires LexLess(a, b) && LexLess(b, c)
    ensures LexLess(a, c)
    decreases |a|
  {
    if a != [] && a[0] == b[0] == c[0] {
      LexTransitive(a[1..], b[1..], c[1..]);
    }
  }

  /** The comparison is a strict order, and names neither of which is less differ in case only. */
  lemma LessIsOrder(a: string, b: string, c: string)
    ensures !Less(a, b) && !Less(b, a) <==> Same(a, b)
    ensures !(Less(a, b) && Less(b, a))
    ensures Less(a, b) && Less(b, c) ==> Less(a, c)
  {
    LexTotal(Fold(a), Fold(b));
    LexTotal(Fold(a), Fold(a));
    if Less(a, b) && Less(b, c) {
      LexTransitive(Fold(a), Fold(b), Fold(c));
    }
  }

  // ---- The header map ----

  datatype Header = Header(name: string, value: string)

  predicate Sorted(h: seq<Header>) {
    forall i, j | 0 <= i < j < |h| :: Less(h[i].name, h[j].name)
  }

  /** The first entry that is not less than the name. */
  function LowerBound(h: seq<Header>, name: string): (i: nat)
    ensures i <= |h|
    ensures forall k | 0 <= k < i :: Less(h[k].name, name)
    ensures i < |h| ==> !Less(h[i].name, name)
  {
    if h == [] || !Less(h[0].name, name) then 0 else 1 + LowerBound(h[1..], name)
  }

  predicate Hit(h: seq<Header>, i: nat, name: string) {
    i < |h| && !Less(name, h[i].name)
  }

  function Find(h: seq<Header>, name: string): Option<string> {
    var i := LowerBound(h, name);
    if Hit(h, i, name) then Some(h[i].value) else None
  }

  /** `m_headers[key] = val`: an entry keeps the name it was made with. */
  function Put(h: seq<Header>, name: string, value: string): seq<Header> {
    var i := LowerBound(h, name);
    if Hit(h, i, name) then h[i := Header(h[i].name, value)]
    else h[..i] + [Header(name, value)] + h[i..]
  }

  /** `m_headers.erase(key)` */
  function Del(h: seq<Header>, name: string): seq<Header> {
    var i := LowerBound(h, name);
    if Hit(h, i, name) then h[..i] + h[i + 1..] else h
  }

  /** What a look-up means: there is an entry with that name, up to case. */
  lemma {:induction false} FindAt(h: seq<Header>, name: string, i: nat)
    requires Sorted(h) && i < |h| && Same(h[i].name, name)
    ensures Find(h, name) == Some(h[i].value) && LowerBound(h, name) == i && Hit(h, i, name)
  {
    var b := LowerBound(h, name);
    LessIsOrder(h[i].name, name, name);
    var k := if b < i then b else i;
    LessIsOrder(h[k].name, h[i].name, name);
  }

  lemma FindMeaning(h: seq<Header>, name: string)
    requires Sorted(h)
    ensures Find(h, name).Some? <==> exists i :: 0 <= i < |h| && Same(h[i].name, name)
    ensures forall i | 0 <= i < |h| && Same(h[i].name, name) :: Find(h, name) == Some(h[i].value)
  {
    forall i | 0 <= i < |h| && Same(h[i].name, name)
      ensures Find(h, name) == Some(h[i].value)
    {
      FindAt(h, name, i);
    }
    var b := LowerBound(h, name);
    if Hit(h, b, name) {
      LessIsOrder(h[b].name, name, name);
    }
  }

  lemma PutSorted(h: seq<Header>, name: string, value: string)
    requires Sorted(h)
    ensures Sorted(Put(h, name, value))
  {
    var (b, r) := (LowerBound(h, name), Put(h, name, value));
    if !Hit(h, b, name) {
      forall i, j | 0 <= i < j < |r|
        ensures Less(r[i].name, r[j].name)
      {
        if i == b {
          LessIsOrder(name, h[b].name, h[j - 1].name);
        }
      }
    }
  }

  /** Setting a header changes what is found under its name, in any spelling, and nothing else. */
  lemma PutLookup(h: seq<Header>, name: string, value: string, key: string)
    requires Sorted(h)
    ensures Sorted(Put(h, name, value))
    ensures Find(Put(h, name, value), key) == if Same(name, key) then Some(value) else Find(h, key)
  {
    hide LowerBound, Less, Fold;
    var (b, r) := (LowerBound(h, name), Put(h, name, value));
    PutSorted(h, name, value);
    FindMeaning(r, key);
    FindMeaning(h, key);
    if Hit(h, b, name) {
      LessIsOrder(h[b].name, name, name);
      assert forall i | 0 <= i < |h| :: r[i].name == h[i].name;
    }
    if Same(name, key) {
      assert Same(r[b].name, key);
    } else if exists i :: 0 <= i < |h| && Same(h[i].name, key) {
      var i :| 0 <= i < |h| && Same(h[i].name, key);
      assert r[if Hit(h, b, name) || i < b then i else i + 1] == h[i];
    }
  }

  /** Deleting a header leaves nothing under its name, and everything else. */
  lemma DelLookup(h: seq<Header>, name: string, key: string)
    requires Sorted(h)
    ensures Sorted(Del(h, name))
    ensures Find(Del(h, name), key) == if Same(name, key) then None else Find(h, key)
  {
    hide LowerBound, Less, Fold;
    var (b, r) := (LowerBound(h, name), Del(h, name));
    FindMeaning(r, key);
    FindMeaning(h, key);
    if Hit(h, b, name) {
      LessIsOrder(h[b].name, name, name);
      forall i | 0 <= i < |r| && Same(r[i].name, name)
        ensures false
      {
        FindAt(h, name, if i < b then i else i + 1);
      }
      if exists i :: 0 <= i < |h| && i != b && Same(h[i].name, key) {
        var i :| 0 <= i < |h| && i != b && Same(h[i].name, key);
        assert r[if i < b then i else i - 1] == h[i];
      }
    } else {
      FindMeaning(h, name);
    }
  }

  // ---- Numbers ----

  function Digit(d: nat): char
    requires d < 10
  {
    '0' + d as char
  }

  function Decimal(n: nat): (s: string)
    ensures s != []
  {
    if n < 10 then [Digit(n)] else Decimal(n / 10) + [Digit(n % 10)]
  }

  predicate IsDigits(s: string) {
    forall i | 0 <= i < |s| :: '0' <= s[i] <= '9'
  }

  function Number(s: string): nat
    requires IsDigits(s)
  {
    if s == [] then 0 else Number(s[..|s| - 1]) * 10 + (s[|s| - 1] - '0') as nat
  }

  lemma {:induction false} DecimalRoundTrip(n: nat)
    ensures IsDigits(Decimal(n)) && Number(Decimal(n)) == n
  {
    if n >= 10 {
      DecimalRoundTrip(n / 10);
      assert Decimal(n)[..|Decimal(n)| - 1] == Decimal(n / 10);
    }
  }

  const U64 := 0x1_0000_0000_0000_0000

  /** `getAs<uint64_t>` for a value without a sign: the number, or the default 0 when there is no
      such header, or its value is no number or too large. */
  function LengthHeader(h: seq<Header>): nat {
    match Find(h, "content-length")
    case None => 0
    case Some(v) => if v != [] && IsDigits(v) && Number(v) < U64 then Number(v) else 0
  }

  /** The length is a word; a header with a printed number, in any spelling of its name, is that
      length; and a length other than 0 is the number in such a header. */
  lemma {:induction false} LengthMeaning(h: seq<Header>, i: nat, n: nat)
    requires Sorted(h)
    ensures LengthHeader(h) < U64
    ensures i < |h| && Same(h[i].name, "content-length") && h[i].value == Decimal(n) && n < U64 ==> LengthHeader(h) == n
    ensures LengthHeader(h) > 0 ==>
              exists k :: 0 <= k < |h| && Same(h[k].name, "content-length") && IsDigits(h[k].value)
                          && Number(h[k].value) == LengthHeader(h)
  {
    FindMeaning(h, "content-length");
    DecimalRoundTrip(n);
  }

  // ---- Requests ----

  datatype Request = Request(
    meth: nat, version: nat, close: bool, websocket: bool,
    path: string, query: string, fragment: string, body: string, headers: seq<Header>)

  const FRESH := Request(GET, 0x11, true, false, "/", "", "", "", [])

  function QueryText(r: Request): string {
    (if r.query == [] then "" else "?") + r.query
  }

  function FragmentText(r: Request): string {
    (if r.fragment == [] then "" else "#") + r.fragment
  }

  /** The first line, without its end. */
  function RequestLine(r: Request): string {
    Name(r.meth) + " " + (r.path + QueryText(r) + FragmentText(r))
    + " HTTP/" + Decimal(r.version / 16) + "." + Decimal(r.version % 16)
  }

  function Connection(r: Request): string {
    if r.close then "close" else "keep-alive"
  }

  predicate Skipped(h: Header, websocket: bool) {
    !websocket && Same(h.name, "connection")
  }

  function HeaderText(h: seq<Header>, websocket: bool): string {
    if h == [] then ""
    else
      var last := h[|h| - 1];
      HeaderText(h[..|h| - 1], websocket)
      + if Skipped(last, websocket) then "" else last.name + ":" + last.value + "\r\n"
  }

  /** The whole text. */
  function Dump(r: Request): string {
    RequestLine(r) + "\r\n"
    + (if r.websocket then "" else "connection: " + Connection(r) + "\r\n")
    + HeaderText(r.headers, r.websocket)
    + if r.body != [] then "content-length: " + Decimal(|r.body|) + "\r\n\r\n" + r.body else "\r\n"
  }

  /** Two letters are the same if they differ in nothing but their case. */
  lemma {:induction false} SameLetters(c: char, d: char)
    ensures Same([c], [d]) <==>
            c == d || ('A' <= c <= 'Z' && d as int == c as int + 32) || ('A' <= d <= 'Z' && c as int == d as int + 32)
  {
    assert [c][1..] == [] && [d][1..] == [];
    assert Fold([c]) == [Lower(c)] && Fold([d]) == [Lower(d)];
    assert [Lower(c)][0] == Lower(c) && [Lower(d)][0] == Lower(d);
  }

  lemma SameExamples()
    ensures Same("Connection", "connection") && Same("connection", "connection") && !Same("Host", "connection")
  {
    assert |Fold("Host")| == 4 && |Fold("connection")| == 10;
    assert Fold("Connection") == "connection" && Fold("connection") == "connection";
  }

  lemma HeaderExample()
    ensures HeaderText([Header("Connection", "close"), Header("Host", "x")], false) == "Host:x\r\n"
  {
    SameExamples();
    hide Same;
    var (a, b) := (Header("Connection", "close"), Header("Host", "x"));
    assert [a, b][..1] == [a] && [a][..0] == [];
    assert HeaderText([a], false) == "";
  }

  const EXAMPLE := Request(3, 0x10, false, false, "/a", "b=c", "d", "hello!",
                           [Header("Connection", "close"), Header("Host", "x")])

  lemma FirstLineExample()
    ensures RequestLine(EXAMPLE) + "\r\n" == "POST /a?b=c#d HTTP/1.0\r\n"
  {
    hide Name, Decimal;
    PiecesExample();
    assert "POST" + " " + ("/a" + ("?" + "b=c") + ("#" + "d")) == "POST /a?b=c#d";
  }

  lemma LastLineExample()
    ensures "content-length: " + Decimal(|EXAMPLE.body|) + "\r\n\r\n" + EXAMPLE.body
            == "content-length: 6\r\n\r\nhello!"
  {
    hide Decimal;
    PiecesExample();
    assert |EXAMPLE.body| == 6;
  }

  /** A request with everything in it, as it is printed: its own connection header is left out. */
  lemma DumpExample()
    ensures EXAMPLE.meth == 3 && EXAMPLE.version == 0x10 && !EXAMPLE.close && !EXAMPLE.websocket
    ensures Dump(EXAMPLE) ==
            "POST /a?b=c#d HTTP/1.0\r\n" + "connection: keep-alive\r\n" + "Host:x\r\n"
            + "content-length: 6\r\n\r\nhello!"
  {
    hide HeaderText, Decimal, Name, RequestLine;
    HeaderExample();
    FirstLineExample();
    LastLineExample();
    assert "connection: " + Connection(EXAMPLE) + "\r\n" == "connection: keep-alive\r\n";
  }

  lemma PiecesExample()
    ensures Name(3) == "POST" && Decimal(0x10 / 16) == "1" && Decimal(0x10 % 16) == "0" && Decimal(6) == "6"
  {
  }

  /** The request object. */
  class HttpRequest {
    var m_method: nat
    var m_version: nat
    var m_close: bool
    var m_websocket: bool
    var m_path: string
    var m_query: string
    var m_fragment: string
    var m_body: string
    var m_headers: seq<Header>

    function Value(): Request
      reads this
    {
      Request(m_method, m_version, m_close, m_websocket, m_path, m_query, m_fragment, m_body, m_headers)
    }

    constructor (version: nat, close: bool)
      ensures Value() == FRESH.(version := version, close := close) && Sorted(m_headers)
    {
      m_method, m_version, m_close, m_websocket := GET, version, close, false;
      m_path, m_query, m_fragment, m_body, m_headers := "/", "", "", "", [];
    }

    method SetHeader(key: string, val: string)
      requires Sorted(m_headers)
      modifies this`m_headers
      ensures m_headers == Put(old(m_headers), key, val) && Sorted(m_headers)
    {
      m_headers := Put(m_headers, key, val);
      PutSorted(old(m_headers), key, val);
    }

    method DelHeader(key: string)
      requires Sorted(m_headers)
      modifies this`m_headers
      ensures m_headers == Del(old(m_headers), key) && Sorted(m_headers)
    {
      m_headers := Del(m_headers, key);
    }

    /** `toString`, which is `dump` onto an empty stream. */
    method ToString() returns (os: string)
      ensures os == Dump(Value())
    {
      hide RequestLine, Decimal, Same;
      os := RequestLine(Value()) + "\r\n";
      if !m_websocket {
        os := os + ("connection: " + (if m_close then "close" else "keep-alive") + "\r\n");
      }
      ghost var head := os;
      var i := 0;
      while i != |m_headers|
        invariant 0 <= i <= |m_headers|
        invariant os == head + HeaderText(m_headers[..i], m_websocket)
      {
        assert m_headers[..i + 1][..i] == m_headers[..i];
        var h := m_headers[i];
        i := i + 1;
        if !m_websocket && Same(h.name, "connection") {
          assert HeaderText(m_headers[..i], m_websocket) == HeaderText(m_headers[..i - 1], m_websocket) + "";
          continue;
        }
        Associative(head, HeaderText(m_headers[..i - 1], m_websocket), h.name + ":" + h.value + "\r\n");
        os := os + (h.name + ":" + h.value + "\r\n");
      }
      assert m_headers[..i] == m_headers;
      if m_body != [] {
        os := os + ("content-length: " + Decimal(|m_body|) + "\r\n\r\n" + m_body);
      } else {
        os := os + "\r\n";
      }
    }
  }

  lemma Associative(a: string, b: string, c: string)
    ensures (a + b) + c == a + (b + c)
  {
  }
}
