/** A reference parser for request heads, written by splitting the text at its delimiters, and the proof
    that the character machine computes it: the same heads with the same contents, the same offending
    characters, on every text. */
module HttpReference {
  import opened Collections
  import opened HttpRequests
  import opened HttpParsers

  // ---- The reference ----

  /** A head with its request, its error number and its end; or the first character that cannot stand
      where it does; or text that may yet become a head; or the first character after which the text
      is outside what is modelled. */
  datatype Verdict = Parsed(request: Request, error: nat, end: nat) | Refused(at: nat) | Open | Unknown(at: nat)

  /** Where the stretch of these characters that begins at `i` ends. */
  function SpanEnd(s: string, i: nat, ok: char -> bool): (j: nat)
    requires i <= |s|
    ensures i <= j <= |s|
    ensures forall k | i <= k < j :: ok(s[k])
    ensures j < |s| ==> !ok(s[j])
    decreases |s| - i
  {
    if i < |s| && ok(s[i]) then SpanEnd(s, i + 1, ok) else i
  }

  /** Where a stretch of the URI ends: at a character that is not part of it, inside a percent triplet,
      or with the text. */
  datatype Stop = Delimiter(at: nat) | BadTriplet(at: nat) | EndOfText

  function TextStop(s: string, i: nat, part: Part, relaxed: bool): (e: Stop)
    requires i <= |s|
    ensures e.Delimiter? ==> i <= e.at < |s| && s[e.at] != '%' && !UriChar(part, s[e.at], relaxed)
    ensures e.BadTriplet? ==> i < e.at < |s|
    decreases |s| - i
  {
    if i == |s| then EndOfText
    else if s[i] == '%' then
      if i + 1 == |s| then EndOfText
      else if !Hex(s[i + 1]) then BadTriplet(i + 1)
      else if i + 2 == |s| then EndOfText
      else if !Hex(s[i + 2]) then BadTriplet(i + 2)
      else TextStop(s, i + 3, part, relaxed)
    else if UriChar(part, s[i], relaxed) then TextStop(s, i + 1, part, relaxed)
    else Delimiter(i)
  }

  /** A character of a value: a tab, or no control character. */
  predicate ValueChar(c: char) {
    !Control(c) || c == '\t'
  }

  /** An unexpected character among the header lines. */
  function Unexpected(s: string, i: nat): Verdict
    requires i < |s|
  {
    if 0 < s[i] as int < 32 then Unknown(i) else Refused(i)
  }

  /** Header lines up to the empty one; a line ends in CR LF or in LF. */
  function ReadLines(s: string, i: nat, r: Request, error: nat): Verdict
    requires i <= |s|
    decreases |s| - i
  {
    if i == |s| then Open
    else if s[i] == '\n' then Parsed(r, error, i + 1)
    else if s[i] == '\r' then
      if i + 1 == |s| then Open
      else if s[i + 1] == '\n' then Parsed(r, error, i + 2)
      else Unknown(i + 1)
    else
      var colon := SpanEnd(s, i, TokenChar);
      if colon == |s| then Open
      else if colon == i || s[colon] != ':' then Unexpected(s, colon)
      else ReadValue(s, i, colon, r, error)
  }

  /** A line from its colon on: blanks, the value, the end of the line. */
  function ReadValue(s: string, i: nat, colon: nat, r: Request, error: nat): Verdict
    requires i <= colon < |s|
    decreases |s| - colon
  {
    var start := SpanEnd(s, colon + 1, Blank);
    if start == |s| then Open
    else if Control(s[start]) then Unexpected(s, start)
    else
      var end := SpanEnd(s, start, ValueChar);
      EndLine(s, end, r.(headers := Put(r.headers, s[i..colon], s[start..end])), error)
  }

  function EndLine(s: string, end: nat, r: Request, error: nat): Verdict
    requires end <= |s|
    decreases |s| - end
  {
    if end == |s| then Open
    else if s[end] == '\n' then ReadLines(s, end + 1, r, error)
    else if s[end] != '\r' then Unexpected(s, end)
    else if end + 1 == |s| then Open
    else if s[end + 1] == '\n' then ReadLines(s, end + 2, r, error)
    else Refused(end + 1)
  }

  /** `HTTP/1.0` or `HTTP/1.1` and the end of the line. */
  function ReadVersion(s: string, i: nat, r: Request, error: nat): Verdict
    requires i <= |s|
  {
    var seen := Agree(s, i, "HTTP/1.");
    if i + seen == |s| then Open
    else if seen < 7 then Refused(i + seen)
    else if s[i + 7] !in "01" then Refused(i + 7)
    else if i + 8 == |s| then Open
    else
      var r' := r.(version := if s[i + 7] == '1' then 0x11 else 0x10);
      if s[i + 8] == '\n' then ReadLines(s, i + 9, r', error)
      else if s[i + 8] != '\r' then Refused(i + 8)
      else if i + 9 == |s| then Open
      else if s[i + 9] == '\n' then ReadLines(s, i + 10, r', error)
      else Refused(i + 9)
  }

  /** How many characters from `i` on are those of the word. */
  function Agree(s: string, i: nat, word: string): (n: nat)
    requires i <= |s|
    ensures n <= |word| && i + n <= |s| && forall k | 0 <= k < n :: s[i + k] == word[k]
    ensures n < |word| && i + n < |s| ==> s[i + n] != word[n]
    decreases |word|
  {
    if word == [] || i == |s| || s[i] != word[0] then 0 else 1 + Agree(s, i + 1, word[1..])
  }

  /** The fragment up to the blank. An empty one is taken to be the whole target, from `start` on. */
  function ReadFragment(s: string, start: nat, i: nat, r: Request, error: nat, relaxed: bool): Verdict
    requires start <= i <= |s|
  {
    match TextStop(s, i, Fragment, relaxed)
    case EndOfText => Open
    case BadTriplet(at) => Refused(at)
    case Delimiter(at) =>
      if s[at] == ' ' then
        ReadVersion(s, at + 1, r.(fragment := if at == i then s[start..at] else s[i..at]), error)
      else Refused(at)
  }

  function ReadQuery(s: string, start: nat, i: nat, r: Request, error: nat, relaxed: bool): Verdict
    requires start <= i <= |s|
  {
    match TextStop(s, i, Query, relaxed)
    case EndOfText => Open
    case BadTriplet(at) => Refused(at)
    case Delimiter(at) =>
      var r' := r.(query := s[i..at]);
      if s[at] == ' ' then ReadVersion(s, at + 1, r', error)
      else if s[at] == '#' then ReadFragment(s, start, at + 1, r', error, relaxed)
      else Refused(at)
  }

  /** The rest of a path that began at `start`; `part` says whether its first segment is still open. */
  function ReadPath(s: string, start: nat, i: nat, part: Part, r: Request, error: nat, relaxed: bool): Verdict
    requires start <= i <= |s|
    decreases |s| - i
  {
    match TextStop(s, i, part, relaxed)
    case EndOfText => Open
    case BadTriplet(at) => Refused(at)
    case Delimiter(at) =>
      var r' := r.(path := s[start..at]);
      if s[at] == ' ' then ReadVersion(s, at + 1, r', error)
      else if s[at] == '?' then ReadQuery(s, start, at + 1, r', error, relaxed)
      else if s[at] == '#' then ReadFragment(s, start, at + 1, r', error, relaxed)
      else if s[at] == '/' then ReadPath(s, start, at + 1, Path, r, error, relaxed)
      else Refused(at)
  }

  /** The target: a path with one leading slash, or one whose first segment has no colon. Where a scheme or
      an authority could begin, the text is outside what is modelled. */
  function ReadTarget(s: string, i: nat, r: Request, error: nat, relaxed: bool): Verdict
    requires i <= |s|
  {
    if i == |s| then Open
    else if s[i] == '/' then
      if i + 1 == |s| then Open
      else if s[i + 1] == '/' then Unknown(i + 1)
      else ReadPath(s, i, i + 1, Path, r, error, relaxed)
    else if s[i] == '%' || (UriChar(Colonless, s[i], relaxed) && !Alpha(s[i])) then
      ReadPath(s, i, i, Colonless, r, error, relaxed)
    else Unknown(i)
  }

  /** A whole head: at most twenty upper-case letters and digits, a blank, the target, the version, the
      header lines. The method is the first of the table that the text begins with. */
  function ReadHead(s: string, relaxed: bool): Verdict {
    var blank := SpanEnd(s, 0, MethodChar);
    if s == [] then Open
    else if blank == 0 then (if s[0] == '@' || s[0] == '<' then Unknown(0) else Refused(0))
    else if blank > 20 then Refused(20)
    else if blank == |s| then Open
    else if s[blank] != ' ' then Refused(blank)
    else
      var m := CharsToHttpMethod(s);
      if m == METHODS then ReadTarget(s, blank + 1, INIT.request, 1000, relaxed)
      else ReadTarget(s, blank + 1, INIT.request.(meth := m), 0, relaxed)
  }

  // ---- The machine computes it ----

  function Judged(r: (Parser, nat)): Verdict {
    match r.0.cs
    case Done => Parsed(r.0.request, r.0.error, r.1)
    case Error => Refused(r.1)
    case Outside => Unknown(r.1)
    case _ => Open
  }

  predicate Live(p: Parser) {
    !Stuck(p) && !p.cs.Done?
  }

  lemma {:induction false} OneStep(p: Parser, s: string, i: nat, relaxed: bool)
    requires i < |s| && Marks(p, i) && Live(p)
    ensures var q := Step(p, s, i, relaxed);
            Run(p, s, i, relaxed) ==
            if Stuck(q) then (q, i) else if q.cs.Done? then (q, i + 1) else Run(q, s, i + 1, relaxed)
  {
  }

  lemma {:induction false} AtEnd(p: Parser, s: string, relaxed: bool)
    requires Marks(p, |s|)
    ensures Run(p, s, |s|, relaxed) == (p, |s|)
  {
  }

  /** Characters that leave the machine as it is. */
  lemma {:induction false} Skip(p: Parser, s: string, i: nat, j: nat, relaxed: bool)
    requires i <= j <= |s| && Marks(p, i) && Live(p)
    requires forall k | i <= k < j :: Marks(p, k) && Step(p, s, k, relaxed) == p
    ensures Run(p, s, i, relaxed) == Run(p, s, j, relaxed)
    decreases j - i
  {
    hide Run, Step;
    if i < j {
      OneStep(p, s, i, relaxed);
      Skip(p, s, i + 1, j, relaxed);
    }
  }

  // ---- Header lines ----

  lemma LineEnds(p: Parser, s: string, i: nat, relaxed: bool)
    requires p.cs == LineFeed && i <= |s|
    ensures i < |s| && s[i] == '\n' ==> Run(p, s, i, relaxed) == Run(Goto(p, HeadStart), s, i + 1, relaxed)
    ensures i < |s| && s[i] != '\n' ==> Judged(Run(p, s, i, relaxed)) == Refused(i)
    ensures i == |s| ==> Judged(Run(p, s, i, relaxed)) == Open
  {
    hide Run, InLine;
    if i < |s| {
      OneStep(p, s, i, relaxed);
    } else {
      AtEnd(p, s, relaxed);
    }
  }

  lemma {:induction false} HeadEnds(p: Parser, s: string, i: nat, relaxed: bool)
    requires p.cs == HeadStart && i < |s| && (s[i] == '\r' || s[i] == '\n')
    ensures Judged(Run(p, s, i, relaxed)) == ReadLines(s, i, p.request, p.error)
  {
    hide Run, InLine;
    OneStep(p, s, i, relaxed);
    if s[i] == '\r' {
      var q := Goto(p, LastLineFeed);
      if i + 1 < |s| {
        OneStep(q, s, i + 1, relaxed);
      } else {
        AtEnd(q, s, relaxed);
      }
    }
  }

  lemma NoTokens()
    ensures !TokenChar(':') && !TokenChar('\r') && !TokenChar('\n')
  {
  }

  /** A name up to the first character that is not part of a token. */
  lemma NameRead(p: Parser, s: string, i: nat, j: nat, relaxed: bool)
    requires p.cs == HeadStart && i < j <= |s|
    requires (forall k | i <= k < j :: TokenChar(s[k])) && (j < |s| ==> !TokenChar(s[j]))
    ensures j == |s| ==> Judged(Run(p, s, i, relaxed)) == Open
    ensures j < |s| && s[j] != ':' ==> Judged(Run(p, s, i, relaxed)) == Unexpected(s, j)
    ensures j < |s| && s[j] == ':' ==>
              Run(p, s, i, relaxed) == Run(p.(cs := ValueStart, fieldStart := i, fieldLen := j - i), s, j + 1, relaxed)
  {
    hide Run, InLine, TokenChar;
    NoTokens();
    var q := p.(cs := Field, fieldStart := i);
    OneStep(p, s, i, relaxed);
    forall k | i + 1 <= k < j
      ensures Marks(q, k) && Step(q, s, k, relaxed) == q
    {
      NameGoesOn(q, s, k, relaxed);
    }
    Skip(q, s, i + 1, j, relaxed);
    NameEnds(q, s, j, relaxed);
  }

  lemma NameGoesOn(p: Parser, s: string, i: nat, relaxed: bool)
    requires p.cs == Field && p.fieldStart <= i < |s| && TokenChar(s[i])
    ensures Marks(p, i) && Step(p, s, i, relaxed) == p
  {
    hide InLine, TokenChar;
    NoTokens();
  }

  lemma NameEnds(p: Parser, s: string, j: nat, relaxed: bool)
    requires p.cs == Field && p.fieldStart <= j <= |s| && (j < |s| ==> !TokenChar(s[j]))
    ensures j == |s| ==> Judged(Run(p, s, j, relaxed)) == Open
    ensures j < |s| && s[j] != ':' ==> Judged(Run(p, s, j, relaxed)) == Unexpected(s, j)
    ensures j < |s| && s[j] == ':' ==>
              Run(p, s, j, relaxed) == Run(p.(cs := ValueStart, fieldLen := j - p.fieldStart), s, j + 1, relaxed)
  {
    hide Run, InLine, TokenChar;
    if j < |s| {
      OneStep(p, s, j, relaxed);
    } else {
      AtEnd(p, s, relaxed);
    }
  }

  /** Blanks before the value; the mark follows them. */
  lemma {:induction false} BlanksRead(p: Parser, s: string, i: nat, j: nat, relaxed: bool) returns (q: Parser)
    requires p.cs == ValueStart && i <= j <= |s| && Marks(p, i) && forall k | i <= k < j :: Blank(s[k])
    ensures q == p.(mark := q.mark) && Marks(q, j)
    ensures Run(p, s, i, relaxed) == Run(q, s, j, relaxed)
    decreases j - i
  {
    hide Run, InLine, Blank, Control;
    q := p;
    if i < j {
      OneStep(p, s, i, relaxed);
      q := BlanksRead(p.(mark := i), s, i + 1, j, relaxed);
    }
  }

  /** The value up to the first character that cannot be part of it. */
  lemma {:induction false} ValueRead(p: Parser, s: string, i: nat, j: nat, relaxed: bool)
    requires p.cs == ValueStart && Marks(p, i) && i < j <= |s|
    requires !Blank(s[i]) && !Control(s[i])
    requires (forall k | i <= k < j :: ValueChar(s[k])) && (j < |s| ==> !ValueChar(s[j]))
    ensures Run(p, s, i, relaxed) == Run(p.(cs := InValue, mark := i), s, j, relaxed)
  {
    hide Run, InLine, Blank, Control;
    var q := p.(cs := InValue, mark := i);
    assert !Control(s[i]);
    OneStep(p, s, i, relaxed);
    forall k | i + 1 <= k < j
      ensures Marks(q, k) && Step(q, s, k, relaxed) == q
    {
      ValueGoesOn(q, s, k, relaxed);
    }
    Skip(q, s, i + 1, j, relaxed);
  }

  lemma ValueGoesOn(p: Parser, s: string, i: nat, relaxed: bool)
    requires p.cs == InValue && i < |s| && Marks(p, i) && ValueChar(s[i])
    ensures Step(p, s, i, relaxed) == p
  {
    hide InLine;
  }

  /** What ends a value: the header is set, and the line ends. */
  lemma ValueEnds(p: Parser, s: string, i: nat, relaxed: bool)
    requires p.cs == InValue && i < |s| && Marks(p, i) && !ValueChar(s[i]) && p.fieldLen > 0
    ensures var name := s[p.fieldStart..p.fieldStart + p.fieldLen];
            var q := p.(request := p.request.(headers := Put(p.request.headers, name, s[p.mark..i])));
            if s[i] == '\n' then Run(p, s, i, relaxed) == Run(Goto(q, HeadStart), s, i + 1, relaxed)
            else if s[i] == '\r' then Run(p, s, i, relaxed) == Run(Goto(q, LineFeed), s, i + 1, relaxed)
            else Judged(Run(p, s, i, relaxed)) == Unexpected(s, i)
  {
    hide Run, InLine, Put;
    OneStep(p, s, i, relaxed);
  }

  /** Between two header lines nothing is left over from those before but the request and the error. */
  lemma {:induction false} LinesRead(p: Parser, s: string, i: nat, relaxed: bool)
    requires p.cs == HeadStart && i <= |s|
    ensures Judged(Run(p, s, i, relaxed)) == ReadLines(s, i, p.request, p.error)
    decreases |s| - i
  {
    hide Run, TokenChar, ReadValue, Step;
    NoTokens();
    if i == |s| {
      AtEnd(p, s, relaxed);
    } else if s[i] == '\r' || s[i] == '\n' {
      HeadEnds(p, s, i, relaxed);
    } else {
      var colon := SpanEnd(s, i, TokenChar);
      if colon == i {
        OddStart(p, s, i, relaxed);
      } else {
        NameRead(p, s, i, colon, relaxed);
        if colon < |s| && s[colon] == ':' {
          LineRead(p.(cs := ValueStart, fieldStart := i, fieldLen := colon - i), s, i, colon, relaxed);
        }
      }
    }
  }

  lemma {:induction false} OddStart(p: Parser, s: string, i: nat, relaxed: bool)
    requires p.cs == HeadStart && i < |s| && s[i] != '\r' && s[i] != '\n' && !TokenChar(s[i])
    ensures Judged(Run(p, s, i, relaxed)) == Unexpected(s, i)
  {
    hide Run, InLine, TokenChar;
    OneStep(p, s, i, relaxed);
  }

  /** A line from its colon on, and the lines after it. */
  lemma {:induction false} LineRead(p: Parser, s: string, i: nat, colon: nat, relaxed: bool)
    requires i < colon < |s| && p.cs == ValueStart && p.fieldStart == i && p.fieldLen == colon - i
    ensures Judged(Run(p, s, colon + 1, relaxed)) == ReadValue(s, i, colon, p.request, p.error)
    decreases |s| - colon
  {
    hide Run, TokenChar, Blank, Control, ValueChar, EndLine, Step;
    var start := SpanEnd(s, colon + 1, Blank);
    var q := BlanksRead(p, s, colon + 1, start, relaxed);
    if start == |s| {
      AtEnd(q, s, relaxed);
    } else if Control(s[start]) {
      OddValue(q, s, start, relaxed);
    } else {
      NoControl(s[start]);
      var end := SpanEnd(s, start, ValueChar);
      ValueRead(q, s, start, end, relaxed);
      LineEndRead(q.(cs := InValue, mark := start), s, end, relaxed);
    }
  }

  lemma NoControl(c: char)
    requires !Control(c)
    ensures ValueChar(c)
  {
  }

  /** The end of a line, and the lines after it. */
  lemma {:induction false} LineEndRead(p: Parser, s: string, end: nat, relaxed: bool)
    requires p.cs == InValue && p.fieldLen > 0 && p.fieldStart + p.fieldLen <= end && p.mark < end <= |s|
    requires end < |s| ==> !ValueChar(s[end])
    ensures var name := s[p.fieldStart..p.fieldStart + p.fieldLen];
            var r := p.request.(headers := Put(p.request.headers, name, s[p.mark..end]));
            Judged(Run(p, s, end, relaxed)) == EndLine(s, end, r, p.error)
    decreases |s| - end
  {
    hide Run, ValueChar, Put, Step, ReadLines;
    if end == |s| {
      AtEnd(p, s, relaxed);
    } else {
      ValueEnds(p, s, end, relaxed);
      var q := p.(request := p.request.(headers := Put(p.request.headers, s[p.fieldStart..p.fieldStart + p.fieldLen],
                                                       s[p.mark..end])));
      if s[end] == '\n' {
        LinesRead(Goto(q, HeadStart), s, end + 1, relaxed);
      } else if s[end] == '\r' {
        LineEnds(Goto(q, LineFeed), s, end + 1, relaxed);
        if end + 1 < |s| && s[end + 1] == '\n' {
          LinesRead(Goto(q, HeadStart), s, end + 2, relaxed);
        }
      }
    }
  }

  lemma {:induction false} OddValue(p: Parser, s: string, i: nat, relaxed: bool)
    requires p.cs == ValueStart && i < |s| && Marks(p, i) && !Blank(s[i]) && Control(s[i])
    ensures Judged(Run(p, s, i, relaxed)) == Unexpected(s, i)
  {
    hide Run, InLine, Blank, Control;
    OneStep(p, s, i, relaxed);
  }

  // ---- The request line ----

  /** What is left of the word before the digit. */
  predicate Tail(word: string, seen: nat) {
    seen <= 7 && word == "HTTP/1."[seen..]
  }

  lemma TailMeaning(word: string, seen: nat)
    requires Tail(word, seen)
    ensures |word| == 7 - seen && (seen < 7 ==> Tail(word[1..], seen + 1))
  {
  }

  /** One character of the word, or another one. */
  lemma LetterRead(p: Parser, s: string, i: nat, seen: nat, word: string, relaxed: bool)
    requires p.cs == Version(seen) && seen < 7 && i < |s| && (seen > 0 ==> p.mark < i)
    requires Tail(word, seen) && word != []
    ensures if s[i] == word[0]
            then Run(p, s, i, relaxed) ==
                 Run(p.(cs := Version(seen + 1), mark := if seen == 0 then i else p.mark), s, i + 1, relaxed)
            else Judged(Run(p, s, i, relaxed)) == Refused(i)
  {
    hide Run, InHeaders;
    OneStep(p, s, i, relaxed);
  }

  lemma {:induction false} AgreeStep(s: string, i: nat, word: string)
    requires i <= |s|
    ensures Agree(s, i, word) ==
            if word == [] || i == |s| || s[i] != word[0] then 0 else 1 + Agree(s, i + 1, word[1..])
  {
  }

  /** What becomes of a version of which `word` is still to come. */
  ghost predicate WordSays(p: Parser, s: string, j: nat, seen: nat, word: string, relaxed: bool)
    requires p.cs == Version(seen) && j <= |s| && Marks(p, j) && (seen > 0 ==> p.mark < j)
  {
    var n := Agree(s, j, word);
    if j + n == |s| then Judged(Run(p, s, j, relaxed)) == Open
    else if n < |word| then Judged(Run(p, s, j, relaxed)) == Refused(j + n)
    else
      Run(p, s, j, relaxed) ==
      Run(p.(cs := Version(7), mark := if seen == 0 then j else p.mark), s, j + |word|, relaxed)
  }

  lemma WordMore(p: Parser, q: Parser, s: string, j: nat, seen: nat, word: string, relaxed: bool)
    requires p.cs == Version(seen) && j < |s| && Marks(p, j) && (seen > 0 ==> p.mark < j)
    requires word != [] && s[j] == word[0]
    requires q == p.(cs := Version(seen + 1), mark := if seen == 0 then j else p.mark)
    requires Marks(q, j + 1) && Run(p, s, j, relaxed) == Run(q, s, j + 1, relaxed)
    requires WordSays(q, s, j + 1, seen + 1, word[1..], relaxed)
    ensures WordSays(p, s, j, seen, word, relaxed)
  {
    hide Run, Judged, Agree, Marks;
    AgreeStep(s, j, word);
  }

  lemma {:induction false} WordStops(p: Parser, s: string, j: nat, seen: nat, word: string, relaxed: bool)
    requires p.cs == Version(seen) && Tail(word, seen) && j <= |s| && Marks(p, j) && (seen > 0 ==> p.mark < j)
    requires word == [] || j == |s| || s[j] != word[0]
    ensures WordSays(p, s, j, seen, word, relaxed)
  {
    hide Run, Step, Tail, Marks, Judged, Agree;
    TailMeaning(word, seen);
    AgreeStep(s, j, word);
    if j == |s| {
      EndInVersion(p, s, relaxed);
    } else if word != [] {
      LetterRead(p, s, j, seen, word, relaxed);
    } else {
      assert p.(cs := Version(7), mark := p.mark) == p;
    }
  }

  lemma {:induction false} WordRead(p: Parser, s: string, j: nat, seen: nat, word: string, relaxed: bool)
    requires p.cs == Version(seen) && Tail(word, seen) && j <= |s| && Marks(p, j) && (seen > 0 ==> p.mark < j)
    ensures WordSays(p, s, j, seen, word, relaxed)
    decreases |word|
  {
    hide Run, Step, Tail, Marks, WordSays;
    TailMeaning(word, seen);
    if word == [] || j == |s| || s[j] != word[0] {
      WordStops(p, s, j, seen, word, relaxed);
    } else {
      LetterRead(p, s, j, seen, word, relaxed);
      var q := p.(cs := Version(seen + 1), mark := if seen == 0 then j else p.mark);
      VersionMarks(q, j + 1);
      WordRead(q, s, j + 1, seen + 1, word[1..], relaxed);
      WordMore(p, q, s, j, seen, word, relaxed);
    }
  }

  lemma {:induction false} EndInVersion(p: Parser, s: string, relaxed: bool)
    requires p.cs.Version? && Marks(p, |s|)
    ensures Judged(Run(p, s, |s|, relaxed)) == Open
  {
    hide Run;
    AtEnd(p, s, relaxed);
  }

  lemma VersionMarks(p: Parser, j: nat)
    requires p.cs.Version? && p.mark <= j
    ensures Marks(p, j)
  {
  }

  lemma DigitRead(p: Parser, s: string, i: nat, relaxed: bool)
    requires p.cs == Version(7) && i < |s| && p.mark <= i
    ensures if s[i] in "01" then Run(p, s, i, relaxed) == Run(Goto(p, VersionEnd), s, i + 1, relaxed)
            else Judged(Run(p, s, i, relaxed)) == Refused(i)
  {
    hide Run, InHeaders;
    OneStep(p, s, i, relaxed);
  }

  lemma VersionEnds(p: Parser, s: string, i: nat, relaxed: bool)
    requires p.cs == VersionEnd && p.mark + 8 == i <= |s| && s[p.mark..p.mark + 7] == "HTTP/1." && s[p.mark + 7] in "01"
    ensures i == |s| ==> Judged(Run(p, s, i, relaxed)) == Open
    ensures var q := p.(request := p.request.(version := if s[i - 1] == '1' then 0x11 else 0x10));
            i < |s| ==>
              if s[i] == '\n' then Run(p, s, i, relaxed) == Run(Goto(q, HeadStart), s, i + 1, relaxed)
              else if s[i] == '\r' then Run(p, s, i, relaxed) == Run(Goto(q, LineFeed), s, i + 1, relaxed)
              else Judged(Run(p, s, i, relaxed)) == Refused(i)
  {
    hide Run, InHeaders;
    if i == |s| {
      AtEnd(p, s, relaxed);
    } else {
      OneStep(p, s, i, relaxed);
      VersionText(s[p.mark..p.mark + 7], s[i - 1]);
      assert s[p.mark..i] == s[p.mark..p.mark + 7] + [s[i - 1]];
    }
  }

  lemma VersionText(word: string, digit: char)
    requires word == "HTTP/1." && digit in "01"
    ensures word + [digit] == "HTTP/1.1" <==> digit == '1'
    ensures word + [digit] == "HTTP/1.0" <==> digit == '0'
  {
    assert (word + [digit])[7] == digit;
  }

  lemma {:induction false} VersionRead(p: Parser, s: string, i: nat, relaxed: bool)
    requires p.cs == Version(0) && i <= |s|
    ensures Judged(Run(p, s, i, relaxed)) == ReadVersion(s, i, p.request, p.error)
  {
    hide Run, Step, ReadLines, Agree;
    WholeWord();
    WordRead(p, s, i, 0, "HTTP/1.", relaxed);
    var seen := Agree(s, i, "HTTP/1.");
    if seen == 7 && i + 7 < |s| {
      var p1 := p.(cs := Version(7), mark := i);
      DigitRead(p1, s, i + 7, relaxed);
      if s[i + 7] in "01" {
        AfterDigit(Goto(p1, VersionEnd), s, i, relaxed);
      }
    }
  }

  lemma WholeWord()
    ensures Tail("HTTP/1.", 0) && "HTTP/1."[..7] == "HTTP/1." && |"HTTP/1."| == 7
  {
  }

  /** The end of the request line, and the header lines. */
  lemma AfterDigit(p: Parser, s: string, i: nat, relaxed: bool)
    requires p.cs == VersionEnd && p.mark == i && i + 7 < |s| && s[i + 7] in "01"
    requires Agree(s, i, "HTTP/1.") == 7
    ensures Judged(Run(p, s, i + 8, relaxed)) == ReadVersion(s, i, p.request, p.error)
  {
    hide Run, Step, ReadLines, Agree;
    assert s[i..i + 7] == "HTTP/1.";
    VersionEnds(p, s, i + 8, relaxed);
    var q := p.(request := p.request.(version := if s[i + 7] == '1' then 0x11 else 0x10));
    if i + 8 < |s| && s[i + 8] == '\n' {
      LinesRead(Goto(q, HeadStart), s, i + 9, relaxed);
    } else if i + 8 < |s| && s[i + 8] == '\r' {
      LineEnds(Goto(q, LineFeed), s, i + 9, relaxed);
      if i + 9 < |s| && s[i + 9] == '\n' {
        LinesRead(Goto(q, HeadStart), s, i + 10, relaxed);
      }
    }
  }

  /** A percent sign and what follows it. */
  lemma TripletRead(p: Parser, s: string, i: nat, relaxed: bool)
    requires p.cs.Text? && p.cs.hex == 0 && Marks(p, i) && i < |s| && s[i] == '%'
    ensures if i + 1 == |s| then Judged(Run(p, s, i, relaxed)) == Open
            else if !Hex(s[i + 1]) then Judged(Run(p, s, i, relaxed)) == Refused(i + 1)
            else if i + 2 == |s| then Judged(Run(p, s, i, relaxed)) == Open
            else if !Hex(s[i + 2]) then Judged(Run(p, s, i, relaxed)) == Refused(i + 2)
            else Run(p, s, i, relaxed) == Run(p, s, i + 3, relaxed)
  {
    hide Run, InHeaders, Hex, UriChar, Leave;
    var (p1, p2) := (Goto(p, Text(p.cs.part, 2)), Goto(p, Text(p.cs.part, 1)));
    OneStep(p, s, i, relaxed);
    if i + 1 == |s| {
      AtEnd(p1, s, relaxed);
    } else {
      OneStep(p1, s, i + 1, relaxed);
      if Hex(s[i + 1]) {
        if i + 2 == |s| {
          AtEnd(p2, s, relaxed);
        } else {
          OneStep(p2, s, i + 2, relaxed);
        }
      }
    }
  }

  /** A stretch of the URI up to where it stops. */
  lemma {:induction false} TextRead(p: Parser, s: string, i: nat, relaxed: bool)
    requires p.cs.Text? && p.cs.hex == 0 && i <= |s| && Marks(p, i)
    ensures match TextStop(s, i, p.cs.part, relaxed)
            case EndOfText => Judged(Run(p, s, i, relaxed)) == Open
            case BadTriplet(at) => Judged(Run(p, s, i, relaxed)) == Refused(at)
            case Delimiter(at) => Marks(p, at) && Run(p, s, i, relaxed) == Run(p, s, at, relaxed)
    decreases |s| - i
  {
    hide Run, InHeaders, Hex, UriChar, Leave;
    if i == |s| {
      AtEnd(p, s, relaxed);
    } else if s[i] == '%' {
      TripletRead(p, s, i, relaxed);
      if i + 2 < |s| && Hex(s[i + 1]) && Hex(s[i + 2]) {
        TextRead(p, s, i + 3, relaxed);
      }
    } else if UriChar(p.cs.part, s[i], relaxed) {
      OneStep(p, s, i, relaxed);
      TextRead(p, s, i + 1, relaxed);
    }
  }

  /** The delimiter that ends a stretch. */
  lemma StretchEnds(p: Parser, s: string, i: nat, relaxed: bool)
    requires p.cs.Text? && p.cs.hex == 0 && i < |s| && Marks(p, i) && s[i] != '%' && !UriChar(p.cs.part, s[i], relaxed)
    ensures var q := Leave(p, s, i);
            Run(p, s, i, relaxed) == if q.cs.Error? then (q, i) else Run(q, s, i + 1, relaxed)
  {
    hide Run, InHeaders, UriChar;
    OneStep(p, s, i, relaxed);
  }

  /** Two states that take the next character alike. */
  lemma {:induction false} Alike(p: Parser, q: Parser, s: string, i: nat, relaxed: bool)
    requires i < |s| && Marks(p, i) && Marks(q, i) && Live(p) && Live(q)
    requires Step(p, s, i, relaxed) == Step(q, s, i, relaxed)
    ensures Run(p, s, i, relaxed) == Run(q, s, i, relaxed)
  {
  }

  lemma {:induction false} FragmentRead(p: Parser, s: string, i: nat, relaxed: bool)
    requires p.cs == FragmentStart && p.mark < i <= |s|
    ensures Judged(Run(p, s, i, relaxed)) == ReadFragment(s, p.mark, i, p.request, p.error, relaxed)
  {
    hide Run, InHeaders, Hex, UriChar, ReadVersion;
    if i == |s| {
      AtEnd(p, s, relaxed);
    } else {
      var begins := s[i] == '%' || UriChar(Fragment, s[i], relaxed);
      var q := if begins then p.(mark := i, cs := Text(Fragment, 0)) else p.(cs := Text(Fragment, 0));
      Alike(p, q, s, i, relaxed);
      FragmentStretch(q, s, p.mark, i, relaxed);
    }
  }

  lemma FragmentEnds(p: Parser, s: string, i: nat, relaxed: bool)
    requires p.cs == Text(Fragment, 0) && p.mark <= i < |s| && s[i] != '%' && !UriChar(Fragment, s[i], relaxed)
    ensures var q := OnFragment(p, s[p.mark..i]);
            if s[i] == ' ' then Run(p, s, i, relaxed) == Run(Goto(q, Version(0)), s, i + 1, relaxed)
            else Judged(Run(p, s, i, relaxed)) == Refused(i)
  {
    hide Run, Step, UriChar;
    StretchEnds(p, s, i, relaxed);
  }

  lemma QueryEnds(p: Parser, s: string, i: nat, relaxed: bool)
    requires p.cs == Text(Query, 0) && p.mark <= i && p.queryStart <= i < |s|
    requires s[i] != '%' && !UriChar(Query, s[i], relaxed)
    ensures var q := OnQuery(p, s[p.queryStart..i]);
            if s[i] == ' ' then Run(p, s, i, relaxed) == Run(Goto(q, Version(0)), s, i + 1, relaxed)
            else if s[i] == '#' then Run(p, s, i, relaxed) == Run(Goto(q, FragmentStart), s, i + 1, relaxed)
            else Judged(Run(p, s, i, relaxed)) == Refused(i)
  {
    hide Run, Step, UriChar;
    StretchEnds(p, s, i, relaxed);
  }

  lemma PathEnds(p: Parser, s: string, i: nat, relaxed: bool)
    requires (p.cs == Text(Path, 0) || p.cs == Text(Colonless, 0)) && p.mark <= i < |s|
    requires s[i] != '%' && !UriChar(p.cs.part, s[i], relaxed)
    ensures var q := OnPath(p, s[p.mark..i]);
            if s[i] == ' ' then Run(p, s, i, relaxed) == Run(Goto(q, Version(0)), s, i + 1, relaxed)
            else if s[i] == '?' then Run(p, s, i, relaxed) == Run(Goto(q, QueryStart), s, i + 1, relaxed)
            else if s[i] == '#' then Run(p, s, i, relaxed) == Run(Goto(q, FragmentStart), s, i + 1, relaxed)
            else if s[i] == '/' then Run(p, s, i, relaxed) == Run(Goto(p, Text(Path, 0)), s, i + 1, relaxed)
            else Judged(Run(p, s, i, relaxed)) == Refused(i)
  {
    hide Run, Step, UriChar;
    StretchEnds(p, s, i, relaxed);
  }

  lemma {:induction false} FragmentStretch(p: Parser, s: string, start: nat, i: nat, relaxed: bool)
    requires p.cs == Text(Fragment, 0) && start < i < |s|
    requires p.mark == if s[i] == '%' || UriChar(Fragment, s[i], relaxed) then i else start
    ensures Judged(Run(p, s, i, relaxed)) == ReadFragment(s, start, i, p.request, p.error, relaxed)
  {
    hide Run, Step, Hex, UriChar, ReadVersion, TextStop;
    TextRead(p, s, i, relaxed);
    var stop := TextStop(s, i, Fragment, relaxed);
    FragmentMark(s, i, relaxed);
    if stop.Delimiter? {
      FragmentEnds(p, s, stop.at, relaxed);
      if s[stop.at] == ' ' {
        VersionRead(Goto(OnFragment(p, s[p.mark..stop.at]), Version(0)), s, stop.at + 1, relaxed);
      }
    }
  }

  /** A stretch that stops where it begins is the empty one. */
  lemma {:induction false} FragmentMark(s: string, i: nat, relaxed: bool)
    requires i < |s|
    ensures TextStop(s, i, Fragment, relaxed) == Delimiter(i) <==> s[i] != '%' && !UriChar(Fragment, s[i], relaxed)
  {
    hide UriChar, Hex;
  }

  lemma {:induction false} QueryRead(p: Parser, s: string, i: nat, relaxed: bool)
    requires p.cs == QueryStart && p.mark < i <= |s|
    ensures Judged(Run(p, s, i, relaxed)) == ReadQuery(s, p.mark, i, p.request, p.error, relaxed)
  {
    hide Run, InHeaders, Hex, UriChar, ReadVersion, ReadFragment;
    if i == |s| {
      AtEnd(p, s, relaxed);
    } else {
      var q := p.(queryStart := i, cs := Text(Query, 0));
      Alike(p, q, s, i, relaxed);
      QueryStretch(q, s, i, relaxed);
    }
  }

  lemma {:induction false} QueryStretch(p: Parser, s: string, i: nat, relaxed: bool)
    requires p.cs == Text(Query, 0) && p.mark < i < |s| && p.queryStart == i
    ensures Judged(Run(p, s, i, relaxed)) == ReadQuery(s, p.mark, i, p.request, p.error, relaxed)
  {
    hide Run, Step, Hex, UriChar, ReadVersion, ReadFragment, TextStop;
    TextRead(p, s, i, relaxed);
    var stop := TextStop(s, i, Query, relaxed);
    if stop.Delimiter? {
      QueryEnds(p, s, stop.at, relaxed);
      var q := OnQuery(p, s[i..stop.at]);
      if s[stop.at] == ' ' {
        VersionRead(Goto(q, Version(0)), s, stop.at + 1, relaxed);
      } else if s[stop.at] == '#' {
        FragmentRead(Goto(q, FragmentStart), s, stop.at + 1, relaxed);
      }
    }
  }

  lemma {:induction false} PathRead(p: Parser, s: string, i: nat, relaxed: bool)
    requires (p.cs == Text(Path, 0) || p.cs == Text(Colonless, 0)) && p.mark <= i <= |s|
    ensures Judged(Run(p, s, i, relaxed)) == ReadPath(s, p.mark, i, p.cs.part, p.request, p.error, relaxed)
    decreases |s| - i
  {
    hide Run, Step, Hex, UriChar, ReadVersion, ReadFragment, ReadQuery, TextStop;
    TextRead(p, s, i, relaxed);
    var stop := TextStop(s, i, p.cs.part, relaxed);
    if stop.Delimiter? {
      PathEnds(p, s, stop.at, relaxed);
      var q := OnPath(p, s[p.mark..stop.at]);
      if s[stop.at] == ' ' {
        VersionRead(Goto(q, Version(0)), s, stop.at + 1, relaxed);
      } else if s[stop.at] == '?' {
        QueryRead(Goto(q, QueryStart), s, stop.at + 1, relaxed);
      } else if s[stop.at] == '#' {
        FragmentRead(Goto(q, FragmentStart), s, stop.at + 1, relaxed);
      } else if s[stop.at] == '/' {
        PathRead(Goto(p, Text(Path, 0)), s, stop.at + 1, relaxed);
      }
    }
  }

  lemma {:induction false} SlashRead(p: Parser, s: string, i: nat, relaxed: bool)
    requires p.cs == PathStart && p.mark == i < |s| && s[i] == '/'
    ensures Judged(Run(p, s, i + 1, relaxed)) == ReadTarget(s, i, p.request, p.error, relaxed)
  {
    hide Run, InHeaders, Hex, UriChar, ReadPath, InText;
    if i + 1 == |s| {
      AtEnd(p, s, relaxed);
    } else if s[i + 1] == '/' {
      OneStep(p, s, i + 1, relaxed);
    } else {
      Alike(p, Goto(p, Text(Path, 0)), s, i + 1, relaxed);
      PathRead(Goto(p, Text(Path, 0)), s, i + 1, relaxed);
    }
  }

  lemma {:induction false} TargetRead(p: Parser, s: string, i: nat, relaxed: bool)
    requires p.cs == Uri && i <= |s|
    ensures Judged(Run(p, s, i, relaxed)) == ReadTarget(s, i, p.request, p.error, relaxed)
  {
    hide Run, InHeaders, Hex, UriChar, ReadPath, InText;
    if i == |s| {
      AtEnd(p, s, relaxed);
    } else if s[i] == '/' {
      OneStep(p, s, i, relaxed);
      SlashRead(p.(mark := i, cs := PathStart), s, i, relaxed);
    } else if s[i] == '%' || (UriChar(Colonless, s[i], relaxed) && !Alpha(s[i])) {
      var q := p.(mark := i, cs := Text(Colonless, 0));
      Alike(p, q, s, i, relaxed);
      PathRead(q, s, i, relaxed);
    } else {
      OneStep(p, s, i, relaxed);
    }
  }

  lemma {:induction false} MethodRead(p: Parser, s: string, i: nat, j: nat, relaxed: bool)
    requires p.cs.Method? && i <= j <= |s| && p.cs.count + (j - i) <= 20 && Marks(p, i)
    requires forall k | i <= k < j :: MethodChar(s[k])
    ensures Run(p, s, i, relaxed) == Run(p.(cs := Method(p.cs.count + (j - i))), s, j, relaxed)
    decreases j - i
  {
    hide Run, InHeaders;
    if i < j {
      OneStep(p, s, i, relaxed);
      MethodRead(p.(cs := Method(p.cs.count + 1)), s, i + 1, j, relaxed);
    }
  }

  lemma MethodEnds(p: Parser, s: string, i: nat, relaxed: bool)
    requires p.cs.Method? && p.cs.count <= 20 && i < |s| && Marks(p, i) && (MethodChar(s[i]) ==> p.cs.count == 20)
    ensures if s[i] == ' ' then Run(p, s, i, relaxed) == Run(Goto(OnMethod(p, s), Uri), s, i + 1, relaxed)
            else Judged(Run(p, s, i, relaxed)) == Refused(i)
  {
    hide Run, InHeaders, OnMethod;
    OneStep(p, s, i, relaxed);
  }

  /** On every text the machine, started afresh, comes to the verdict of the reference. */
  lemma {:induction false} MachineIsReference(s: string, relaxed: bool)
    ensures Judged(Run(INIT, s, 0, relaxed)) == ReadHead(s, relaxed)
  {
    hide Run, InHeaders, CharsToHttpMethod, ReadTarget;
    if s == [] {
      AtEnd(INIT, s, relaxed);
    } else {
      OneStep(INIT, s, 0, relaxed);
      var blank := SpanEnd(s, 0, MethodChar);
      if blank > 0 {
        var p := INIT.(mark := 0, cs := Method(1));
        var j := if blank > 20 then 20 else blank;
        MethodRead(p, s, 1, j, relaxed);
        var q := p.(cs := Method(j));
        if j == |s| {
          AtEnd(q, s, relaxed);
        } else {
          MethodEnds(q, s, j, relaxed);
          assert s[0..] == s;
          if s[j] == ' ' {
            TargetRead(Goto(OnMethod(q, s), Uri), s, j + 1, relaxed);
          }
        }
      }
    }
  }

  lemma DoneBehind(p: Parser, s: string, i: nat, relaxed: bool)
    requires i < |s| && Marks(p, i) && Live(p)
    ensures var q := Step(p, s, i, relaxed); q.cs.Done? ==> q.bodyStart == i + 1
  {
    hide InLine;
    if Line(p.cs) {
      LineIsNotDone(p, s, i, relaxed);
    }
  }

  lemma LineIsNotDone(p: Parser, s: string, i: nat, relaxed: bool)
    requires i < |s| && Line(p.cs) && Marks(p, i)
    ensures !InLine(p, s, i, relaxed).cs.Done?
  {
    hide UriChar, Hex, OnMethod;
  }

  /** Wherever a head ends, the body begins. */
  lemma {:induction false} BodyBehindHead(p: Parser, s: string, i: nat, relaxed: bool)
    requires i <= |s| && Marks(p, i) && Live(p)
    ensures var (q, n) := Run(p, s, i, relaxed); q.cs.Done? ==> q.bodyStart == n
    decreases |s| - i
  {
    hide Step, Run;
    if i == |s| {
      AtEnd(p, s, relaxed);
    } else {
      OneStep(p, s, i, relaxed);
      DoneBehind(p, s, i, relaxed);
      var q := Step(p, s, i, relaxed);
      if Live(q) {
        BodyBehindHead(q, s, i + 1, relaxed);
      }
    }
  }

  lemma {:induction false} SpanIs(s: string, i: nat, j: nat, ok: char -> bool)
    requires i <= j < |s| && (forall k | i <= k < j :: ok(s[k])) && !ok(s[j])
    ensures SpanEnd(s, i, ok) == j
  {
  }

  lemma {:induction false} TargetOfExample(s: string, r: Request, relaxed: bool)
    requires s == "GET /# HTTP/1.1\r\n\r\n"
    ensures ReadTarget(s, 4, r, 0, relaxed) == ReadVersion(s, 7, r.(path := "/", fragment := "/#"), 0)
  {
    hide ReadVersion;
    assert s[4..5] == "/" && s[4..6] == "/#";
    assert !UriChar(Path, '#', relaxed) && !UriChar(Fragment, ' ', relaxed);
    assert TextStop(s, 5, Path, relaxed) == Delimiter(5) && TextStop(s, 6, Fragment, relaxed) == Delimiter(6);
  }

  lemma {:induction false} MethodOfExample(s: string)
    requires s == "GET /# HTTP/1.1\r\n\r\n"
    ensures SpanEnd(s, 0, MethodChar) == 3 && CharsToHttpMethod(s) == 1
  {
    hide FirstMatch;
    SpanIs(s, 0, 3, MethodChar);
    assert s[..3] == "GET";
    NamesAreDistinct(1, 0, s);
  }

  lemma {:induction false} VersionOfExample(s: string, r: Request)
    requires s == "GET /# HTTP/1.1\r\n\r\n"
    ensures ReadVersion(s, 7, r, 0) == Parsed(r.(version := 0x11), 0, 19)
  {
    hide ReadValue;
    assert s[7..14] == "HTTP/1." && s[14] == '1' && s[15..] == "\r\n\r\n";
    assert Agree(s, 7, "HTTP/1.") == 7 by {
      hide Agree;
      assert forall k | 0 <= k < 7 :: s[7 + k] == "HTTP/1."[k];
    }
  }

  /** A fragment that is empty reads as the whole target: its mark is still that of the path. */
  lemma {:induction false} EmptyFragment(relaxed: bool)
    ensures Judged(Run(INIT, "GET /# HTTP/1.1\r\n\r\n", 0, relaxed)) ==
            Parsed(INIT.request.(meth := 1, path := "/", fragment := "/#", version := 0x11), 0, 19)
  {
    var s := "GET /# HTTP/1.1\r\n\r\n";
    hide Run, ReadTarget, CharsToHttpMethod, ReadVersion, SpanEnd, Judged;
    MachineIsReference(s, relaxed);
    MethodOfExample(s);
    var r := INIT.request.(meth := 1);
    TargetOfExample(s, r, relaxed);
    VersionOfExample(s, r.(path := "/", fragment := "/#"));
    assert s[3] == ' ' && |s| == 19;
  }
}
