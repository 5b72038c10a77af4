/** Whole HTTP responses and what the EST client hands back of them.  Names, limits and forms are
    written out here, independently of the code. */
module HttpResponses {
  import opened HttpHeaders
  import opened Options
  import opened Texts

  // ---------------------------------------------------------------- numbers

  function Decimal(n: nat): (s: string) {
    (if n < 10 then "" else Decimal(n / 10)) + [('0' as int + n % 10) as char]
  }

  lemma {:induction false} LeadingDecimal(n: nat, rest: string)
    ensures Leading(Decimal(n) + rest, 0) == Leading(rest, n)
    ensures Decimal(n) != [] && '0' <= Decimal(n)[0] <= '9'
  {
    var c := ('0' as int + n % 10) as char;
    assert IsDigit(c) && Digit(c) == n % 10 && ([c] + rest)[1..] == rest;
    if n < 10 {
      assert Decimal(n) + rest == [c] + rest;
    } else {
      assert Decimal(n) + rest == Decimal(n / 10) + ([c] + rest);
      LeadingDecimal(n / 10, [c] + rest);
    }
  }

  /** A decimal number is read back, behind any white space and a sign and in front of anything
      that is no digit. */
  lemma {:induction false} AtoiReads(blanks: string, sign: string, n: nat, rest: string)
    requires forall k :: 0 <= k < |blanks| ==> blanks[k] in {' ', '\t', '\n', 11 as char, 12 as char, '\r'}
    requires sign in {"", "+", "-"} && (rest != "" ==> !('0' <= rest[0] <= '9'))
    ensures Atoi(blanks + (sign + (Decimal(n) + rest))) == if sign == "-" then 0 - n else n
    decreases |blanks|
  {
    hide Decimal, Leading;
    var t := sign + (Decimal(n) + rest);
    if blanks == [] {
      LeadingDecimal(n, rest);
      NoDigit(rest, n);
      assert blanks + t == t;
      if sign == "" {
        assert t == Decimal(n) + rest;
      } else {
        assert t[0] == sign[0] && t[1..] == Decimal(n) + rest;
      }
    } else {
      assert (blanks + t)[0] == blanks[0] && (blanks + t)[1..] == blanks[1..] + t;
      AtoiReads(blanks[1..], sign, n, rest);
    }
  }

  lemma {:induction false} NoDigit(rest: string, n: nat)
    requires rest != "" ==> !('0' <= rest[0] <= '9')
    ensures Leading(rest, n) == n
  {
  }

  /** Anything else counts as 0. */
  lemma {:induction false} AtoiZero(s: string)
    requires s != "" ==> !('0' <= s[0] <= '9') && s[0] !in {'+', '-', ' '} && !(9 as char <= s[0] <= 13 as char)
    ensures Atoi(s) == 0
  {
  }

  // ---------------------------------------------------------------- the content headers

  lemma {:induction false} PrintedAt(ls: seq<Line>)
    ensures |Printed(ls)| == |ls|
    ensures forall k :: 0 <= k < |ls| ==> Printed(ls)[k] == Header(ls[k].name, ls[k].value)
  {
    if ls != [] {
      PrintedAt(ls[1..]);
    }
  }

  /** The line with the last Content-Length, or -1. */
  function LastLength(ls: seq<Line>): (i: int)
    ensures -1 <= i < |ls|
  {
    if ls == [] then -1
    else if ls[|ls| - 1].name == "Content-Length" then |ls| - 1
    else LastLength(ls[..|ls| - 1])
  }

  lemma {:induction false} LengthOf(hs: seq<Header>, ls: seq<Line>)
    requires |hs| == |ls| && forall k :: 0 <= k < |ls| ==> hs[k] == Header(ls[k].name, ls[k].value)
    ensures ContentLength(hs) == if LastLength(ls) == -1 then None else Some(Atoi(ls[LastLength(ls)].value))
    decreases |ls|
  {
    hide Atoi;
    if ls != [] {
      LengthOf(hs[..|hs| - 1], ls[..|ls| - 1]);
    }
  }

  /** There is a Content-Type, and all of them are of the expected type. */
  predicate TypeFits(ls: seq<Line>, contentType: string) {
    && (exists k :: 0 <= k < |ls| && ls[k].name == "Content-Type")
    && (forall k :: 0 <= k < |ls| && ls[k].name == "Content-Type" ==> contentType <= ls[k].value)
  }

  lemma {:induction false} AcceptedIff(hs: seq<Header>, ls: seq<Line>, contentType: string)
    requires |hs| == |ls| && forall k :: 0 <= k < |ls| ==> hs[k] == Header(ls[k].name, ls[k].value)
    ensures Accepted(hs, contentType) <==> TypeFits(ls, contentType) && LastLength(ls) != -1
  {
    hide ContentLength, LastLength, Atoi;
    LengthOf(hs, ls);
  }

  /** For every printed response: exactly the body is handed back, if and only if the types are
      the expected one and the last Content-Length is the length of the body, which must be
      neither zero nor above 2000000.  An empty body gives an empty payload. */
  lemma {:induction false} BodyHandedOver(status: string, ls: seq<Line>, body: string, contentType: string)
    requires Plain(status) && 1 <= |ls| <= 16 && ValidLines(ls) && (body != [] ==> body[0] != '\r' && body[0] != '\n')
    ensures var r, i := Receive(Response(status, ls, body), contentType), LastLength(ls);
            var fits := TypeFits(ls, contentType) && i != -1 && Atoi(ls[i].value) == |body|;
            r == if !fits || |body| > 2000000 then Unsupported else if body == "" then Empty else Body(body)
  {
    hide ParseHeaders, LinesText, Printed, Accepted, ContentLength, Atoi, LastLength, TypeFits, ValidLine;
    ResponseParses(status, ls, body);
    PrintedAt(ls);
    AcceptedIff(Printed(ls), ls, contentType);
    LengthOf(Printed(ls), ls);
    var raw := Response(status, ls, body);
    assert raw == (status + ("\r\n" + (LinesText(ls) + "\r\n"))) + body;
    assert raw[|raw| - |body|..] == body;
  }

  /** In particular, a response that prints the length of its body last. */
  lemma {:induction false} PrintedLengthSuffices(status: string, ls: seq<Line>, body: string, contentType: string)
    requires Plain(status) && 1 <= |ls| <= 16 && ValidLines(ls) && 0 < |body| <= 2000000 && body[0] != '\r' && body[0] != '\n'
    requires TypeFits(ls, contentType) && LastLength(ls) != -1 && ls[LastLength(ls)].value == Decimal(|body|)
    ensures Receive(Response(status, ls, body), contentType) == Body(body)
  {
    hide Receive, Response, ValidLine, Atoi, Decimal, LastLength, TypeFits;
    AtoiReads("", "", |body|, "");
    assert "" + ("" + (Decimal(|body|) + "")) == Decimal(|body|);
    BodyHandedOver(status, ls, body, contentType);
  }

  // ---------------------------------------------------------------- other responses

  /** Of more than 16 headers the first 16 are read, and reading stops at the next one. */
  lemma {:induction false} FirstLines(mem: string, p: nat, ls: seq<Line>, rest: string, n: nat)
    requires n < |ls| && ValidLines(ls) && At(mem, p, LinesText(ls) + ("\r\n" + rest)) && Stops(mem, p + |LinesText(ls)| + 2)
    ensures p <= |mem|
    ensures ScanHeaders(mem, p, Some(p + |LinesText(ls)| - 2), n) == (Printed(ls[..n]), p + |LinesText(ls[..n])|)
    decreases n
  {
    hide At, Take, LineText, ScanHeaders, Stops, ValidLine;
    var next := FirstHeader(mem, p, ls, rest);
    ScanTurn(mem, p, Some(p + |LinesText(ls)| - 2), n);
    if n == 0 {
      assert Printed(ls[..0]) == [] && LinesText(ls[..0]) == "";
    } else {
      assert LinesText(ls) == LineText(ls[0]) + LinesText(ls[1..]);
      assert ls[..n][1..] == ls[1..][..n - 1];
      FirstLines(mem, next, ls[1..], rest, n - 1);
    }
  }

  lemma ManyHeaders(status: string, ls: seq<Line>, body: string)
    requires Plain(status) && |ls| > 16 && ValidLines(ls) && (body != [] ==> body[0] != '\r' && body[0] != '\n')
    ensures ParseHeaders(Response(status, ls, body) + "\0") == (Printed(ls[..16]), |status| + 2 + |LinesText(ls[..16])|)
  {
    hide At, Take, FindBreak, ScanHeaders, LinesText, Printed, ValidLine;
    var tail := body + "\0";
    var mem := Response(status, ls, body) + "\0";
    var q := |status| + 2;
    assert ValidLine(ls[0]);
    StatusLine(status, ls, body, mem);
    BreakFound(mem, q, ls, tail);
    assert LinesText(ls) + ("\r\n" + tail) == (LinesText(ls) + "\r\n") + tail;
    AtSplit(mem, q, LinesText(ls) + "\r\n", tail);
    AtChar(mem, q + |LinesText(ls)| + 2, tail, 0);
    FirstLines(mem, q, ls, tail, 16);
  }

  /** A response that ends behind its header lines, without the empty line: only the first
      header is read. */
  lemma {:induction false} NoEmptyLine(status: string, l: Line, more: seq<Line>)
    requires Plain(status) && ValidLine(l) && ValidLines(more)
    ensures var mem := (status + "\r\n") + (LineText(l) + (LinesText(more) + "\0"));
            ParseHeaders(mem) == ([Header(l.name, l.value)], |status| + 2 + |LineText(l)|)
  {
    hide At, Take, FindBreak, ScanHeaders, LinesText, LineText;
    var ls, tail := [l] + more, LinesText(more) + "\0";
    var mem := (status + "\r\n") + (LineText(l) + tail);
    var q := |status| + 2;
    AtStart(mem);
    AtSplit(mem, 0, status + "\r\n", LineText(l) + tail);
    LineNoBreak(l, tail);
    AtChar(mem, q, LineText(l) + tail, 0);
    assert status + "\r\n" == status + ['\r'] + "\n";
    TakeText(mem, 0, status, '\r', "\n", {'\r', '\n'}, {'\r', '\n'});
    NoBreakInLine(mem, 0, status);
    LinesAppend(l, more);
    NoBreakInLines(mem, q, ls);
    AtSplit(mem, q, LineText(l), tail);
    TailNoBreak(more);
    AtChar(mem, q + |LineText(l)|, tail, 0);
    OneHeader(mem, q, l);
    ScanTurn(mem, q, None, 16);
  }

  lemma {:induction false} LinesAppend(l: Line, more: seq<Line>)
    ensures LinesText([l] + more) == LineText(l) + LinesText(more)
    ensures LineText(l) + (LinesText(more) + "\0") == LinesText([l] + more) + "\0"
  {
    assert ([l] + more)[1..] == more;
  }

  lemma LineNoBreak(l: Line, tail: string)
    requires ValidLine(l)
    ensures (LineText(l) + tail)[0] == l.name[0] && l.name[0] != '\r' && l.name[0] != '\n'
  {
  }

  lemma {:induction false} TailNoBreak(more: seq<Line>)
    requires ValidLines(more)
    ensures var t := LinesText(more) + "\0"; t[0] != '\r' && t[0] != '\n'
  {
    if more != [] {
      assert ValidLine(more[0]);
      LineStart(more, "\0");
    }
  }

  lemma OneHeader(mem: string, p: nat, l: Line)
    requires ValidLine(l) && At(mem, p, LineText(l)) && Stops(mem, p + |LineText(l)|)
    ensures p <= |mem| && Take(mem, p, {':'}, {' '}, '\0').text == l.name && l.name != []
    ensures Take(mem, Take(mem, p, {':'}, {' '}, '\0').next, LINE_END, LINE_END, '\0') == Word(l.value, p + |LineText(l)|)
  {
    hide Take;
    assert LineText(l) == l.name + (":" + (l.pad + (l.value + ("\r" + "\n"))));
    HeaderReads(mem, p, l, "\n");
  }

  lemma {:induction false} NoBreakInLines(mem: string, p: nat, ls: seq<Line>)
    requires ValidLines(ls) && At(mem, p, LinesText(ls) + "\0")
    ensures FindBreak(mem, p) == None
    decreases |ls|
  {
    hide At, FindBreak, ValidLine;
    if ls == [] {
      AtChar(mem, p, LinesText(ls) + "\0", 0);
      FindNothing(mem, p);
    } else {
      var l, rest := ls[0], LinesText(ls[1..]) + "\0";
      var t := l.name + (":" + (l.pad + l.value));
      assert ValidLine(l);
      PlainLine(l);
      assert LinesText(ls) + "\0" == (t + "\r\n") + rest;
      AtSplit(mem, p, t + "\r\n", rest);
      TailNoBreak(ls[1..]);
      AtChar(mem, p + |t| + 2, rest, 0);
      NoBreakInLine(mem, p, t);
      NoBreakInLines(mem, p + |t| + 2, ls[1..]);
    }
  }

  lemma {:induction false} FindNothing(mem: string, p: nat)
    requires p < |mem| && mem[p] == '\0'
    ensures FindBreak(mem, p) == None
  {
  }

  /** A header without a name ends the headers. */
  lemma NamelessHeader(status: string, more: string)
    requires Plain(status)
    ensures ParseHeaders((status + "\r\n") + (":" + more)).0 == []
  {
    hide At, FindBreak;
    var mem := (status + "\r\n") + (":" + more);
    AtStart(mem);
    AtSplit(mem, 0, status + "\r\n", ":" + more);
    AtChar(mem, |status| + 2, ":" + more, 0);
    assert status + "\r\n" == status + ['\r'] + "\n";
    TakeText(mem, 0, status, '\r', "\n", {'\r', '\n'}, {'\r', '\n'});
    EmptyWord(mem, |status| + 2);
    hide Take;
    ScanTurn(mem, |status| + 2, FindBreak(mem, 0), 16);
  }

  lemma EmptyWord(mem: string, p: nat)
    requires p < |mem| && mem[p] == ':'
    ensures Take(mem, p, {':'}, {' '}, '\0').text == []
  {
  }
}
