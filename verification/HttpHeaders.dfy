/** HTTP response headers, split in place.

    `skip_quoted` cuts a zero-terminated buffer into words by writing zeros into it.  What it
    returns depends only on the bytes from the cursor on, and what it writes lies before the
    new cursor; so words and cursors are specified on the buffer as received (`Take`,
    `ScanHeaders`), and the methods of `HttpBuffer` are proved to find them while they
    overwrite it. */
module HttpHeaders {
  import opened Options
  import opened Texts

  const MAX_HEADERS := 16
  const EST_CA_MAX := 2000000

  datatype Header = Header(name: string, value: string)

  // ---------------------------------------------------------------- words

  /** `strcspn` from `p`: bytes before the first delimiter or the terminator. */
  function Cspn(mem: string, p: nat, delims: set<char>): (n: nat)
    ensures p <= |mem| ==> p + n <= |mem|
    ensures forall k :: p <= k < p + n ==> k < |mem| && mem[k] != '\0' && mem[k] !in delims
    decreases |mem| - p
  {
    if p >= |mem| || mem[p] == '\0' || mem[p] in delims then 0 else 1 + Cspn(mem, p + 1, delims)
  }

  /** `strspn` from `p`: bytes all of which are in `accept`. */
  function Spn(mem: string, p: nat, accept: set<char>): (n: nat)
    ensures p <= |mem| ==> p + n <= |mem|
    ensures forall k :: p <= k < p + n ==> k < |mem| && mem[k] != '\0'
    decreases |mem| - p
  {
    if p >= |mem| || mem[p] == '\0' || mem[p] !in accept then 0 else 1 + Spn(mem, p + 1, accept)
  }

  /** The word so far is `t` and the delimiter at `e` ended it: while `t` ends in the quote
      character the delimiter belongs to the word and replaces the quote. */
  function Unquote(mem: string, e: nat, t: string, delims: set<char>, quote: char): (r: (string, nat))
    requires e <= |mem|
    ensures e <= r.1 <= |mem| && |r.0| + e <= |t| + r.1
    decreases |mem| - e
  {
    if t == [] || t[|t| - 1] != quote || e == |mem| then (t, e)
    else if mem[e] == '\0' then (t[..|t| - 1], e)
    else
      var off := Cspn(mem, e + 1, delims);
      Unquote(mem, e + 1 + off, t[..|t| - 1] + mem[e..e + 1 + off], delims, quote)
  }

  /** One turn of `Unquote`, for proofs that keep it hidden. */
  lemma UnquoteTurn(mem: string, e: nat, t: string, delims: set<char>, quote: char)
    requires e < |mem| && t != []
    ensures t[|t| - 1] != quote ==> Unquote(mem, e, t, delims, quote) == (t, e)
    ensures t[|t| - 1] == quote && mem[e] == '\0' ==> Unquote(mem, e, t, delims, quote) == (t[..|t| - 1], e)
    ensures t[|t| - 1] == quote && mem[e] != '\0' ==>
              var off := Cspn(mem, e + 1, delims);
              Unquote(mem, e, t, delims, quote) ==
              Unquote(mem, e + 1 + off, t[..|t| - 1] + mem[e..e + 1 + off], delims, quote)
  {
  }

  /** A word and the cursor behind it and its whitespace. */
  datatype Word = Word(text: string, next: nat)

  function Take(mem: string, p: nat, delims: set<char>, white: set<char>, quote: char): (w: Word)
    requires p <= |mem|
    ensures p + |w.text| <= w.next <= |mem|
  {
    var e0 := p + Cspn(mem, p, delims);
    var (t, e) := Unquote(mem, e0, mem[p..e0], delims, quote);
    Word(t, if e == |mem| || mem[e] == '\0' then e else e + 1 + Spn(mem, e + 1, white))
  }

  function Zeros(n: nat): (s: string)
    ensures |s| == n && forall k :: 0 <= k < n ==> s[k] == '\0'
  {
    seq(n, _ => '\0')
  }

  /** The buffer after the word at `p` has been cut out. */
  function Cut(mem: string, p: nat, w: Word): (r: string)
    requires p + |w.text| <= w.next <= |mem|
    ensures |r| == |mem|
  {
    mem[..p] + w.text + Zeros(w.next - p - |w.text|) + mem[w.next..]
  }

  const LINE_END := {'\r', '\n'}

  // ---------------------------------------------------------------- headers

  /** `strstr(&mem[p], "\r\n\r\n")` */
  function FindBreak(mem: string, p: nat): (r: Option<nat>)
    ensures r.Some? ==> p <= r.value
    decreases |mem| - p
  {
    if p >= |mem| || mem[p] == '\0' then None
    else if p + 4 <= |mem| && mem[p..p + 4] == "\r\n\r\n" then Some(p)
    else FindBreak(mem, p + 1)
  }

  /** At most `n` more headers from `p` on; reading stops behind the header break. */
  function ScanHeaders(mem: string, p: nat, hdrEnd: Option<nat>, n: nat): (r: (seq<Header>, nat))
    requires p <= |mem|
    ensures p <= r.1 <= |mem|
    decreases n
  {
    if n == 0 then ([], p)
    else
      var name := Take(mem, p, {':'}, {' '}, '\0');
      var value := Take(mem, name.next, LINE_END, LINE_END, '\0');
      if name.text == [] then ([], value.next)
      else if hdrEnd.None? || value.next > hdrEnd.value then ([Header(name.text, value.text)], value.next)
      else
        var rest := ScanHeaders(mem, value.next, hdrEnd, n - 1);
        ([Header(name.text, value.text)] + rest.0, rest.1)
  }

  /** `parse_http_headers`: the headers and the cursor it leaves. */
  function ParseHeaders(mem: string): (r: (seq<Header>, nat)) {
    ScanHeaders(mem, Take(mem, 0, LINE_END, LINE_END, '\0').next, FindBreak(mem, 0), MAX_HEADERS)
  }

  /** One header, for proofs that keep `ScanHeaders` hidden. */
  lemma ScanTurn(mem: string, p: nat, hdrEnd: Option<nat>, n: nat)
    requires p <= |mem|
    ensures n == 0 ==> ScanHeaders(mem, p, hdrEnd, n) == ([], p)
    ensures n > 0 ==>
              var name := Take(mem, p, {':'}, {' '}, '\0');
              var value := Take(mem, name.next, LINE_END, LINE_END, '\0');
              ScanHeaders(mem, p, hdrEnd, n) ==
              if name.text == [] then ([], value.next)
              else if hdrEnd.None? || value.next > hdrEnd.value then ([Header(name.text, value.text)], value.next)
              else
                var rest := ScanHeaders(mem, value.next, hdrEnd, n - 1);
                ([Header(name.text, value.text)] + rest.0, rest.1)
  {
  }

  datatype Payload = Body(bytes: string) | Empty | Unsupported

  /** The payload hand-off after a success status: `length` is the Content-Length header. */
  function HandOff(raw: string, payload: nat, length: int): (r: Payload) {
    if length > EST_CA_MAX || length < 0 || length != |raw| - payload then Unsupported
    else if length == 0 then Empty
    else Body(raw[payload..])
  }

  // ---------------------------------------------------------------- the content headers

  const CT := "Content-Type"
  const CL := "Content-Length"

  predicate StartsWith(s: string, prefix: string) {
    |prefix| <= |s| && s[..|prefix|] == prefix
  }

  predicate IsDigit(c: char) {
    '0' <= c <= '9'
  }

  function Digit(c: char): (n: nat)
    requires IsDigit(c)
  {
    c as int - '0' as int
  }

  /** The decimal number in front of `s`, `acc` being the digits before. */
  function Leading(s: string, acc: nat): (n: nat)
    decreases |s|
  {
    if s == [] || !IsDigit(s[0]) then acc else Leading(s[1..], acc * 10 + Digit(s[0]))
  }

  function Atoi(s: string): (n: int)
    decreases |s|
  {
    if s == [] then 0
    else if s[0] == ' ' || 9 as char <= s[0] <= 13 as char then Atoi(s[1..])
    else if s[0] == '-' then 0 - Leading(s[1..], 0) as int
    else if s[0] == '+' then Leading(s[1..], 0)
    else Leading(s, 0)
  }

  /** The value of the last Content-Length header. */
  function ContentLength(hs: seq<Header>): (r: Option<int>) {
    if hs == [] then None
    else if hs[|hs| - 1].name == CL then Some(Atoi(hs[|hs| - 1].value))
    else ContentLength(hs[..|hs| - 1])
  }

  /** All Content-Type headers are of the expected type, and there is one of each. */
  predicate Accepted(hs: seq<Header>, contentType: string) {
    && (forall k :: 0 <= k < |hs| && hs[k].name == CT ==> StartsWith(hs[k].value, contentType))
    && (exists k :: 0 <= k < |hs| && hs[k].name == CT)
    && ContentLength(hs).Some?
  }

  /** `est_io_check_http_hdrs` */
  method CheckHttpHeaders(hs: seq<Header>, contentType: string) returns (ok: bool, cl: int)
    ensures ok <==> Accepted(hs, contentType)
    ensures ok ==> ContentLength(hs) == Some(cl)
  {
    var typePresent, lengthPresent := false, false;
    cl := -1;
    for i := 0 to |hs|
      invariant typePresent <==> exists k :: 0 <= k < i && hs[k].name == CT
      invariant forall k :: 0 <= k < i && hs[k].name == CT ==> StartsWith(hs[k].value, contentType)
      invariant ContentLength(hs[..i]) == if lengthPresent then Some(cl) else None
    {
      assert hs[..i + 1][..i] == hs[..i];
      if hs[i].name == CT {
        typePresent := true;
        if !StartsWith(hs[i].value, contentType) {
          return false, cl;
        }
      } else if hs[i].name == CL {
        lengthPresent := true;
        cl := Atoi(hs[i].value);
      }
    }
    assert hs[..|hs|] == hs;
    return typePresent && lengthPresent, cl;
  }

  /** What a successful response hands back: headers parsed and checked, payload taken over. */
  function Receive(raw: string, contentType: string): (r: Payload) {
    var (hs, p) := ParseHeaders(raw + "\0");
    if Accepted(hs, contentType) then HandOff(raw, p, ContentLength(hs).value) else Unsupported
  }

  // ---------------------------------------------------------------- printed responses

  datatype Line = Line(name: string, pad: string, value: string)

  predicate Plain(s: string) {
    forall k :: 0 <= k < |s| ==> s[k] != '\r' && s[k] != '\n' && s[k] != '\0'
  }

  predicate ValidLine(l: Line) {
    && l.name != [] && Plain(l.name) && ':' !in l.name
    && (forall k :: 0 <= k < |l.pad| ==> l.pad[k] == ' ')
    && Plain(l.value) && (l.value != [] ==> l.value[0] != ' ')
  }

  function LineText(l: Line): (s: string) {
    l.name + (":" + (l.pad + (l.value + "\r\n")))
  }

  function LinesText(ls: seq<Line>): (s: string) {
    if ls == [] then "" else LineText(ls[0]) + LinesText(ls[1..])
  }

  function Response(status: string, ls: seq<Line>, body: string): (s: string) {
    status + ("\r\n" + (LinesText(ls) + ("\r\n" + body)))
  }

  function Printed(ls: seq<Line>): (hs: seq<Header>) {
    if ls == [] then [] else [Header(ls[0].name, ls[0].value)] + Printed(ls[1..])
  }

  // ---------------------------------------------------------------- reading a printed response

  /** A word of ordinary bytes up to a delimiter. */
  lemma {:induction false} CspnText(mem: string, p: nat, t: string, delims: set<char>, c: char)
    requires At(mem, p, t + [c]) && c in delims && forall k :: 0 <= k < |t| ==> t[k] != '\0' && t[k] !in delims
    ensures Cspn(mem, p, delims) == |t|
    decreases |t|
  {
    hide At;
    AtChar(mem, p, t + [c], 0);
    if t != [] {
      assert t + [c] == [t[0]] + (t[1..] + [c]);
      AtSplit(mem, p, [t[0]], t[1..] + [c]);
      CspnText(mem, p + 1, t[1..], delims, c);
    }
  }

  lemma {:induction false} SpnText(mem: string, p: nat, t: string, accept: set<char>)
    requires At(mem, p, t) && forall k :: 0 <= k < |t| ==> t[k] != '\0' && t[k] in accept
    requires p + |t| < |mem| ==> mem[p + |t|] !in accept || mem[p + |t|] == '\0'
    ensures Spn(mem, p, accept) == |t|
    decreases |t|
  {
    hide At;
    if t != [] {
      AtChar(mem, p, t, 0);
      assert t == [t[0]] + t[1..];
      AtSplit(mem, p, [t[0]], t[1..]);
      SpnText(mem, p + 1, t[1..], accept);
    }
  }

  /** A word, its delimiter and the whitespace behind it are taken as printed. */
  lemma TakeText(mem: string, p: nat, t: string, c: char, sp: string, delims: set<char>, white: set<char>)
    requires At(mem, p, t + [c] + sp) && c in delims && c != '\0'
    requires forall k :: 0 <= k < |t| ==> t[k] != '\0' && t[k] !in delims
    requires forall k :: 0 <= k < |sp| ==> sp[k] != '\0' && sp[k] in white
    requires var q := p + |t| + 1 + |sp|; q < |mem| ==> mem[q] !in white || mem[q] == '\0'
    ensures p <= |mem| && Take(mem, p, delims, white, '\0') == Word(t, p + |t| + 1 + |sp|)
  {
    hide Cspn, Spn;
    AtSplit(mem, p, t + [c], sp);
    AtSplit(mem, p, t, [c]);
    CspnText(mem, p, t, delims, c);
    SpnText(mem, p + |t| + 1, sp, white);
    AtChar(mem, p + |t|, [c], 0);
  }

  /** A line of plain bytes, not followed by another line break, holds no header break. */
  lemma {:induction false} NoBreakInLine(mem: string, p: nat, t: string)
    requires Plain(t) && At(mem, p, t + "\r\n") && (p + |t| + 2 < |mem| ==> mem[p + |t| + 2] != '\r')
    ensures FindBreak(mem, p) == FindBreak(mem, p + |t| + 2)
    decreases |t|
  {
    hide At;
    AtChar(mem, p, t + "\r\n", 0);
    if t == [] {
      AtChar(mem, p, t + "\r\n", 1);
      if p + 4 <= |mem| {
        assert mem[p..p + 4][2] == mem[p + 2];
      }
      if p + 5 <= |mem| {
        assert mem[p + 1..p + 5][0] == mem[p + 1];
      }
    } else {
      if p + 4 <= |mem| {
        assert mem[p..p + 4][0] == mem[p];
      }
      assert t + "\r\n" == [t[0]] + (t[1..] + "\r\n");
      AtSplit(mem, p, [t[0]], t[1..] + "\r\n");
      NoBreakInLine(mem, p + 1, t[1..]);
    }
  }

  lemma {:induction false} BreakAfterLine(mem: string, p: nat, t: string)
    requires Plain(t) && At(mem, p, t + "\r\n\r\n")
    ensures FindBreak(mem, p) == Some(p + |t|)
    decreases |t|
  {
    if t == [] {
      assert t + "\r\n\r\n" == "\r\n\r\n";
      AtChar(mem, p, "\r\n\r\n", 0);
    } else {
      AtChar(mem, p, t + "\r\n\r\n", 0);
      assert mem[p..p + 4][0] == mem[p];
      assert t + "\r\n\r\n" == [t[0]] + (t[1..] + "\r\n\r\n");
      AtSplit(mem, p, [t[0]], t[1..] + "\r\n\r\n");
      BreakAfterLine(mem, p + 1, t[1..]);
    }
  }

  /** What follows a header line: the next line, or the empty line and the body. */
  predicate Stops(mem: string, p: nat) {
    p < |mem| ==> mem[p] !in LINE_END
  }

  /** One printed header, the line break behind it given as '\r' and `sp`. */
  lemma HeaderReads(mem: string, p: nat, l: Line, sp: string)
    requires ValidLine(l) && (sp == "\n" || sp == "\n\r\n")
    requires At(mem, p, l.name + (":" + (l.pad + (l.value + ("\r" + sp)))))
    requires Stops(mem, p + |LineText(l)| + |sp| - 1)
    ensures p <= |mem|
    ensures var name := Take(mem, p, {':'}, {' '}, '\0');
            && name.text == l.name
            && Take(mem, name.next, LINE_END, LINE_END, '\0') == Word(l.value, p + |LineText(l)| + |sp| - 1)
  {
    hide At, Take;
    var v := l.value + ("\r" + sp);
    assert l.name + (":" + (l.pad + v)) == (l.name + [':'] + l.pad) + v;
    AtSplit(mem, p, l.name + [':'] + l.pad, v);
    var q := p + |l.name| + 1 + |l.pad|;
    AtChar(mem, q, v, 0);
    TakeText(mem, p, l.name, ':', l.pad, {':'}, {' '});
    assert v == l.value + ['\r'] + sp;
    TakeText(mem, q, l.value, '\r', sp, LINE_END, LINE_END);
  }

  lemma LineSplit(l: Line, rest: string)
    ensures LineText(l) + rest == l.name + (":" + (l.pad + (l.value + ("\r" + "\n")))) + rest
    ensures LineText(l) + ("\r\n" + rest) == l.name + (":" + (l.pad + (l.value + ("\r" + "\n\r\n")))) + rest
  {
  }

  /** The first byte of a header line. */
  lemma {:induction false} LineStart(ls: seq<Line>, rest: string)
    requires ls != [] && ValidLine(ls[0])
    ensures |LineText(ls[0])| >= 4 && |LinesText(ls)| >= 4
    ensures (LinesText(ls) + rest)[0] == ls[0].name[0] && ls[0].name[0] !in LINE_END
  {
  }

  predicate ValidLines(ls: seq<Line>) {
    forall k :: 0 <= k < |ls| ==> ValidLine(ls[k])
  }

  /** The header break is found right behind the last header. */
  lemma {:induction false} BreakFound(mem: string, p: nat, ls: seq<Line>, rest: string)
    requires ls != [] && ValidLines(ls) && At(mem, p, LinesText(ls) + ("\r\n" + rest))
    ensures FindBreak(mem, p) == Some(p + |LinesText(ls)| - 2)
    decreases |ls|
  {
    hide At, FindBreak;
    var l, more := ls[0], LinesText(ls[1..]) + ("\r\n" + rest);
    var t := l.name + (":" + (l.pad + l.value));
    assert ValidLine(l);
    assert Plain(t) by { PlainLine(l); }
    assert LinesText(ls) + ("\r\n" + rest) == (t + "\r\n") + more;
    AtSplit(mem, p, t + "\r\n", more);
    if |ls| == 1 {
      assert (t + "\r\n") + more == (t + "\r\n\r\n") + rest;
      AtSplit(mem, p, t + "\r\n\r\n", rest);
      BreakAfterLine(mem, p, t);
    } else {
      assert ValidLine(ls[1..][0]);
      LineStart(ls[1..], "\r\n" + rest);
      AtChar(mem, p + |t| + 2, more, 0);
      NoBreakInLine(mem, p, t);
      BreakFound(mem, p + |t| + 2, ls[1..], rest);
    }
  }

  lemma PlainLine(l: Line)
    requires ValidLine(l)
    ensures Plain(l.name + (":" + (l.pad + l.value)))
  {
  }

  /** The first of some printed headers, followed by more of them or by the empty line. */
  lemma FirstHeader(mem: string, p: nat, ls: seq<Line>, rest: string) returns (next: nat)
    requires ls != [] && ValidLines(ls) && At(mem, p, LinesText(ls) + ("\r\n" + rest))
    requires Stops(mem, p + |LinesText(ls)| + 2)
    ensures next == p + |LineText(ls[0])| + if |ls| == 1 then 2 else 0
    ensures p <= |mem| && ls[0].name != [] && |LineText(ls[0])| >= 4 && Take(mem, p, {':'}, {' '}, '\0').text == ls[0].name
    ensures Take(mem, Take(mem, p, {':'}, {' '}, '\0').next, LINE_END, LINE_END, '\0') == Word(ls[0].value, next)
    ensures |ls| > 1 ==> At(mem, next, LinesText(ls[1..]) + ("\r\n" + rest)) && |LinesText(ls[1..])| >= 4
  {
    hide At, Take, LineText, Plain;
    var l, more := ls[0], LinesText(ls[1..]) + ("\r\n" + rest);
    assert ValidLine(l);
    LineStart(ls, "");
    assert LinesText(ls) + ("\r\n" + rest) == LineText(l) + more;
    if |ls| == 1 {
      assert more == "\r\n" + rest;
      LineSplit(l, rest);
      AtSplit(mem, p, l.name + (":" + (l.pad + (l.value + ("\r" + "\n\r\n")))), rest);
      HeaderReads(mem, p, l, "\n\r\n");
    } else {
      AtSplit(mem, p, LineText(l), more);
      LineSplit(l, more);
      AtSplit(mem, p, l.name + (":" + (l.pad + (l.value + ("\r" + "\n")))), more);
      assert ValidLine(ls[1..][0]);
      LineStart(ls[1..], "\r\n" + rest);
      AtChar(mem, p + |LineText(l)|, more, 0);
      HeaderReads(mem, p, l, "\n");
    }
    next := p + |LineText(l)| + if |ls| == 1 then 2 else 0;
  }

  /** All printed headers are read, and reading stops at the first byte of the body. */
  lemma {:induction false} LinesRead(mem: string, p: nat, ls: seq<Line>, rest: string, n: nat)
    requires ls != [] && |ls| <= n && ValidLines(ls) && At(mem, p, LinesText(ls) + ("\r\n" + rest))
    requires Stops(mem, p + |LinesText(ls)| + 2)
    ensures p <= |mem|
    ensures ScanHeaders(mem, p, Some(p + |LinesText(ls)| - 2), n) == (Printed(ls), p + |LinesText(ls)| + 2)
    decreases |ls|
  {
    hide At, Take, LineText, ScanHeaders, Stops, ValidLine;
    var next := FirstHeader(mem, p, ls, rest);
    ScanTurn(mem, p, Some(p + |LinesText(ls)| - 2), n);
    assert LinesText(ls) == LineText(ls[0]) + LinesText(ls[1..]);
    if |ls| == 1 {
      assert Printed(ls) == [Header(ls[0].name, ls[0].value)];
    } else {
      LinesRead(mem, next, ls[1..], rest, n - 1);
    }
  }

  /** For every response with 1 to 16 headers and a body that does not start with a line
      break: the headers come back as printed, and the cursor is at the first body byte. */
  lemma {:induction false} ResponseParses(status: string, ls: seq<Line>, body: string)
    requires Plain(status) && 1 <= |ls| <= 16 && ValidLines(ls) && (body != [] ==> body[0] != '\r' && body[0] != '\n')
    ensures var raw := Response(status, ls, body);
            ParseHeaders(raw + "\0") == (Printed(ls), |raw| - |body|)
  {
    hide At, Take, FindBreak, ScanHeaders, LinesText, Printed;
    var tail := body + "\0";
    var mem, rest := Response(status, ls, body) + "\0", LinesText(ls) + ("\r\n" + tail);
    var q := |status| + 2;
    LineStart(ls, "\r\n" + tail);
    StatusLine(status, ls, body, mem);
    BreakFound(mem, q, ls, tail);
    assert rest == (LinesText(ls) + "\r\n") + tail;
    AtSplit(mem, q, LinesText(ls) + "\r\n", tail);
    AtChar(mem, q + |LinesText(ls)| + 2, tail, 0);
    LinesRead(mem, q, ls, tail, MAX_HEADERS);
  }

  /** The status line is skipped and hides no header break. */
  lemma {:induction false} StatusLine(status: string, ls: seq<Line>, body: string, mem: string)
    requires Plain(status) && ls != [] && ValidLine(ls[0]) && mem == Response(status, ls, body) + "\0"
    ensures At(mem, |status| + 2, LinesText(ls) + ("\r\n" + (body + "\0")))
    ensures Take(mem, 0, LINE_END, LINE_END, '\0').next == |status| + 2
    ensures FindBreak(mem, 0) == FindBreak(mem, |status| + 2)
  {
    hide At, Take, FindBreak, LinesText;
    var rest := LinesText(ls) + ("\r\n" + (body + "\0"));
    ResponseSplit(status, LinesText(ls), body);
    var first := status + ['\r'] + "\n";
    AtStart(mem);
    AtSplit(mem, 0, first, rest);
    LineStart(ls, "\r\n" + (body + "\0"));
    AtChar(mem, |first|, rest, 0);
    TakeText(mem, 0, status, '\r', "\n", LINE_END, LINE_END);
    NoBreakInLine(mem, 0, status);
  }

  lemma ResponseSplit(status: string, lines: string, body: string)
    ensures status + ("\r\n" + (lines + ("\r\n" + body))) + "\0" ==
            (status + ['\r'] + "\n") + (lines + ("\r\n" + (body + "\0")))
    ensures status + ['\r'] + "\n" == status + "\r\n"
  {
  }

  // ---------------------------------------------------------------- quoted words

  /** A word with every delimiter in it quoted. */
  function Quoted(t: string, delims: set<char>, quote: char): (s: string) {
    if t == [] then "" else (if t[0] in delims then [quote, t[0]] else [t[0]]) + Quoted(t[1..], delims, quote)
  }

  /** Reading on from `p` with `acc` as the word so far. */
  function Resume(mem: string, p: nat, acc: string, delims: set<char>, quote: char): (r: (string, nat))
    requires p <= |mem|
  {
    var e := p + Cspn(mem, p, delims);
    Unquote(mem, e, acc + mem[p..e], delims, quote)
  }

  lemma ResumePlain(mem: string, p: nat, acc: string, delims: set<char>, quote: char)
    requires p < |mem| && mem[p] != '\0' && mem[p] !in delims
    ensures Resume(mem, p, acc, delims, quote) == Resume(mem, p + 1, acc + [mem[p]], delims, quote)
  {
    hide Cspn, Unquote;
    CspnTurn(mem, p, delims);
    var e := p + 1 + Cspn(mem, p + 1, delims);
    assert mem[p..e] == [mem[p]] + mem[p + 1..e];
    assert acc + mem[p..e] == acc + [mem[p]] + mem[p + 1..e];
  }

  lemma ResumeQuoted(mem: string, p: nat, acc: string, delims: set<char>, quote: char)
    requires p + 1 < |mem| && mem[p] == quote && quote != '\0' && quote !in delims && mem[p + 1] in delims && mem[p + 1] != '\0'
    ensures Resume(mem, p, acc, delims, quote) == Resume(mem, p + 2, acc + [mem[p + 1]], delims, quote)
  {
    hide Cspn, Unquote;
    CspnTurn(mem, p, delims);
    CspnTurn(mem, p + 1, delims);
    SwallowedText(mem, p, acc, mem[p + 1], Cspn(mem, p + 2, delims), quote);
    UnquoteTurn(mem, p + 1, acc + [quote], delims, quote);
  }

  lemma ResumeEnd(mem: string, p: nat, acc: string, delims: set<char>, quote: char)
    requires p < |mem| && mem[p] in delims && (acc != [] ==> acc[|acc| - 1] != quote)
    ensures Resume(mem, p, acc, delims, quote) == (acc, p)
  {
    hide Unquote;
    assert acc + mem[p..p] == acc;
    UnquoteDone(mem, p, acc, delims, quote);
  }

  lemma {:induction false} QuotedReads(mem: string, p: nat, acc: string, t: string, c: char, delims: set<char>, quote: char)
    requires At(mem, p, Quoted(t, delims, quote) + [c]) && c in delims && quote !in delims && quote != '\0'
    requires forall k :: 0 <= k < |t| ==> t[k] != '\0' && t[k] != quote
    requires acc != [] ==> acc[|acc| - 1] != quote
    ensures p <= |mem| && Resume(mem, p, acc, delims, quote) == (acc + t, p + |Quoted(t, delims, quote)|)
    decreases |t|
  {
    hide At, Resume;
    if t == [] {
      AtChar(mem, p, Quoted(t, delims, quote) + [c], 0);
      ResumeEnd(mem, p, acc, delims, quote);
      assert acc + t == acc;
    } else {
      var first, more := if t[0] in delims then [quote, t[0]] else [t[0]], Quoted(t[1..], delims, quote) + [c];
      assert Quoted(t, delims, quote) + [c] == first + more;
      AtSplit(mem, p, first, more);
      AtChar(mem, p, first, 0);
      if t[0] in delims {
        AtChar(mem, p, first, 1);
        ResumeQuoted(mem, p, acc, delims, quote);
      } else {
        ResumePlain(mem, p, acc, delims, quote);
      }
      QuotedReads(mem, p + |first|, acc + [t[0]], t[1..], c, delims, quote);
      assert acc + [t[0]] + t[1..] == acc + t;
    }
  }

  lemma CspnTurn(mem: string, p: nat, delims: set<char>)
    requires p < |mem|
    ensures Cspn(mem, p, delims) == if mem[p] == '\0' || mem[p] in delims then 0 else 1 + Cspn(mem, p + 1, delims)
  {
  }

  lemma {:induction false} UnquoteDone(mem: string, e: nat, t: string, delims: set<char>, quote: char)
    requires e <= |mem| && (t != [] ==> t[|t| - 1] != quote)
    ensures Unquote(mem, e, t, delims, quote) == (t, e)
  {
  }

  lemma SwallowedText(mem: string, p: nat, acc: string, d: char, off: nat, quote: char)
    requires p + 2 + off <= |mem| && mem[p] == quote && mem[p + 1] == d
    ensures acc + mem[p..p + 1] == acc + [quote] && |acc + [quote]| == |acc| + 1
    ensures (acc + [quote])[..|acc|] + mem[p + 1..p + 1 + 1 + off] == acc + [d] + mem[p + 2..p + 2 + off]
  {
  }

  /** Every word free of the quote character comes back from its quoted form. */
  lemma {:induction false} QuotedTakes(mem: string, p: nat, t: string, c: char, delims: set<char>, white: set<char>, quote: char)
    requires At(mem, p, Quoted(t, delims, quote) + [c]) && c in delims && quote !in delims && quote != '\0'
    requires forall k :: 0 <= k < |t| ==> t[k] != '\0' && t[k] != quote
    ensures p <= |mem| && Take(mem, p, delims, white, quote).text == t
  {
    hide At, Cspn, Unquote, Quoted;
    QuotedReads(mem, p, "", t, c, delims, quote);
    var e := p + Cspn(mem, p, delims);
    assert "" + mem[p..e] == mem[p..e] && "" + t == t;
  }
}
