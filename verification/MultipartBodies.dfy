/** Multipart bodies as section 5.1 of RFC 2046 and section 4.4.2 of RFC 7030 write them, and
    what the EST client makes of them.  The names, types and limits are written out here,
    independently of the parser. */
module MultipartBodies {
  import opened Multipart
  import opened MultipartReading
  import opened Options
  import opened Texts

  /** One part: the line that starts it, its header lines and its data. */
  datatype Section = Section(line: string, hs: seq<HeaderLine>, data: string)

  /** From the line of a part to the line break behind its data. */
  function SectionText(s: Section): (t: string) {
    (s.line + "\r\n") + (Lines(s.hs) + ("\r\n" + (s.data + "\r\n--")))
  }

  /** Two parts and what follows them. */
  function BodyOf(p: Section, q: Section, rest: string): (t: string) {
    "--" + (SectionText(p) + (SectionText(q) + rest))
  }

  /** A part the parser can read: at least one header, and no '-' within two bytes of a CR in
      its data.  The line only has to be as long as the boundary. */
  predicate Readable(s: Section, b: string) {
    |s.line| == |b| && s.hs != [] && ValidLines(s.hs) && NoDashAfterCr(s.data)
  }

  // ---------------------------------------------------------------- what a part is worth

  predicate IsType(h: HeaderLine) {
    "Content-Type" <= h.name
    && ("application/pkcs8" <= h.value || "application/pkcs7-mime; smime-type=certs-only" <= h.value)
  }

  predicate IsEncoding(h: HeaderLine) {
    "Content-Transfer-Encoding" <= h.name && "base64" <= h.value
  }

  /** The value of the last known type among the headers. */
  function TypeIn(hs: seq<HeaderLine>): (r: Option<string>) {
    if hs == [] then None
    else if IsType(hs[|hs| - 1]) then Some(hs[|hs| - 1].value)
    else TypeIn(hs[..|hs| - 1])
  }

  predicate Encoded(hs: seq<HeaderLine>) {
    exists k :: 0 <= k < |hs| && IsEncoding(hs[k])
  }

  predicate IsBlankData(s: string) {
    forall c :: c in s ==> c == ' ' || c == '\r' || c == '\n'
  }

  datatype Verdict = Ignored | Rejected | IsKey | IsCert

  /** What data is under the given headers: ignored unless type and encoding are known,
      refused if it is blank or longer than 8192 bytes. */
  function Judge(hs: seq<HeaderLine>, data: string): (v: Verdict) {
    if TypeIn(hs).None? || !Encoded(hs) then Ignored
    else if |data| > 8192 || IsBlankData(data) then Rejected
    else if "application/pkcs8" <= TypeIn(hs).value then IsKey
    else IsCert
  }

  /** What a body of two parts gives.  The headers of an ignored part stay in force. */
  function Expected(p: Section, q: Section): (r: Parsed) {
    var v := Judge(p.hs, p.data);
    var w := Judge(if v == Ignored then p.hs + q.hs else q.hs, q.data);
    var key, cert := if v == IsKey then p.data else "", if v == IsCert then p.data else "";
    if v == Rejected then Payloads(MultipartParse, "", "")
    else if w == Rejected then Payloads(MultipartParse, key, cert)
    else
      var key2, cert2 := if w == IsKey then q.data else key, if w == IsCert then q.data else cert;
      Payloads(if key2 != "" && cert2 != "" then NoError else ZeroLengthBuf, key2, cert2)
  }

  /** The header lines still in force behind the second part. */
  function InForce(p: Section, q: Section): (hs: seq<HeaderLine>) {
    var now := (if Judge(p.hs, p.data) == Ignored then p.hs else []) + q.hs;
    if Judge(now, q.data) == Ignored then now else []
  }

  // ---------------------------------------------------------------- the callback

  /** The stored headers tell the type and the encoding of the header lines. */
  ghost predicate Means(hdrs: seq<Header>, hs: seq<HeaderLine>) {
    && Lookup(hdrs, CT) == (if TypeIn(hs).Some? then Value(TypeIn(hs).value) else Missing)
    && (Encoded(hs) ==> Lookup(hdrs, CTE).Value? && "base64" <= Lookup(hdrs, CTE).v)
    && (!Encoded(hs) ==> Lookup(hdrs, CTE).Missing?)
  }

  lemma {:induction false} LookupMore(hdrs: seq<Header>, h: Header, name: string)
    ensures Lookup(hdrs + [h], name) == if name <= h.name then Value(h.value) else Lookup(hdrs, name)
  {
    assert (hdrs + [h])[..|hdrs|] == hdrs;
    Prefix(h.name, name);
  }

  lemma EncodedMore(hs: seq<HeaderLine>, h: HeaderLine)
    ensures Encoded(hs + [h]) <==> Encoded(hs) || IsEncoding(h)
  {
    hide IsEncoding;
    var more := hs + [h];
    assert more[|hs|] == h;
    if Encoded(hs) {
      var k :| 0 <= k < |hs| && IsEncoding(hs[k]);
      assert more[k] == hs[k];
    }
  }

  lemma {:induction false} TypeMore(hs: seq<HeaderLine>, h: HeaderLine)
    ensures TypeIn(hs + [h]) == if IsType(h) then Some(h.value) else TypeIn(hs)
  {
    assert (hs + [h])[..|hs|] == hs;
  }

  lemma MeansMore(st: Store, hs: seq<HeaderLine>, h: HeaderLine)
    requires Means(st.hdrs, hs)
    ensures Means(SetHeaderValue(st.(name := h.name), h.value).hdrs, hs + [h])
  {
    hide Lookup, SetHeaderValue, TypeIn, Encoded;
    Grows(st, h);
    NamesDiffer(h.name);
    TypeMore(hs, h);
    EncodedMore(hs, h);
    LookupMore(st.hdrs, Header(h.name, h.value), CT);
    LookupMore(st.hdrs, Header(h.name, h.value), CTE);
    assert st.hdrs + [] == st.hdrs;
  }

  lemma {:induction false} MeansAll(st: Store, before: seq<HeaderLine>, hs: seq<HeaderLine>)
    requires Means(st.hdrs, before)
    ensures var u := StoreAll(st, hs);
            Means(u.hdrs, before + hs) && u.key == st.key && u.cert == st.cert && |u.hdrs| <= |st.hdrs| + |hs|
    decreases |hs|
  {
    hide Means, SetHeaderValue, Known;
    if hs == [] {
      assert before + hs == before;
    } else {
      var h := hs[0];
      MeansMore(st, before, h);
      Grows(st, h);
      MeansAll(SetHeaderValue(st.(name := h.name), h.value), before + [h], hs[1..]);
      assert before + [h] + hs[1..] == before + hs;
    }
  }

  lemma SameBlank(data: string)
    ensures OnlyWhitespace(data) <==> IsBlankData(data)
  {
    if OnlyWhitespace(data) {
      forall c | c in data ensures c == ' ' || c == '\r' || c == '\n' {
        var k :| 0 <= k < |data| && data[k] == c;
      }
    } else {
      var k :| 0 <= k < |data| && data[k] != ' ' && data[k] != '\r' && data[k] != '\n';
      assert data[k] in data;
    }
  }

  lemma {:induction false} TypeIsKnown(hs: seq<HeaderLine>)
    ensures TypeIn(hs).Some? ==>
              "application/pkcs8" <= TypeIn(hs).value || "application/pkcs7-mime; smime-type=certs-only" <= TypeIn(hs).value
  {
    if hs != [] {
      TypeIsKnown(hs[..|hs| - 1]);
    }
  }

  /** The callback acts on the verdict. */
  lemma CallbackJudges(st: Store, hs: seq<HeaderLine>, data: string)
    requires Means(st.hdrs, hs)
    ensures PartDataCb(st, data) ==
            match Judge(hs, data)
            case Ignored => (false, st)
            case Rejected => (true, st)
            case IsKey => Finish(st.(key := data))
            case IsCert => Finish(st.(cert := data))
  {
    hide StartsWith, Lookup, TypeIn, Encoded, OnlyWhitespace, IsBlankData;
    SameBlank(data);
    TypeIsKnown(hs);
    var ct, cte := Lookup(st.hdrs, CT), Lookup(st.hdrs, CTE);
    if ct.Value? && cte.Value? {
      Prefix(cte.v, BASE64);
      Prefix(ct.v, PKCS8);
      Prefix(ct.v, PKCS7);
    }
  }

  /** Whatever data comes now, the callback passes it over. */
  ghost predicate Idle(st: Store) {
    Lookup(st.hdrs, CT).Missing? || Lookup(st.hdrs, CTE).Missing?
  }

  lemma IdleCallback(st: Store, data: string)
    requires Idle(st)
    ensures PartDataCb(st, data) == (false, st)
  {
  }

  lemma IgnoredIsIdle(st: Store, hs: seq<HeaderLine>, data: string)
    requires Means(st.hdrs, hs) && Judge(hs, data) == Ignored
    ensures Idle(st)
  {
  }

  // ---------------------------------------------------------------- whole bodies

  /** Header lines and the empty line behind them, up to the first byte of the data. */
  lemma ReadBlock(buf: string, len: nat, b: string, m: Pos, st: Store, hs: seq<HeaderLine>, tail: string) returns (t: Pos)
    requires Ready(buf, len, m) && m.mode == HeaderFieldStart && !m.seenDelim && hs != [] && ValidLines(hs) && tail != []
    requires At(buf, m.i, Lines(hs) + ("\r\n" + tail))
    ensures t == m.(i := m.i + |Lines(hs)| + 2, mark := t.mark, mode := PartData, seenHeaders := true)
    ensures t.mark == t.i && At(buf, t.i, tail)
    ensures Run(buf, len, b, m, st) == if Spills(|st.hdrs|, hs) then Overrun else Run(buf, len, b, t, StoreAll(st, hs))
  {
    hide At, Run, Turn, Lines, StoreAll, Spills, ValidLine;
    var m2 := ReadLines(buf, len, b, m, st, hs, "\r\n" + tail);
    var u := StoreAll(st, hs);
    AtSplit(buf, m2.i, "\r\n", tail);
    ReadEmptyLine(buf, len, b, m2, u);
    var m3 := m2.(i := m2.i + 2, mark := m2.i, mode := PartDataStart);
    AtChar(buf, m3.i, tail, 0);
    EnterData(buf, len, b, m3, u);
    t := m3.(mark := m3.i, mode := PartData);
  }

  /** From the line of a part to the first byte of its data. */
  lemma ReadHead(buf: string, len: nat, b: string, m: Pos, st: Store, s: Section, tail: string) returns (t: Pos)
    requires Ready(buf, len, m) && m.mode == StartBoundary && m.index == 0 && !m.seenDelim
    requires |s.line| == |b| && s.hs != [] && ValidLines(s.hs) && tail != []
    requires At(buf, m.i, (s.line + "\r\n") + (Lines(s.hs) + ("\r\n" + tail)))
    ensures t == m.(i := m.i + |s.line| + |Lines(s.hs)| + 4, mark := t.mark, mode := PartData, seenHeaders := true)
    ensures t.mark == t.i && At(buf, t.i, tail)
    ensures Run(buf, len, b, m, st) ==
            if Spills(|st.hdrs|, s.hs) then Overrun else Run(buf, len, b, t, StoreAll(st, s.hs))
  {
    hide At, Run, Turn, Lines, StoreAll, Spills, ValidLine;
    AtSplit(buf, m.i, s.line + "\r\n", Lines(s.hs) + ("\r\n" + tail));
    assert s.line[0..] == s.line;
    ReadBoundary(buf, len, b, m, st, s.line);
    t := ReadBlock(buf, len, b, m.(i := m.i + |b| + 2, mode := HeaderFieldStart, index := 0, seenHeaders := false), st, s.hs, tail);
  }

  /** Position and store behind a part that was started at `m` with `st` and the header lines
      `before` in force. */
  ghost predicate Behind(buf: string, m: Pos, st: Store, before: seq<HeaderLine>, s: Section, rest: string, t: Pos, u: Store) {
    var v := Judge(before + s.hs, s.data);
    && u.key == (if v == IsKey then s.data else st.key) && u.cert == (if v == IsCert then s.data else st.cert)
    && t.mark <= t.i == m.i + |SectionText(s)| && t.index == 0 && t.payloads == m.payloads + 1 && !t.seenDelim
    && t.mode == (if t.payloads == 2 then PartDataBoundary else StartBoundary)
    && At(buf, t.i, rest)
    && (v == Ignored ==> Means(u.hdrs, before + s.hs) && |u.hdrs| <= |st.hdrs| + |s.hs|)
    && ((v == IsKey || v == IsCert) && !(u.key != "" && u.cert != "") ==> u.hdrs == [])
    && (v == Ignored || u.hdrs == [] ==> Idle(u))
  }

  /** The part ends the call: it is refused, or completes the other one. */
  predicate Ends(v: Verdict, u: Store) {
    v == Rejected || (v != Ignored && u.key != "" && u.cert != "")
  }

  /** A whole part. */
  lemma ReadSection(buf: string, len: nat, b: string, m: Pos, st: Store, before: seq<HeaderLine>, s: Section, rest: string)
      returns (t: Pos, u: Store)
    requires Ready(buf, len, m) && m.mode == StartBoundary && m.index == 0 && !m.seenDelim && Readable(s, b)
    requires Means(st.hdrs, before) && |st.hdrs| + |s.hs| <= 16 && At(buf, m.i, SectionText(s) + rest)
    ensures Behind(buf, m, st, before, s, rest, t, u)
    ensures Run(buf, len, b, m, st) ==
            if Ends(Judge(before + s.hs, s.data), u) then Outcome(t.i - 4, u) else Run(buf, len, b, t, u)
  {
    hide At, Run, Turn, Means, Lines, StoreAll, Spills, ValidLine, PartDataCb, Judge, NoDashAfterCr;
    var d := s.data + "\r\n--";
    AtSplit(buf, m.i, SectionText(s), rest);
    var t0 := ReadHead(buf, len, b, m, st, s, d);
    SpillsIffKept(|st.hdrs|, s.hs);
    MeansAll(st, before, s.hs);
    var u0 := StoreAll(st, s.hs);
    HandOver(buf, len, b, t0, u0, s.data);
    CallbackJudges(u0, before + s.hs, s.data);
    u := PartDataCb(u0, s.data).1;
    if Judge(before + s.hs, s.data) == Ignored {
      IgnoredIsIdle(u0, before + s.hs, s.data);
    }
    var i := t0.mark + |s.data|;
    t := t0.(i := i + 4, mark := i, payloads := m.payloads + 1, index := 0,
             mode := if m.payloads + 1 == EXPECTED_PAYLOADS then PartDataBoundary else StartBoundary);
  }

  lemma StartOfBody(line: string, more: string)
    requires line != [] && line[0] != '-'
    ensures var body := "--" + (line + more);
            Dashes(body) == 2 && |body[2..]| < |body| && body[2..] == line + more && At(body[2..], 0, line + more)
  {
    var body := "--" + (line + more);
    assert body[2..] == line + more;
    AtStart(body[2..]);
    assert body[2] == line[0] && body[1] == '-' && body[0] == '-';
  }

  lemma {:induction false} StartIsBoundary(buf: string, len: nat, b: string)
    requires 0 < len
    ensures Run(buf, len, b, Fresh, EmptyStore) == Run(buf, len, b, Fresh.(mode := StartBoundary), EmptyStore)
  {
    SameTurn(buf, len, b, Fresh, Fresh.(mode := StartBoundary), EmptyStore);
  }

  lemma NothingMeant()
    ensures Means([], [])
  {
  }

  /** What is left of a body behind its second part: the call has ended at `n`, or goes on at `t`. */
  datatype Left = Ended(n: nat, u: Store) | Goes(t: Pos, u: Store)

  ghost predicate Fits(buf: string, len: nat, p: Section, q: Section, rest: string, x: Left) {
    var e, u := Expected(p, q), x.u;
    && u.key == e.key && u.cert == e.cert
    && (x.Ended? ==> x.n < len && e.error == if u.key != "" && u.cert != "" then NoError else MultipartParse)
    && (x.Goes? ==> && x.t.mark <= x.t.i && !x.t.seenDelim && x.t.mode == PartDataBoundary && x.t.index == 0
                    && At(buf, x.t.i, rest) && Idle(u) && !(u.key != "" && u.cert != "") && e.error == ZeroLengthBuf
                    && (InForce(p, q) == [] ==> u.hdrs == []))
  }

  ghost function Continued(buf: string, len: nat, b: string, x: Left): (o: Outcome)
    requires x.Goes? ==> x.t.mark <= x.t.i
  {
    if x.Ended? then Outcome(x.n, x.u) else Run(buf, len, b, x.t, x.u)
  }

  /** Two parts from a boundary line on, `before` being the header lines still in force: up to
      the byte behind the second part, or to where the call ends before. */
  lemma {:induction false} ReadTwo(buf: string, len: nat, b: string, m: Pos, st: Store, before: seq<HeaderLine>,
                                   p: Section, q: Section, rest: string) returns (x: Left)
    requires Ready(buf, len, m) && m.mode == StartBoundary && m.index == 0 && !m.seenDelim && m.payloads == 0
    requires Readable(p, b) && Readable(q, b) && Means(st.hdrs, before) && st.key == "" && st.cert == ""
    requires |st.hdrs| + |p.hs| + |q.hs| <= 16 && At(buf, m.i, SectionText(p) + (SectionText(q) + rest))
    ensures Fits(buf, len, p.(hs := before + p.hs), q, rest, x)
    ensures Run(buf, len, b, m, st) == Continued(buf, len, b, x)
  {
    hide At, Run, Turn, Means, Judge, ValidLine, NoDashAfterCr, Idle;
    var t, u := ReadSection(buf, len, b, m, st, before, p, SectionText(q) + rest);
    var v := Judge(before + p.hs, p.data);
    if v == Rejected {
      x := Ended(t.i - 4, u);
      TailFits(buf, t.i, SectionText(q) + rest);
    } else {
      var now := if v == Ignored then before + p.hs else [];
      NothingMeant();
      NoBefore(q.hs);
      t, u := ReadSection(buf, len, b, t, u, now, q, rest);
      x := if Ends(Judge(now + q.hs, q.data), u) then Ended(t.i - 4, u) else Goes(t, u);
      TailFits(buf, t.i, rest);
    }
  }

  lemma {:induction false} ReadBody(b: string, p: Section, q: Section, rest: string) returns (x: Left)
    requires 1 <= |b| && Readable(p, b) && Readable(q, b) && p.line[0] != '-' && |p.hs| + |q.hs| <= 16
    ensures var body := BodyOf(p, q, rest); Dashes(body) == 2 && |body[2..]| < |body| && Fits(body[2..], |body|, p, q, rest, x)
    ensures var body := BodyOf(p, q, rest);
            Run(body[2..], |body|, b, Fresh, EmptyStore) == Continued(body[2..], |body|, b, x)
  {
    hide At, Run, Turn, Means, Idle, Expected, InForce, Readable;
    var body := BodyOf(p, q, rest);
    var more := "\r\n" + (Lines(p.hs) + ("\r\n" + (p.data + "\r\n--"))) + (SectionText(q) + rest);
    assert SectionText(p) + (SectionText(q) + rest) == p.line + more;
    FirstLine(p, b);
    StartOfBody(p.line, more);
    StartIsBoundary(body[2..], |body|, b);
    NothingMeant();
    NoBefore(p.hs);
    x := ReadTwo(body[2..], |body|, b, Fresh.(mode := StartBoundary), EmptyStore, [], p, q, rest);
  }

  lemma FirstLine(p: Section, b: string)
    requires Readable(p, b)
    ensures |p.line| == |b|
  {
  }

  lemma NoBefore(hs: seq<HeaderLine>)
    ensures [] + hs == hs
  {
  }

  lemma TailFits(buf: string, i: nat, rest: string)
    requires At(buf, i, rest)
    ensures i <= |buf|
  {
  }

  /** Every body of two parts gives what their headers and data say.  Only if the parser has not
      stopped before does it read the closing boundary, which it copies behind the two bytes of
      the line break: with 69 bytes that leaves its buffer of 70. */
  lemma BodyGives(b: string, p: Section, q: Section, rest: string)
    requires 1 <= |b| <= 69 && Readable(p, b) && Readable(q, b) && p.line[0] != '-' && |p.hs| + |q.hs| <= 16
    ensures ParsePayload(BodyOf(p, q, b + "--" + rest), b) ==
            if |b| == 69 && Expected(p, q).error == ZeroLengthBuf then OutOfBounds else Expected(p, q)
  {
    hide At, Run, Expected, Readable, BodyOf;
    var body := BodyOf(p, q, b + "--" + rest);
    var x := ReadBody(b, p, q, b + "--" + rest);
    ExpectedShape(p, q);
    if x.Goes? {
      ReadLast(body[2..], |body|, b, x.t, x.u, rest);
    }
  }

  /** If it stops before, it does not matter what follows. */
  lemma BodyGivesEarly(b: string, p: Section, q: Section, rest: string)
    requires 1 <= |b| <= 69 && Readable(p, b) && Readable(q, b) && p.line[0] != '-' && |p.hs| + |q.hs| <= 16
    requires Expected(p, q).error != ZeroLengthBuf
    ensures ParsePayload(BodyOf(p, q, rest), b) == Expected(p, q)
  {
    hide At, Run, Expected, Readable, BodyOf;
    var x := ReadBody(b, p, q, rest);
    ExpectedShape(p, q);
  }

  lemma ExpectedShape(p: Section, q: Section)
    ensures Expected(p, q).Payloads?
  {
  }

  // ---------------------------------------------------------------- the bodies of EST

  predicate ValidBoundaryChar(c: char) {
    43 as char <= c <= 58 as char || 'A' <= c <= 'Z' || 'a' <= c <= 'z' || 39 as char <= c <= 41 as char
    || c == '_' || c == '=' || c == '?' || c == ' '
  }

  predicate ValidBoundary(b: string) {
    1 <= |b| <= 69 && b[0] != '-' && forall k :: 0 <= k < |b| ==> ValidBoundaryChar(b[k])
  }

  /** A part as section 4.4.2 of RFC 7030 writes it: a private key or a certificate, its two
      headers in either order. */
  datatype Part = Part(isKey: bool, typeFirst: bool, pad1: string, pad2: string, data: string)

  function HeadersOf(p: Part): (hs: seq<HeaderLine>) {
    var ty := if p.isKey then "application/pkcs8" else "application/pkcs7-mime; smime-type=certs-only";
    if p.typeFirst
    then [HeaderLine("Content-Type", p.pad1, ty), HeaderLine("Content-Transfer-Encoding", p.pad2, "base64")]
    else [HeaderLine("Content-Transfer-Encoding", p.pad1, "base64"), HeaderLine("Content-Type", p.pad2, ty)]
  }

  function SectionOf(b: string, p: Part): (s: Section) {
    Section(b, HeadersOf(p), p.data)
  }

  predicate ValidPart(p: Part) {
    Spaces(p.pad1) && Spaces(p.pad2) && |p.data| <= 8192 && !IsBlankData(p.data) && NoDashAfterCr(p.data)
  }

  function Body(b: string, p: Part, q: Part, rest: string): (t: string) {
    BodyOf(SectionOf(b, p), SectionOf(b, q), b + "--" + rest)
  }

  lemma KnownLines()
    ensures |CT| == 12 && CT[0] == 'C' && forall c :: c in CT ==> NameChar(c)
    ensures |CTE| == 25 && CTE[0] == 'C' && forall c :: c in CTE ==> NameChar(c)
    ensures PKCS8 != [] && PKCS8[0] == 'a' && '\r' !in PKCS8
    ensures PKCS7 != [] && PKCS7[0] == 'a' && '\r' !in PKCS7
    ensures BASE64 != [] && BASE64[0] == 'b' && '\r' !in BASE64
  {
  }

  lemma HeadersReadable(b: string, p: Part)
    requires Spaces(p.pad1) && Spaces(p.pad2) && NoDashAfterCr(p.data)
    ensures Readable(SectionOf(b, p), b) && |HeadersOf(p)| == 2
  {
    hide NameChar, NoDashAfterCr;
    KnownLines();
  }

  lemma TwoLines(h: HeaderLine, k: HeaderLine)
    ensures TypeIn([h, k]) == if IsType(k) then Some(k.value) else if IsType(h) then Some(h.value) else None
    ensures Encoded([h, k]) <==> IsEncoding(h) || IsEncoding(k)
  {
    hide IsType, IsEncoding;
    TypeMore([], h);
    TypeMore([h], k);
    assert [] + [h] == [h] && [h] + [k] == [h, k];
    assert [h, k][0] == h && [h, k][1] == k;
  }

  lemma PartJudged(p: Part)
    ensures Judge(HeadersOf(p), p.data) ==
            if |p.data| > 8192 || IsBlankData(p.data) then Rejected else if p.isKey then IsKey else IsCert
  {
    hide TypeIn, Encoded, IsBlankData, IsType, IsEncoding;
    var hs := HeadersOf(p);
    TwoLines(hs[0], hs[1]);
    LineFacts(p.pad1);
    LineFacts(p.pad2);
  }

  lemma LineFacts(pad: string)
    ensures var h := HeaderLine("Content-Type", pad, "application/pkcs8"); IsType(h) && !IsEncoding(h)
    ensures var h := HeaderLine("Content-Type", pad, "application/pkcs7-mime; smime-type=certs-only"); IsType(h) && !IsEncoding(h)
    ensures var h := HeaderLine("Content-Transfer-Encoding", pad, "base64"); !IsType(h) && IsEncoding(h)
    ensures !("application/pkcs8" <= "application/pkcs7-mime; smime-type=certs-only")
  {
    NamesDiffer(CT);
    NamesDiffer(CTE);
    assert PKCS7[16] == '7' && PKCS8[16] == '8';
  }

  /** Two parts in either order behind any two lines as long as the boundary, whatever follows:
      the parser hands back exactly the printed key and the printed certificate. */
  lemma PartsParse(b: string, line1: string, p: Part, line2: string, q: Part, rest: string)
    requires 1 <= |b| <= 69 && |line1| == |line2| == |b| && line1[0] != '-'
    requires ValidPart(p) && ValidPart(q) && p.isKey != q.isKey
    ensures ParsePayload(BodyOf(SectionOf(line1, p), SectionOf(line2, q), rest), b) ==
            Payloads(NoError, (if p.isKey then p else q).data, (if p.isKey then q else p).data)
  {
    hide ParsePayload, BodyOf, HeadersOf, Judge;
    HeadersReadable(line1, p);
    HeadersReadable(line2, q);
    PartJudged(p);
    PartJudged(q);
    assert p.data != "" && q.data != "";
    BodyGivesEarly(b, SectionOf(line1, p), SectionOf(line2, q), rest);
  }

  /** In particular, every printed body. */
  lemma BodyParses(b: string, p: Part, q: Part, rest: string)
    requires ValidBoundary(b) && ValidPart(p) && ValidPart(q) && p.isKey != q.isKey
    ensures ParsePayload(Body(b, p, q, rest), b) ==
            Payloads(NoError, (if p.isKey then p else q).data, (if p.isKey then q else p).data)
  {
    hide ParsePayload, BodyOf, ValidPart;
    PartsParse(b, b, p, b, q, b + "--" + rest);
  }

  /** A part that is blank or longer than 8192 bytes is not stored and ends the call with
      MULTIPART_PARSE; what the part before has given remains. */
  lemma BadDataRefused(b: string, p: Part, q: Part, rest: string)
    requires ValidBoundary(b) && ValidPart(p) && Spaces(q.pad1) && Spaces(q.pad2) && NoDashAfterCr(q.data)
    requires |q.data| > 8192 || forall c :: c in q.data ==> c == ' ' || c == '\r' || c == '\n'
    ensures ParsePayload(Body(b, q, p, rest), b) == Payloads(MultipartParse, "", "")
    ensures ParsePayload(Body(b, p, q, rest), b) ==
            Payloads(MultipartParse, if p.isKey then p.data else "", if p.isKey then "" else p.data)
  {
    hide ParsePayload, BodyOf, HeadersOf, Judge;
    HeadersReadable(b, p);
    HeadersReadable(b, q);
    PartJudged(p);
    PartJudged(q);
    BodyGivesEarly(b, SectionOf(b, q), SectionOf(b, p), b + "--" + rest);
    BodyGivesEarly(b, SectionOf(b, p), SectionOf(b, q), b + "--" + rest);
  }

  /** A part without a known type or without base64 encoding is passed over: the other part
      alone is stored, and the call ends with ZERO_LENGTH_BUF. */
  lemma {:induction false} HeaderMissing(b: string, p: Part, hs: seq<HeaderLine>, data: string, rest: string)
    requires ValidBoundary(b) && |b| <= 68 && ValidPart(p)
    requires 1 <= |hs| <= 14 && ValidLines(hs) && NoDashAfterCr(data) && (TypeIn(hs).None? || !Encoded(hs))
    ensures ParsePayload(BodyOf(SectionOf(b, p), Section(b, hs, data), b + "--" + rest), b) ==
            Payloads(ZeroLengthBuf, if p.isKey then p.data else "", if p.isKey then "" else p.data)
  {
    hide ParsePayload, BodyOf, HeadersOf, TypeIn, Encoded, ValidLine, NoDashAfterCr;
    HeadersReadable(b, p);
    PartJudged(p);
    var q := Section(b, hs, data);
    assert Judge(hs, data) == Ignored;
    BodyGives(b, SectionOf(b, p), q, rest);
  }

  /** A body with two parts of the same kind is refused and keeps the second of them, or the
      boundary is copied past the end of the look-behind buffer: exactly if it has 69 bytes. */
  lemma SameKindTwice(b: string, p: Part, q: Part, rest: string)
    requires ValidBoundary(b) && ValidPart(p) && ValidPart(q) && p.isKey == q.isKey
    ensures ParsePayload(Body(b, p, q, rest), b) ==
            if |b| == 69 then OutOfBounds
            else Payloads(ZeroLengthBuf, if q.isKey then q.data else "", if q.isKey then "" else q.data)
  {
    hide ParsePayload, BodyOf, HeadersOf, Judge;
    HeadersReadable(b, p);
    HeadersReadable(b, q);
    PartJudged(p);
    PartJudged(q);
    BodyGives(b, SectionOf(b, p), SectionOf(b, q), rest);
  }

  // ---------------------------------------------------------------- more than two parts, or less

  /** A part without data, its headers followed by the next boundary line at once, lends its
      headers to the next part. */
  lemma {:induction false} PartWithoutData(b: string, line: string, hs: seq<HeaderLine>, p: Section, q: Section, rest: string)
    requires 1 <= |b| <= 68 && |line| == |b| && line[0] != '-' && hs != [] && ValidLines(hs)
    requires Readable(p, b) && Readable(q, b) && |hs| + |p.hs| + |q.hs| <= 16
    ensures var body := "--" + (line + ("\r\n" + (Lines(hs) + ("--" + (SectionText(p) + (SectionText(q) + (b + "--" + rest)))))));
            ParsePayload(body, b) == Expected(p.(hs := hs + p.hs), q)
  {
    hide At, Run, Turn, Means, Idle, Expected, Readable, SectionText, Lines, StoreAll, ValidLine;
    var tail := SectionText(p) + (SectionText(q) + (b + "--" + rest));
    var body := "--" + (line + ("\r\n" + (Lines(hs) + ("--" + tail))));
    var buf, len := body[2..], |body|;
    var m := ReadFirstBreak(b, line, Lines(hs) + ("--" + tail));
    var t := ReadLinesDash(buf, len, b, m, EmptyStore, hs, tail);
    NothingMeant();
    NoBefore(hs);
    MeansAll(EmptyStore, [], hs);
    var x := ReadTwo(buf, len, b, t, StoreAll(EmptyStore, hs), hs, p, q, b + "--" + rest);
    ExpectedShape(p.(hs := hs + p.hs), q);
    if x.Goes? {
      ReadLast(buf, len, b, x.t, x.u, rest);
    }
  }

  lemma ReadLinesDash(buf: string, len: nat, b: string, m: Pos, st: Store, hs: seq<HeaderLine>, tail: string) returns (t: Pos)
    requires Ready(buf, len, m) && m.mode == HeaderFieldStart && !m.seenDelim && hs != [] && ValidLines(hs) && |st.hdrs| + |hs| <= 16
    requires At(buf, m.i, Lines(hs) + ("--" + tail))
    ensures t == m.(i := m.i + |Lines(hs)| + 2, mark := t.mark, mode := StartBoundary, seenHeaders := true)
    ensures t.mark <= t.i && At(buf, t.i, tail)
    ensures Run(buf, len, b, m, st) == Run(buf, len, b, t, StoreAll(st, hs))
  {
    hide At, Run, Turn, Line, SetHeaderValue, ValidLine, Known, Spills, StoreAll, Lines;
    var init, last := hs[..|hs| - 1], hs[|hs| - 1];
    LinesSplit(init, last);
    assert hs == init + [last];
    var after := Line(last) + ("--" + tail);
    assert Lines(hs) + ("--" + tail) == Lines(init) + after;
    LineNoDash(last, "--" + tail);
    var u := ReadLines(buf, len, b, m, st, init, after);
    SpillsIffKept(|st.hdrs|, init);
    StoreAllBound(st, init);
    StoreAllMore(st, init, last);
    AtSplit(buf, u.i, Line(last), "--" + tail);
    AtChar(buf, u.i + |Line(last)|, "--" + tail, 0);
    AtSplit(buf, u.i + |Line(last)|, "--", tail);
    t := ReadLineDash(buf, len, b, u, StoreAll(st, init), last);
  }

  lemma LineNoDash(h: HeaderLine, tail: string)
    requires ValidLine(h)
    ensures var t := Line(h) + tail; t != [] && t[0] != '-'
  {
    hide NameChar;
  }

  lemma {:induction false} LinesSplit(hs: seq<HeaderLine>, h: HeaderLine)
    ensures Lines(hs + [h]) == Lines(hs) + Line(h)
    decreases |hs|
  {
    hide Line;
    if hs == [] {
      assert hs + [h] == [h] && [h][1..] == [];
      assert Lines([h]) == Line(h) + Lines([]);
    } else {
      LinesSplit(hs[1..], h);
      assert (hs + [h])[1..] == hs[1..] + [h];
    }
  }

  lemma {:induction false} StoreAllMore(st: Store, hs: seq<HeaderLine>, h: HeaderLine)
    ensures StoreAll(st, hs + [h]) == SetHeaderValue(StoreAll(st, hs).(name := h.name), h.value)
    decreases |hs|
  {
    hide SetHeaderValue;
    if hs == [] {
      assert hs + [h] == [h] && [h][1..] == [];
      assert StoreAll(st, [h]) == StoreAll(SetHeaderValue(st.(name := h.name), h.value), []);
    } else {
      StoreAllMore(SetHeaderValue(st.(name := hs[0].name), hs[0].value), hs[1..], h);
      assert (hs + [h])[1..] == hs[1..] + [h];
    }
  }

  lemma {:induction false} StoreAllBound(st: Store, hs: seq<HeaderLine>)
    ensures |StoreAll(st, hs).hdrs| <= |st.hdrs| + |hs|
    decreases |hs|
  {
    hide SetHeaderValue, Known;
    if hs != [] {
      Grows(st, hs[0]);
      StoreAllBound(SetHeaderValue(st.(name := hs[0].name), hs[0].value), hs[1..]);
    }
  }

  /** A third part behind the boundary is still read: two keys and a certificate give the
      second key and the certificate. */
  lemma ThirdPart(b: string, p: Part, q: Part, r: Part, rest: string)
    requires ValidBoundary(b) && |b| <= 68 && ValidPart(p) && ValidPart(q) && ValidPart(r) && p.isKey == q.isKey != r.isKey
    ensures ParsePayload(BodyOf(SectionOf(b, p), SectionOf(b, q), SectionText(SectionOf(b, r)) + rest), b) ==
            Payloads(NoError, (if q.isKey then q else r).data, (if q.isKey then r else q).data)
  {
    hide At, Run, Turn, Expected, InForce, Readable, Idle, HeadersOf, SectionText, ValidBoundaryChar, ValidPart;
    var third := SectionText(SectionOf(b, r)) + rest;
    var body := BodyOf(SectionOf(b, p), SectionOf(b, q), third);
    PartFacts(b, p);
    PartFacts(b, q);
    PartFacts(b, r);
    SameKindExpected(b, p, q);
    var x := ReadBody(b, SectionOf(b, p), SectionOf(b, q), third);
    var n, u := ReadNext(body[2..], |body|, b, x.t, x.u, r, rest);
  }

  lemma PartFacts(b: string, p: Part)
    requires ValidPart(p)
    ensures Readable(SectionOf(b, p), b) && |HeadersOf(p)| == 2 && p.data != ""
    ensures Judge(HeadersOf(p), p.data) == if p.isKey then IsKey else IsCert
  {
    hide HeadersOf, Judge, Readable;
    HeadersReadable(b, p);
    PartJudged(p);
  }

  /** A part behind the boundary that closes the second one, with the other kind stored. */
  lemma ReadNext(buf: string, len: nat, b: string, m: Pos, st: Store, r: Part, rest: string) returns (n: nat, u: Store)
    requires Ready(buf, len, m) && m.mode == PartDataBoundary && m.index == 0 && !m.seenDelim && 1 <= |b| <= 68
    requires ValidPart(r) && st.hdrs == [] && (if r.isKey then st.cert else st.key) != ""
    requires At(buf, m.i, SectionText(SectionOf(b, r)) + rest)
    ensures Run(buf, len, b, m, st) == Outcome(n, u)
    ensures u.key == (if r.isKey then r.data else st.key) && u.cert == (if r.isKey then st.cert else r.data)
  {
    hide At, Run, Turn, HeadersOf, Judge, Lines, StoreAll, Spills, ValidLine, PartDataCb, ValidPart, NoDashAfterCr, Means;
    var hs, d := HeadersOf(r), r.data + "\r\n--";
    PartFacts(b, r);
    AtSplit(buf, m.i, SectionText(SectionOf(b, r)), rest);
    var m1 := ReadClosingLine(buf, len, b, m, st, Lines(hs) + ("\r\n" + d));
    var t := ReadBlock(buf, len, b, m1, st, hs, d);
    SpillsIffKept(0, hs);
    NothingMeant();
    NoBefore(hs);
    MeansAll(st, [], hs);
    HandOver(buf, len, b, t, StoreAll(st, hs), r.data);
    CallbackJudges(StoreAll(st, hs), hs, r.data);
    n, u := t.mark + |r.data|, PartDataCb(StoreAll(st, hs), r.data).1;
  }

  /** The boundary behind the second part, followed by a line break. */
  lemma ReadClosingLine(buf: string, len: nat, b: string, m: Pos, st: Store, tail: string) returns (t: Pos)
    requires Ready(buf, len, m) && m.mode == PartDataBoundary && m.index == 0 && 1 <= |b| <= 68
    requires At(buf, m.i, (b + "\r\n") + tail)
    ensures t == m.(i := m.i + |b| + 2, index := |b|, mode := HeaderFieldStart) && t.mark <= t.i && At(buf, t.i, tail)
    ensures Run(buf, len, b, m, st) == Run(buf, len, b, t, st)
  {
    hide At, Run, Turn, Deliver, ScanBehindData, ScanBoundary, ScanHeaderField, ScanHeaderValue, ScanPartData;
    AtSplit(buf, m.i, b + "\r\n", tail);
    AtSplit(buf, m.i, b, "\r\n");
    assert b[0..] == b;
    ReadClosing(buf, len, b, m, st);
    var m1 := m.(i := m.i + |b|, index := |b|, mode := PartDataAlmostEnd);
    AtChar(buf, m1.i, "\r\n", 0);
    AtChar(buf, m1.i, "\r\n", 1);
    QuietTurn(buf, len, b, m1, st);
    QuietTurn(buf, len, b, m1.(i := m1.i + 1, mode := PartDataEnd), st);
    t := m1.(i := m1.i + 2, mode := HeaderFieldStart);
  }

  /** Behind two parts that do not complete each other, a line that is not the boundary is read
      as a header from its first wrong byte on; if that cannot be, the call ends with
      MULTIPART_PARSE and keeps what it has. */
  lemma WrongBoundary(b: string, p: Section, q: Section, k: nat, c: char, rest: string)
    requires 1 <= |b| <= 68 && Readable(p, b) && Readable(q, b) && p.line[0] != '-' && |p.hs| + |q.hs| <= 16
    requires Expected(p, q).error == ZeroLengthBuf
    requires k < |b| && c != b[k] && !NameChar(c) && c != '\r' && c != ':'
    ensures ParsePayload(BodyOf(p, q, b[..k] + [c] + rest), b) == Expected(p, q).(error := MultipartParse)
  {
    hide At, Run, Turn, Expected, InForce, Readable, SectionText, Idle, NameChar;
    var line := b[..k] + [c] + rest;
    var body := BodyOf(p, q, line);
    var buf, len := body[2..], |body|;
    var x := ReadBody(b, p, q, line);
    var t, u := x.t, x.u;
    ExpectedShape(p, q);
    assert line == b[..k] + ([c] + rest) && b[0..][..k] == b[..k];
    AtSplit(buf, t.i, b[..k], [c] + rest);
    AtChar(buf, t.i + k, [c] + rest, 0);
    ReadPrefix(buf, len, b, t, u, k);
    MismatchFails(buf, len, b, t.(i := t.i + k, index := k), u, c);
  }

  lemma {:induction false} ReadPrefix(buf: string, len: nat, b: string, m: Pos, st: Store, k: nat)
    requires Ready(buf, len, m) && m.mode == PartDataBoundary && m.index <= k < |b| <= 68 && At(buf, m.i, b[m.index..k])
    ensures Run(buf, len, b, m, st) == Run(buf, len, b, m.(i := m.i + k - m.index, index := k), st)
    decreases k - m.index
  {
    hide At, Run, Turn, Deliver, ScanBoundary, ScanHeaderField, ScanHeaderValue, ScanPartData, ScanPlain;
    if m.index < k {
      AtChar(buf, m.i, b[m.index..k], 0);
      QuietTurn(buf, len, b, m, st);
      assert b[m.index..k] == [b[m.index]] + b[m.index + 1..k];
      AtSplit(buf, m.i, [b[m.index]], b[m.index + 1..k]);
      ReadPrefix(buf, len, b, m.(i := m.i + 1, index := m.index + 1), st, k);
    } else {
      assert m.(i := m.i + k - m.index, index := k) == m;
    }
  }

  lemma {:induction false} MismatchFails(buf: string, len: nat, b: string, m: Pos, st: Store, c: char)
    requires m.mark <= m.i < len && m.mode == PartDataBoundary && m.index < |b| && !m.seenDelim && Idle(st)
    requires Byte(buf, m.i) == c && c != b[m.index] && !NameChar(c) && c != '\r' && c != ':'
    ensures Run(buf, len, b, m, st) == Outcome(m.i, st)
  {
    hide Run, PartDataCb, Idle;
    IdleCallback(st, Skipped(b, 2 + m.index));
    RunTurn(buf, len, b, m, st);
    FailTurn(buf, len, b, m.(mark := m.i, mode := HeaderFieldStart), st);
  }

  /** A first part that the payload ends in is handed over with the two zero bytes that are read
      behind the payload because of its leading dashes. */
  lemma UnfinishedPart(b: string, s: Section)
    requires 1 <= |b| <= 69 && Readable(s, b) && s.line[0] != '-' && |s.hs| <= 16 && s.data != ""
    requires s.data[|s.data| - 1] != '\r'
    ensures var v := Judge(s.hs, s.data + "\0\0");
            ParsePayload("--" + ((s.line + "\r\n") + (Lines(s.hs) + ("\r\n" + s.data))), b) ==
            Payloads(if v == Rejected then MultipartParse else ZeroLengthBuf,
                     if v == IsKey then s.data + "\0\0" else "", if v == IsCert then s.data + "\0\0" else "")
  {
    hide At, Run, Turn, Means, Judge, Lines, StoreAll, Spills, ValidLine, PartDataCb, NoDashAfterCr, ParsePayload;
    var more := "\r\n" + (Lines(s.hs) + ("\r\n" + s.data));
    var body := "--" + ((s.line + "\r\n") + (Lines(s.hs) + ("\r\n" + s.data)));
    assert (s.line + "\r\n") + (Lines(s.hs) + ("\r\n" + s.data)) == s.line + more;
    var buf, len := body[2..], |body|;
    StartOfBody(s.line, more);
    StartIsBoundary(buf, len, b);
    var t := ReadHead(buf, len, b, Fresh.(mode := StartBoundary), EmptyStore, s, s.data);
    SpillsIffKept(0, s.hs);
    NothingMeant();
    NoBefore(s.hs);
    MeansAll(EmptyStore, [], s.hs);
    var u := StoreAll(EmptyStore, s.hs);
    ReadToLast(buf, len, b, t, u, s.data, 0);
    CallbackJudges(u, s.hs, s.data + "\0\0");
    UnfinishedAnswer(body, b, u, s.data + "\0\0", Judge(s.hs, s.data + "\0\0"));
  }

  lemma {:induction false} UnfinishedAnswer(body: string, b: string, u: Store, data: string, v: Verdict)
    requires |b| < 70 && u.key == "" && u.cert == "" && data != "" && |body| > 0
    requires PartDataCb(u, data) == match v
                                    case Ignored => (false, u)
                                    case Rejected => (true, u)
                                    case IsKey => Finish(u.(key := data))
                                    case IsCert => Finish(u.(cert := data))
    requires var r := PartDataCb(u, data);
             Run(body[Dashes(body)..], |body|, b, Fresh, EmptyStore) == Outcome(if r.0 then |body| - 1 else |body|, r.1)
    ensures ParsePayload(body, b) == Payloads(if v == Rejected then MultipartParse else ZeroLengthBuf,
                                              if v == IsKey then data else "", if v == IsCert then data else "")
  {
    hide PartDataCb, Run;
  }

  /** Data up to the end of the payload, `j` bytes of it already read. */
  lemma {:induction false} ReadToLast(buf: string, len: nat, b: string, m: Pos, st: Store, data: string, j: nat)
    requires m.mode == PartData && m.mark + |data| == |buf| && len == |buf| + 2 && m.i == m.mark + j && j <= |data| + 1
    requires At(buf, m.mark, data) && NoDashAfterCr(data) && data != "" && data[|data| - 1] != '\r'
    ensures var r := PartDataCb(st, data + "\0\0");
            Run(buf, len, b, m, st) == Outcome(if r.0 then len - 1 else len, r.1)
    decreases |data| + 2 - j
  {
    hide At, Run, PartDataCb, ScanBehindData, ScanBoundary, ScanHeaderField, ScanHeaderValue, ScanPlain;
    if j < |data| {
      AtChar(buf, m.mark, data, j);
      if j + 1 < |data| { AtChar(buf, m.mark, data, j + 1); }
      if j + 2 < |data| { AtChar(buf, m.mark, data, j + 2); }
      assert !Break(data, j);
      QuietTurn(buf, len, b, m, st);
      ReadToLast(buf, len, b, m.(i := m.i + 1), st, data, j + 1);
    } else if j == |data| {
      QuietTurn(buf, len, b, m, st);
      ReadToLast(buf, len, b, m.(i := m.i + 1), st, data, j + 1);
    } else {
      SliceZeros(buf, m.mark, data);
      RunTurn(buf, len, b, m, st);
      var r := PartDataCb(st, data + "\0\0");
      RunTurn(buf, len, b, m.(i := m.i + 1), r.1);
    }
  }

  lemma SliceZeros(buf: string, p: nat, data: string)
    requires At(buf, p, data) && p + |data| == |buf|
    ensures Slice(buf, p, p + |data| + 2) == data + "\0\0"
  {
    var s := Slice(buf, p, p + |data| + 2);
    forall k | 0 <= k < |data| ensures s[k] == data[k] {
      AtChar(buf, p, data, k);
    }
  }

  lemma SameKindExpected(b: string, p: Part, q: Part)
    requires ValidPart(p) && ValidPart(q) && p.isKey == q.isKey
    ensures Expected(SectionOf(b, p), SectionOf(b, q)) ==
            Payloads(ZeroLengthBuf, if q.isKey then q.data else "", if q.isKey then "" else q.data)
    ensures InForce(SectionOf(b, p), SectionOf(b, q)) == []
  {
    hide HeadersOf, Judge;
    PartJudged(p);
    PartJudged(q);
    NoBefore(HeadersOf(q));
  }

  /** A body of one part, closed by any line as long as the boundary and two dashes, gives that
      part alone; with only one dash the call ends with MULTIPART_PARSE. */
  lemma OnePart(b: string, p: Section, line: string, c: char, rest: string)
    requires 1 <= |b| <= 69 && Readable(p, b) && p.line[0] != '-' && |p.hs| <= 16 && |line| == |b|
    ensures var v := Judge(p.hs, p.data);
            ParsePayload("--" + (SectionText(p) + (line + (['-', c] + rest))), b) ==
            Payloads(if v == Rejected || c != '-' then MultipartParse else ZeroLengthBuf,
                     if v == IsKey then p.data else "", if v == IsCert then p.data else "")
  {
    hide At, Run, Turn, Means, Judge, Idle, Readable, ParsePayload, SectionText;
    var tail := line + (['-', c] + rest);
    var body := "--" + (SectionText(p) + tail);
    var buf, len := body[2..], |body|;
    var t, u := ReadOne(b, p, tail);
    TailFits(buf, t.i, tail);
    NoBefore(p.hs);
    var v := Judge(p.hs, p.data);
    if v == Rejected {
      AnswerIs(body, b, t.i - 4, u);
    } else {
      AtSplit(buf, t.i, line, ['-', c] + rest);
      assert line[0..] == line;
      ReadBoundaryBytes(buf, len, b, t, u, line);
      AtSplit(buf, t.i + |b|, ['-', c], rest);
      var n := ReadDashes(buf, len, b, t.(i := t.i + |b|, index := |b|), u, c);
      AnswerIs(body, b, n, u);
    }
  }

  /** The first part of a body. */
  lemma {:induction false} ReadOne(b: string, p: Section, tail: string) returns (t: Pos, u: Store)
    requires 1 <= |b| <= 69 && Readable(p, b) && p.line[0] != '-' && |p.hs| <= 16
    ensures var body := "--" + (SectionText(p) + tail);
            Dashes(body) == 2 && |body[2..]| < |body| && Behind(body[2..], Fresh, EmptyStore, [], p, tail, t, u)
    ensures var body := "--" + (SectionText(p) + tail);
            Run(body[2..], |body|, b, Fresh, EmptyStore) ==
            if Ends(Judge(p.hs, p.data), u) then Outcome(t.i - 4, u) else Run(body[2..], |body|, b, t, u)
  {
    hide At, Run, Turn, Means, Judge, Idle, Readable;
    var body := "--" + (SectionText(p) + tail);
    var more := "\r\n" + (Lines(p.hs) + ("\r\n" + (p.data + "\r\n--"))) + tail;
    assert SectionText(p) + tail == p.line + more;
    FirstLine(p, b);
    StartOfBody(p.line, more);
    StartIsBoundary(body[2..], |body|, b);
    NothingMeant();
    NoBefore(p.hs);
    t, u := ReadSection(body[2..], |body|, b, Fresh.(mode := StartBoundary), EmptyStore, [], p, tail);
  }

  lemma {:induction false} AnswerIs(body: string, b: string, n: nat, u: Store)
    requires |b| < 70 && Run(body[Dashes(body)..], |body|, b, Fresh, EmptyStore) == Outcome(n, u) && (u.key == "" || u.cert == "")
    ensures ParsePayload(body, b) == Payloads(if n < |body| then MultipartParse else ZeroLengthBuf, u.key, u.cert)
  {
    hide Run;
  }

  /** A dash and another byte behind a boundary line. */
  lemma ReadDashes(buf: string, len: nat, b: string, m: Pos, st: Store, c: char) returns (n: nat)
    requires Ready(buf, len, m) && m.mode == StartBoundary && m.index == |b| && At(buf, m.i, ['-', c])
    ensures Run(buf, len, b, m, st) == Outcome(n, st) && (if c == '-' then n == len else n < len)
  {
    hide At, Run, Turn, Deliver, ScanBehindData, ScanHeaderField, ScanHeaderValue, ScanPartData;
    AtChar(buf, m.i, ['-', c], 0);
    AtChar(buf, m.i, ['-', c], 1);
    QuietTurn(buf, len, b, m, st);
    var m1 := m.(i := m.i + 1, index := |b| + 1, mode := PartDataFinalHyphen);
    if c == '-' {
      QuietTurn(buf, len, b, m1, st);
      ReadToEnd(buf, len, b, m1.(i := m1.i + 1, mode := End), st);
      n := len;
    } else {
      FailTurn(buf, len, b, m1, st);
      n := m1.i;
    }
  }

  /** Behind two parts that do not complete each other, the boundary has to be followed by two
      dashes or a line break; anything else ends the call with MULTIPART_PARSE. */
  lemma BadClosing(b: string, p: Section, q: Section, c: char, d: char, rest: string)
    requires 1 <= |b| <= 68 && Readable(p, b) && Readable(q, b) && p.line[0] != '-' && |p.hs| + |q.hs| <= 16
    requires Expected(p, q).error == ZeroLengthBuf && [c, d] != "--" && [c, d] != "\r\n"
    ensures ParsePayload(BodyOf(p, q, b + ([c, d] + rest)), b) == Expected(p, q).(error := MultipartParse)
  {
    hide At, Run, Turn, Expected, InForce, Readable, SectionText, Idle, ParsePayload;
    var tail := b + ([c, d] + rest);
    var body := BodyOf(p, q, tail);
    var buf, len := body[2..], |body|;
    var x := ReadBody(b, p, q, tail);
    var t, u := x.t, x.u;
    ExpectedShape(p, q);
    AtSplit(buf, t.i, b, [c, d] + rest);
    assert b[0..] == b;
    ReadClosing(buf, len, b, t, u);
    AtSplit(buf, t.i + |b|, [c, d], rest);
    var n := ClosingFails(buf, len, b, t.(i := t.i + |b|, index := |b|, mode := PartDataAlmostEnd), u, c, d);
    AnswerIs(body, b, n, u);
  }

  lemma ClosingFails(buf: string, len: nat, b: string, m: Pos, st: Store, c: char, d: char) returns (n: nat)
    requires Ready(buf, len, m) && m.mode == PartDataAlmostEnd && At(buf, m.i, [c, d]) && [c, d] != "--" && [c, d] != "\r\n"
    ensures Run(buf, len, b, m, st) == Outcome(n, st) && n < len
  {
    hide At, Run, Turn, Deliver, ScanBehindData, ScanBoundary, ScanHeaderField, ScanHeaderValue, ScanPartData;
    AtChar(buf, m.i, [c, d], 0);
    AtChar(buf, m.i, [c, d], 1);
    if c == '-' || c == '\r' {
      QuietTurn(buf, len, b, m, st);
      n := m.i + 1;
      FailTurn(buf, len, b, m.(i := n, mode := if c == '-' then PartDataFinalHyphen else PartDataEnd), st);
    } else {
      FailTurn(buf, len, b, m, st);
      n := m.i;
    }
  }

  /** Any number of dashes, at least one, may stand in front of the first line. */
  lemma AnyDashes(b: string, n: nat, p: Section, q: Section, rest: string)
    requires 1 <= n && 1 <= |b| <= 69 && Readable(p, b) && Readable(q, b) && p.line[0] != '-' && |p.hs| + |q.hs| <= 16
    requires Expected(p, q).error != ZeroLengthBuf
    ensures ParsePayload(seq(n, _ => '-') + (SectionText(p) + (SectionText(q) + rest)), b) == Expected(p, q)
  {
    hide At, Run, Turn, Means, Idle, Expected, Readable, Lines;
    var buf, dashes := SectionText(p) + (SectionText(q) + rest), seq(n, _ => '-');
    var body := dashes + buf;
    FirstLine(p, b);
    assert buf[0] == p.line[0];
    DashesSkipped(n, buf);
    AtStart(buf);
    StartIsBoundary(buf, |body|, b);
    NothingMeant();
    NoBefore(p.hs);
    var x := ReadTwo(buf, |body|, b, Fresh.(mode := StartBoundary), EmptyStore, [], p, q, rest);
    ExpectedShape(p, q);
  }

  lemma {:induction false} DashesSkipped(n: nat, buf: string)
    requires buf != [] && buf[0] != '-'
    ensures var body := seq(n, _ => '-') + buf; Dashes(body) == n && body[n..] == buf
  {
    var body := seq(n, _ => '-') + buf;
    assert forall k :: 0 <= k < n ==> body[k] == '-';
    assert body[n] == buf[0];
  }

  // ---------------------------------------------------------------- malformed bodies

  /** Up to the byte behind the first boundary line. */
  lemma ReadFirstLine(b: string, line: string, more: string) returns (m: Pos)
    requires 1 <= |b| == |line| && line[0] != '-'
    ensures var body := "--" + (line + more);
            && Dashes(body) == 2 && |body[2..]| < |body|
            && m == Fresh.(i := |b|, mode := StartBoundary, index := |b|) && At(body[2..], m.i, more)
            && Run(body[2..], |body|, b, Fresh, EmptyStore) == Run(body[2..], |body|, b, m, EmptyStore)
  {
    hide At, Run;
    var body := "--" + (line + more);
    var buf, len := body[2..], |body|;
    StartOfBody(line, more);
    StartIsBoundary(buf, len, b);
    AtSplit(buf, 0, line, more);
    assert line[0..] == line;
    ReadBoundaryBytes(buf, len, b, Fresh.(mode := StartBoundary), EmptyStore, line);
    m := Fresh.(i := |b|, mode := StartBoundary, index := |b|);
  }

  /** A first line that is not exactly as long as the boundary, or does not end in CR LF or a
      dash, ends the call with MULTIPART_PARSE. */
  lemma BadFirstLine(b: string, line: string, c: char, d: char, rest: string)
    requires 1 <= |b| <= 69 && |line| == |b| && line[0] != '-' && c != '-' && (c == '\r' ==> d != '\n')
    ensures ParsePayload("--" + (line + ([c, d] + rest)), b) == Payloads(MultipartParse, "", "")
  {
    hide At, Run;
    var body := "--" + (line + ([c, d] + rest));
    var buf, len := body[2..], |body|;
    var m := ReadFirstLine(b, line, [c, d] + rest);
    AtChar(buf, m.i, [c, d] + rest, 0);
    AtChar(buf, m.i, [c, d] + rest, 1);
    if c == '\r' {
      QuietTurn(buf, len, b, m, EmptyStore);
      FailTurn(buf, len, b, m.(i := m.i + 1, index := |b| + 1), EmptyStore);
    } else {
      FailTurn(buf, len, b, m, EmptyStore);
    }
  }

  /** A header name with a byte that is no letter or '-', or with more than 64 bytes, ends the
      call with MULTIPART_PARSE. */
  lemma BadNameRefused(b: string, line: string, name: string, c: char, rest: string)
    requires 1 <= |b| <= 69 && |line| == |b| && line[0] != '-'
    requires |name| <= 64 && (forall x :: x in name ==> NameChar(x)) && c != ':' && c != '\r' && c != '\0'
    requires |name| == 64 || !NameChar(c)
    ensures ParsePayload("--" + (line + ("\r\n" + (name + [c] + rest))), b) == Payloads(MultipartParse, "", "")
  {
    hide At, Run, ParsePayload, NameChar;
    var more := name + [c] + rest;
    var body := "--" + (line + ("\r\n" + more));
    var buf, len := body[2..], |body|;
    var m := ReadFirstBreak(b, line, more);
    assert more == name + ([c] + rest);
    AtSplit(buf, m.i, name, [c] + rest);
    AtChar(buf, m.i + |name|, [c] + rest, 0);
    EnterName(buf, len, b, m, EmptyStore);
    var n := m.(mark := m.i, mode := HeaderField);
    ReadNameBytes(buf, len, b, n, EmptyStore, name, 0);
    NameFails(buf, len, b, n.(i := n.mark + |name|), c);
    MalformedAnswer(body, b);
  }

  /** Up to the first byte behind the line break of the first line. */
  lemma ReadFirstBreak(b: string, line: string, more: string) returns (m: Pos)
    requires 1 <= |b| == |line| && line[0] != '-'
    ensures var body := "--" + (line + ("\r\n" + more));
            && Dashes(body) == 2 && |body[2..]| < |body|
            && m == Fresh.(i := |b| + 2, mode := HeaderFieldStart) && At(body[2..], m.i, more)
            && Run(body[2..], |body|, b, Fresh, EmptyStore) == Run(body[2..], |body|, b, m, EmptyStore)
  {
    hide At, Run;
    var body := "--" + (line + ("\r\n" + more));
    StartOfBody(line, "\r\n" + more);
    StartIsBoundary(body[2..], |body|, b);
    assert line + ("\r\n" + more) == (line + "\r\n") + more && line[0..] == line;
    AtSplit(body[2..], 0, line + "\r\n", more);
    ReadBoundary(body[2..], |body|, b, Fresh.(mode := StartBoundary), EmptyStore, line);
    m := Fresh.(i := |b| + 2, mode := HeaderFieldStart);
  }

  /** A CR behind a header value that is not followed by a line feed ends the call too. */
  lemma BadBreakRefused(b: string, line: string, h: HeaderLine, c: char, rest: string)
    requires 1 <= |b| <= 69 && |line| == |b| && line[0] != '-' && ValidLine(h) && c != '\n'
    ensures ParsePayload("--" + (line + ("\r\n" + (h.name + ":" + h.pad + h.value + "\r" + [c] + rest))), b) ==
            Payloads(MultipartParse, "", "")
  {
    hide At, Run, ParsePayload, NameChar, SetHeaderValue;
    var more := h.name + ":" + h.pad + h.value + "\r" + [c] + rest;
    var body := "--" + (line + ("\r\n" + more));
    var buf, len := body[2..], |body|;
    var m := ReadFirstBreak(b, line, more);
    var v := h.pad + (h.value + ("\r" + ([c] + rest)));
    assert more == (h.name + ":") + v;
    AtSplit(buf, m.i, h.name + ":", v);
    AtChar(buf, m.i, h.name + ":", 0);
    EnterName(buf, len, b, m, EmptyStore);
    ReadName(buf, len, b, m.(mark := m.i, mode := HeaderField), EmptyStore, h.name, 0);
    var m2 := m.(i := m.i + |h.name| + 1, mark := m.i, mode := HeaderValueStart, seenHeaders := true, seenDelim := true);
    ValueFails(buf, len, b, m2, EmptyStore.(name := h.name), h, c, rest);
    RefusedAnswer(body, b);
  }

  /** So does a CR behind the header lines. */
  lemma {:induction false} BadEmptyLine(b: string, line: string, hs: seq<HeaderLine>, c: char, rest: string)
    requires 1 <= |b| <= 69 && |line| == |b| && line[0] != '-' && ValidLines(hs) && |hs| <= 16 && c != '\n'
    ensures ParsePayload("--" + (line + ("\r\n" + (Lines(hs) + (['\r', c] + rest)))), b) == Payloads(MultipartParse, "", "")
  {
    hide At, Run, Turn, ParsePayload, Lines, ValidLine, StoreAll, Spills, Means;
    var tail := ['\r', c] + rest;
    var body := "--" + (line + ("\r\n" + (Lines(hs) + tail)));
    var buf, len := body[2..], |body|;
    var m := ReadFirstBreak(b, line, Lines(hs) + tail);
    var t := ReadLines(buf, len, b, m, EmptyStore, hs, tail);
    SpillsIffKept(0, hs);
    NothingMeant();
    MeansAll(EmptyStore, [], hs);
    AtChar(buf, t.i, tail, 0);
    AtChar(buf, t.i, tail, 1);
    EmptyLineFails(buf, len, b, t, StoreAll(EmptyStore, hs));
    RefusedAnswer(body, b);
  }

  lemma {:induction false} EmptyLineFails(buf: string, len: nat, b: string, m: Pos, st: Store)
    requires m.mark <= m.i && m.i + 1 < len && m.mode == HeaderFieldStart && Byte(buf, m.i) == '\r' && Byte(buf, m.i + 1) != '\n'
    ensures Run(buf, len, b, m, st) == Outcome(m.i + 1, st)
  {
    hide Run, Turn, Deliver, ScanBehindData, ScanBoundary, ScanHeaderValue, ScanPartData;
    QuietTurn(buf, len, b, m, st);
    FailTurn(buf, len, b, m.(i := m.i + 1, mark := m.i, mode := HeadersAlmostDone), st);
  }

  lemma {:induction false} RefusedAnswer(body: string, b: string)
    requires |b| < 70
    requires var o := Run(body[Dashes(body)..], |body|, b, Fresh, EmptyStore);
             o.Outcome? && o.parsed < |body| && o.st.key == "" && o.st.cert == ""
    ensures ParsePayload(body, b) == Payloads(MultipartParse, "", "")
  {
  }

  lemma {:induction false} ValueFails(buf: string, len: nat, b: string, m: Pos, st: Store, h: HeaderLine, c: char, rest: string)
    requires Ready(buf, len, m) && m.mode == HeaderValueStart && ValidLine(h) && c != '\n'
    requires At(buf, m.i, h.pad + (h.value + ("\r" + ([c] + rest))))
    ensures var o := Run(buf, len, b, m, st); o.Outcome? && o.parsed < |buf| && o.st.key == st.key && o.st.cert == st.cert
  {
    hide At, Run, SetHeaderValue, NameChar, Slice;
    var v := h.value + ("\r" + ([c] + rest));
    AtSplit(buf, m.i, h.pad, v);
    ReadPad(buf, len, b, m, st, h.pad);
    var m3 := m.(i := m.i + |h.pad|);
    AtChar(buf, m3.i, v, 0);
    EnterValue(buf, len, b, m3, st);
    assert v == (h.value + "\r") + ([c] + rest);
    AtSplit(buf, m3.i, h.value + "\r", [c] + rest);
    ReadValue(buf, len, b, m3.(mark := m3.i, mode := HeaderValue), st, h.value, 0);
    AtChar(buf, m3.i + |h.value| + 1, [c] + rest, 0);
    var u := SetHeaderValue(st, h.value);
    FailTurn(buf, len, b, m3.(i := m3.i + |h.value| + 1, mark := m3.i, mode := HeaderValueAlmostDone, seenDelim := false), u);
    assert u.key == st.key && u.cert == st.cert by { KeepsPayloads(st, h.value); }
  }

  lemma KeepsPayloads(st: Store, value: string)
    ensures var u := SetHeaderValue(st, value); u.key == st.key && u.cert == st.cert
  {
  }

  lemma {:induction false} NameFails(buf: string, len: nat, b: string, m: Pos, c: char)
    requires m.mark <= m.i < len && m.mode == HeaderField && !m.seenDelim && Byte(buf, m.i) == c
    requires c != ':' && c != '\r' && (m.i - m.mark == 64 || !NameChar(c))
    ensures Run(buf, len, b, m, EmptyStore).Outcome? && Run(buf, len, b, m, EmptyStore).parsed <= m.i
    ensures Run(buf, len, b, m, EmptyStore).st == EmptyStore
  {
    hide Run;
    FailTurn(buf, len, b, m, EmptyStore);
  }

  lemma {:induction false} MalformedAnswer(body: string, b: string)
    requires |b| < 70
    requires var o := Run(body[Dashes(body)..], |body|, b, Fresh, EmptyStore); o.Outcome? && o.parsed < |body| && o.st == EmptyStore
    ensures ParsePayload(body, b) == Payloads(MultipartParse, "", "")
  {
  }

  // ---------------------------------------------------------------- staying inside the arrays

  /** Behind the payload, where only zeros are read, nothing is written any more. */
  lemma {:induction false} NothingBehind(buf: string, len: nat, b: string, m: Pos, st: Store)
    requires m.mark <= m.i && |buf| <= m.i && (m.mode == PartData || m.mode == PartDataStart || m.mode == HeaderFieldStart)
    ensures Run(buf, len, b, m, st).Outcome?
    decreases len - m.i
  {
    hide Run, PartDataCb;
    RunTurn(buf, len, b, m, st);
    if m.i < len && Turn(buf, len, b, m, st).Go? {
      NothingBehind(buf, len, b, Turn(buf, len, b, m, st).m, Turn(buf, len, b, m, st).st);
    }
  }

  function HeadersOnly(b: string, hs: seq<HeaderLine>): (s: string) {
    "--" + ((b + "\r\n") + (Lines(hs) + ("\r\n" + "")))
  }

  /** A part with any list of header lines leaves the array of 16 headers if and only if at
      least 16 of the lines before the last one are stored. */
  lemma HeadersOverrunIff(b: string, hs: seq<HeaderLine>)
    requires ValidBoundary(b) && ValidLines(hs)
    ensures ParsePayload(HeadersOnly(b, hs), b).OutOfBounds? <==> hs != [] && Kept(hs[..|hs| - 1]) >= 16
  {
    hide At, Run, Turn, Lines, Spills, Kept, StoreAll, ValidLine, ValidBoundaryChar;
    var body := HeadersOnly(b, hs);
    var buf, len := body[2..], |body|;
    assert body[2] == b[0] && body[1] == '-' && body[0] == '-';
    assert buf == (b + "\r\n") + (Lines(hs) + ("\r\n" + ""));
    AtStart(buf);
    StartIsBoundary(buf, len, b);
    AtSplit(buf, 0, b + "\r\n", Lines(hs) + ("\r\n" + ""));
    assert b[0..] == b;
    var m := Fresh.(mode := StartBoundary);
    ReadBoundary(buf, len, b, m, EmptyStore, b);
    var t := ReadLines(buf, len, b, m.(i := |b| + 2, mode := HeaderFieldStart), EmptyStore, hs, "\r\n" + "");
    SpillsIffKept(0, hs);
    AtSplit(buf, t.i, "\r\n", "");
    ReadEmptyLine(buf, len, b, t, StoreAll(EmptyStore, hs));
    NothingBehind(buf, len, b, t.(i := t.i + 2, mark := t.i, mode := if t.seenHeaders then PartDataStart else HeaderFieldStart),
                  StoreAll(EmptyStore, hs));
  }

  lemma {:induction false} AllKept(hs: seq<HeaderLine>)
    requires forall k :: 0 <= k < |hs| ==> Known(hs[k])
    ensures Kept(hs) == |hs|
  {
    hide Known;
    if hs != [] {
      AllKept(hs[1..]);
    }
  }

  /** For instance the 17th repetition of a header. */
  lemma SeventeenHeaders(b: string)
    requires ValidBoundary(b)
    ensures ParsePayload(HeadersOnly(b, seq(17, _ => HeaderLine("Content-Transfer-Encoding", " ", "base64"))), b) == OutOfBounds
  {
    hide ParsePayload, Kept, NameChar, ValidBoundary;
    var h := HeaderLine("Content-Transfer-Encoding", " ", "base64");
    var hs := seq(17, _ => h);
    KnownLines();
    assert ValidLine(h) && Known(h);
    AllKept(hs[..16]);
    HeadersOverrunIff(b, hs);
  }

  /** For instance two keys behind the boundary of 69 'x'. */
  lemma LongestBoundary(rest: string)
    ensures var b, p := seq(69, _ => 'x'), Part(true, true, "", "", "k");
            ValidBoundary(b) && ValidPart(p) && ParsePayload(Body(b, p, p, rest), b) == OutOfBounds
  {
    hide ParsePayload, Body;
    var b, p := seq(69, _ => 'x'), Part(true, true, "", "", "k");
    assert p.data[0] in p.data;
    SameKindTwice(b, p, p, rest);
  }

  /** A boundary of 70 bytes, which the client lets through, leaves its array when it is copied. */
  lemma SeventyBytes(payload: string, b: string)
    requires |b| == 70
    ensures ParsePayload(payload, b) == OutOfBounds
  {
  }

  /** The number of ':' from `i` on. */
  function Colons(buf: string, i: nat): (n: nat)
    decreases |buf| - i
  {
    if i >= |buf| then 0 else Colons(buf, i + 1) + if buf[i] == ':' then 1 else 0
  }

  /** Headers stored, the one being read and those still to come. */
  ghost predicate Roomy(buf: string, b: string, m: Pos, st: Store) {
    && |st.hdrs| + (if InValue(m.mode) then 1 else 0) + Colons(buf, m.i) < MAX_HEADERS
    && (m.mode == PartDataBoundary ==> m.index < |b|)
  }

  lemma ColonsPassed(buf: string, i: nat)
    ensures Colons(buf, i) == Colons(buf, i + 1) + if Byte(buf, i) == ':' then 1 else 0
    ensures Colons(buf, i + 3) <= Colons(buf, i + 2) <= Colons(buf, i + 1) <= Colons(buf, i)
  {
  }

  lemma HeadersGrow(st: Store, b: string, call: Call)
    requires |st.hdrs| < MAX_HEADERS
    ensures var r := Deliver(st, b, call);
            r.Proceed? ==> |r.st.hdrs| <= |st.hdrs| + if call.OnValue? then 1 else 0
    ensures !Deliver(st, b, call).Spill?
  {
    hide Lookup, StartsWith, OnlyWhitespace;
  }

  /** What a turn does to the room that is left. */
  ghost predicate RoomLeft(buf: string, len: nat, b: string, m: Pos, r: Move) {
    r.Step? ==>
      && (if r.call.OnValue? then 1 else 0) + (if InValue(r.next.mode) && r.next.i < len then 1 else 0) + Colons(buf, r.next.i)
         <= (if InValue(m.mode) then 1 else 0) + Colons(buf, m.i)
      && (r.next.mode == PartDataBoundary ==> r.next.index < |b|)
      && (r.keep.Keep? ==> r.keep.at < |b| + 2)
  }

  lemma ScanRoom(buf: string, len: nat, b: string, m: Pos)
    requires m.mark <= m.i < len && (m.mode == PartDataBoundary ==> m.index < |b|) && 1 <= |b|
    ensures RoomLeft(buf, len, b, m, Scan(buf, len, b, m))
  {
    hide RoomLeft, ScanHeaderField, ScanHeaderValue, ScanPartData, ScanBoundary, ScanBehindData, ScanPlain;
    match m.mode
    case HeaderFieldStart => HeaderRoom(buf, len, b, m.(mark := m.i)); SameRoom(buf, len, b, m, m.(mark := m.i));
    case HeaderField => HeaderRoom(buf, len, b, m);
    case HeaderValueStart => HeaderRoom(buf, len, b, m.(mark := m.i)); SameRoom(buf, len, b, m, m.(mark := m.i)); PadRoom(buf, len, b, m);
    case HeaderValue => HeaderRoom(buf, len, b, m);
    case PartDataStart => DataRoom(buf, len, b, m.(mark := m.i)); SameRoom(buf, len, b, m, m.(mark := m.i));
    case PartData => DataRoom(buf, len, b, m);
    case PartDataAlmostBoundary => DataRoom(buf, len, b, m);
    case PartDataBoundary => DataRoom(buf, len, b, m);
    case Start => PlainRoom(buf, len, b, m.(index := 0)); SameRoom(buf, len, b, m, m.(index := 0));
    case _ => PlainRoom(buf, len, b, m);
  }

  lemma SameRoom(buf: string, len: nat, b: string, m: Pos, n: Pos)
    requires m.mode == n.mode && m.i == n.i
    ensures forall r :: RoomLeft(buf, len, b, m, r) <==> RoomLeft(buf, len, b, n, r)
  {
  }

  lemma HeaderRoom(buf: string, len: nat, b: string, m: Pos)
    requires m.mark <= m.i < len
    ensures m.mode == HeaderFieldStart || m.mode == HeaderField ==> RoomLeft(buf, len, b, m, ScanHeaderField(buf, len, b, m))
    ensures InValue(m.mode) ==> RoomLeft(buf, len, b, m, ScanHeaderValue(buf, len, b, m))
  {
    hide Colons;
    ColonsPassed(buf, m.i);
  }

  lemma PadRoom(buf: string, len: nat, b: string, m: Pos)
    requires m.mode == HeaderValueStart
    ensures RoomLeft(buf, len, b, m, Quiet(m.(i := m.i + 1)))
  {
    hide Colons;
    ColonsPassed(buf, m.i);
  }

  lemma DataRoom(buf: string, len: nat, b: string, m: Pos)
    requires m.mark <= m.i < len && (m.mode == PartDataBoundary ==> m.index < |b|) && 1 <= |b|
    ensures m.mode == PartDataStart || m.mode == PartData ==> RoomLeft(buf, len, b, m, ScanPartData(buf, len, b, m))
    ensures Rescan(m.mode) == 1 ==> RoomLeft(buf, len, b, m, ScanBehindData(buf, len, b, m))
  {
    hide Colons;
    ColonsPassed(buf, m.i);
  }

  lemma PlainRoom(buf: string, len: nat, b: string, m: Pos)
    requires m.mark <= m.i < len && !InValue(m.mode)
    ensures m.mode == Start || m.mode == StartBoundary ==> RoomLeft(buf, len, b, m, ScanBoundary(buf, len, b, m))
    ensures RoomLeft(buf, len, b, m, ScanPlain(buf, len, b, m))
  {
    hide Colons;
    ColonsPassed(buf, m.i);
  }

  /** With a boundary of at most 68 bytes, no payload with fewer than 16 ':' leaves the arrays. */
  lemma {:induction false} RoomSuffices(buf: string, len: nat, b: string, m: Pos, st: Store)
    requires m.mark <= m.i && 1 <= |b| <= 68 && (m.i < len ==> Roomy(buf, b, m, st))
    ensures Run(buf, len, b, m, st).Outcome?
    decreases len - m.i, Rescan(m.mode)
  {
    hide Run, Scan, Deliver, Colons;
    RunTurn(buf, len, b, m, st);
    if m.i < len {
      var move := Scan(buf, len, b, m);
      if move.Step? {
        ScanRoom(buf, len, b, m);
        HeadersGrow(st, b, move.call);
        var r := Deliver(st, b, move.call);
        if r.Proceed? {
          RoomSuffices(buf, len, b, move.next, r.st);
        }
      }
    }
  }

  lemma {:induction false} FewColonsStayInside(payload: string, b: string)
    requires 1 <= |b| <= 68 && Colons(payload, 0) < MAX_HEADERS
    ensures ParsePayload(payload, b).Payloads?
  {
    hide Run;
    var n := Dashes(payload);
    ColonsBehind(payload, n, 0);
    ColonsFall(payload, n);
    RoomSuffices(payload[n..], |payload|, b, Fresh, EmptyStore);
  }

  lemma {:induction false} ColonsBehind(s: string, n: nat, i: nat)
    requires n <= |s|
    ensures Colons(s[n..], i) == Colons(s, n + i)
    decreases |s| - i
  {
    if n + i < |s| {
      ColonsBehind(s, n, i + 1);
    }
  }

  lemma {:induction false} ColonsFall(s: string, n: nat)
    ensures Colons(s, n) <= Colons(s, 0)
  {
    if n > 0 {
      ColonsFall(s, n - 1);
    }
  }
}
