/** How the multipart parser reads the pieces of a printed body: boundary lines, header lines
    and data. */
module MultipartReading {
  import opened Multipart
  import opened Texts

  datatype HeaderLine = HeaderLine(name: string, pad: string, value: string)

  predicate Spaces(s: string) {
    forall k :: 0 <= k < |s| ==> s[k] == ' '
  }

  /** The characters of header names, independently of the parser. */
  predicate NameChar(c: char) {
    c == '-' || 65 as char <= c <= 90 as char || 97 as char <= c <= 122 as char
  }

  predicate ValidLine(h: HeaderLine) {
    && 1 <= |h.name| <= 64 && h.name[0] != '-' && (forall c :: c in h.name ==> NameChar(c))
    && Spaces(h.pad)
    && h.value != [] && h.value[0] != ' ' && '\r' !in h.value
  }

  /** A CR with a '-' in one of the two bytes behind it. */
  predicate Break(s: string, k: nat)
    requires k < |s|
  {
    s[k] == '\r' && ((k + 1 < |s| && s[k + 1] == '-') || (k + 2 < |s| && s[k + 2] == '-'))
  }

  /** Data without '-' is always of this form. */
  predicate NoDashAfterCr(data: string) {
    forall k :: 0 <= k < |data| ==> !Break(data, k)
  }

  /** The data of a part ends at the first break. */
  predicate EndsAt(s: string, k: nat) {
    k < |s| && Break(s, k) && forall j :: 0 <= j < k ==> !Break(s, j)
  }

  function Line(h: HeaderLine): (s: string) {
    h.name + (":" + (h.pad + (h.value + "\r\n")))
  }

  function Lines(hs: seq<HeaderLine>): (s: string) {
    if hs == [] then "" else Line(hs[0]) + Lines(hs[1..])
  }

  // ---------------------------------------------------------------- boundary and header lines

  ghost predicate Ready(buf: string, len: nat, m: Pos) {
    |buf| < len && m.mark <= m.i
  }

  /** A turn without a callback. */
  lemma {:induction false} QuietTurn(buf: string, len: nat, b: string, m: Pos, st: Store)
    requires m.mark <= m.i < len
    ensures var r := Scan(buf, len, b, m);
            r.Step? && r.call == NoCall && (r.keep.Keep? ==> r.keep.at < LOOKBEHIND_SIZE) ==>
              Run(buf, len, b, m, st) == Run(buf, len, b, r.next, st)
  {
    hide Run, Scan;
    RunTurn(buf, len, b, m, st);
  }

  /** A boundary line is counted, not compared: any bytes of the right number will do. */
  lemma {:induction false} ReadBoundary(buf: string, len: nat, b: string, m: Pos, st: Store, line: string)
    requires Ready(buf, len, m) && m.mode == StartBoundary && m.index <= |b| == |line|
    requires At(buf, m.i, line[m.index..] + "\r\n")
    ensures Run(buf, len, b, m, st) ==
            Run(buf, len, b, m.(i := m.i + |b| - m.index + 2, mode := HeaderFieldStart, index := 0, seenHeaders := false), st)
    decreases |b| - m.index
  {
    hide At, Run, ScanBehindData, ScanHeaderField, ScanHeaderValue, ScanPartData, ScanPlain, Turn, Deliver;
    var t := line[m.index..] + "\r\n";
    AtChar(buf, m.i, t, 0);
    QuietTurn(buf, len, b, m, st);
    if m.index == |b| {
      AtChar(buf, m.i, t, 1);
      QuietTurn(buf, len, b, m.(i := m.i + 1, index := m.index + 1), st);
    } else {
      assert t == [line[m.index]] + (line[m.index + 1..] + "\r\n");
      AtSplit(buf, m.i, [line[m.index]], line[m.index + 1..] + "\r\n");
      ReadBoundary(buf, len, b, m.(i := m.i + 1, index := m.index + 1), st, line);
    }
  }

  lemma SliceAt(buf: string, p: nat, s: string)
    requires At(buf, p, s)
    ensures Slice(buf, p, p + |s|) == s
  {
  }

  /** A header name, `k` bytes of it already read: it goes to the slot behind the headers. */
  lemma {:induction false} ReadName(buf: string, len: nat, b: string, m: Pos, st: Store, name: string, k: nat)
    requires Ready(buf, len, m) && m.mode == HeaderField && k <= |name| <= 64 && m.i == m.mark + k && !m.seenDelim
    requires At(buf, m.mark, name + ":") && forall c :: c in name ==> NameChar(c)
    ensures Run(buf, len, b, m, st) ==
            if |st.hdrs| >= MAX_HEADERS then Overrun
            else Run(buf, len, b, m.(i := m.mark + |name| + 1, mode := HeaderValueStart, seenHeaders := true, seenDelim := true),
                     st.(name := name))
    decreases |name| - k
  {
    hide At, Run, ScanBehindData, ScanBoundary, ScanHeaderValue, ScanPartData, ScanPlain, SetHeaderValue, PartDataCb;
    AtChar(buf, m.mark, name + ":", k);
    assert k < |name| ==> name[k] in name && name[k] == Byte(buf, m.i);
    RunTurn(buf, len, b, m, st);
    if k == |name| {
      AtSplit(buf, m.mark, name, ":");
      SliceAt(buf, m.mark, name);
    } else {
      ReadName(buf, len, b, m.(i := m.i + 1), st, name, k + 1);
    }
  }

  lemma {:induction false} ReadPad(buf: string, len: nat, b: string, m: Pos, st: Store, pad: string)
    requires Ready(buf, len, m) && m.mode == HeaderValueStart && Spaces(pad) && At(buf, m.i, pad)
    ensures Run(buf, len, b, m, st) == Run(buf, len, b, m.(i := m.i + |pad|), st)
    decreases |pad|
  {
    hide At, Run, ScanBehindData, ScanBoundary, ScanHeaderField, ScanHeaderValue, ScanPartData, ScanPlain, PartDataCb, SetHeaderValue, Turn, Deliver;
    if pad != [] {
      AtChar(buf, m.i, pad, 0);
      QuietTurn(buf, len, b, m, st);
      assert pad == pad[..1] + pad[1..];
      AtSplit(buf, m.i, pad[..1], pad[1..]);
      ReadPad(buf, len, b, m.(i := m.i + 1), st, pad[1..]);
    } else {
      assert m.(i := m.i + |pad|) == m;
    }
  }

  /** A header value, `k` bytes of it already read. */
  lemma {:induction false} ReadValue(buf: string, len: nat, b: string, m: Pos, st: Store, value: string, k: nat)
    requires Ready(buf, len, m) && m.mode == HeaderValue && k <= |value| && m.i == m.mark + k
    requires At(buf, m.mark, value + "\r") && '\r' !in value
    ensures Run(buf, len, b, m, st) ==
            Run(buf, len, b, m.(i := m.mark + |value| + 1, mode := HeaderValueAlmostDone, seenDelim := false), SetHeaderValue(st, value))
    decreases |value| - k
  {
    hide At, Run, SetHeaderValue, ScanBehindData, ScanBoundary, ScanHeaderField, ScanPartData, ScanPlain, PartDataCb;
    AtChar(buf, m.mark, value + "\r", k);
    assert k < |value| ==> value[k] in value && value[k] == Byte(buf, m.i);
    RunTurn(buf, len, b, m, st);
    if k == |value| {
      AtSplit(buf, m.mark, value, "\r");
      SliceAt(buf, m.mark, value);
    } else {
      ReadValue(buf, len, b, m.(i := m.i + 1, seenDelim := false), st, value, k + 1);
    }
  }

  lemma {:induction false} SameTurn(buf: string, len: nat, b: string, m: Pos, n: Pos, st: Store)
    requires m.mark <= m.i && n.mark <= n.i == m.i < len && Scan(buf, len, b, m) == Scan(buf, len, b, n)
    ensures Run(buf, len, b, m, st) == Run(buf, len, b, n, st)
  {
    hide Run, Scan, Deliver;
    RunTurn(buf, len, b, m, st);
    RunTurn(buf, len, b, n, st);
  }

  /** The first byte of a name, a value or data starts its state and is read in it. */
  lemma {:induction false} EnterName(buf: string, len: nat, b: string, m: Pos, st: Store)
    requires Ready(buf, len, m) && m.mode == HeaderFieldStart && m.i < len
    ensures Run(buf, len, b, m, st) == Run(buf, len, b, m.(mark := m.i, mode := HeaderField), st)
  {
    SameTurn(buf, len, b, m, m.(mark := m.i, mode := HeaderField), st);
  }

  lemma {:induction false} EnterValue(buf: string, len: nat, b: string, m: Pos, st: Store)
    requires Ready(buf, len, m) && m.mode == HeaderValueStart && m.i < len && Byte(buf, m.i) != ' '
    ensures Run(buf, len, b, m, st) == Run(buf, len, b, m.(mark := m.i, mode := HeaderValue), st)
  {
    SameTurn(buf, len, b, m, m.(mark := m.i, mode := HeaderValue), st);
  }

  lemma {:induction false} EnterData(buf: string, len: nat, b: string, m: Pos, st: Store)
    requires Ready(buf, len, m) && m.mode == PartDataStart && m.i < len
    ensures Run(buf, len, b, m, st) == Run(buf, len, b, m.(mark := m.i, mode := PartData), st)
  {
    SameTurn(buf, len, b, m, m.(mark := m.i, mode := PartData), st);
  }

  /** The line break behind a header value. */
  lemma ReadLineBreak(buf: string, len: nat, b: string, m: Pos, st: Store)
    requires Ready(buf, len, m) && m.mode == HeaderValueAlmostDone && At(buf, m.i, "\n") && Byte(buf, m.i + 1) != '-'
    ensures Run(buf, len, b, m, st) == Run(buf, len, b, m.(i := m.i + 1, mode := HeaderFieldStart), st)
  {
    hide At, Run, ScanBehindData, ScanBoundary, ScanHeaderField, ScanHeaderValue, ScanPartData, Turn, Deliver;
    AtChar(buf, m.i, "\n", 0);
    QuietTurn(buf, len, b, m, st);
  }

  /** Padding and value of a header, up to its line feed. */
  lemma ReadPadded(buf: string, len: nat, b: string, m: Pos, st: Store, h: HeaderLine) returns (t: Pos)
    requires Ready(buf, len, m) && m.mode == HeaderValueStart && ValidLine(h) && At(buf, m.i, h.pad + (h.value + "\r\n"))
    ensures t == m.(i := m.i + |h.pad| + |h.value| + 1, mark := t.mark, mode := HeaderValueAlmostDone, seenDelim := false)
    ensures t.mark <= t.i && At(buf, t.i, "\n")
    ensures Run(buf, len, b, m, st) == Run(buf, len, b, t, SetHeaderValue(st, h.value))
  {
    hide At, Run, SetHeaderValue, Turn, Slice, IsNameChar, NameChar;
    var v := h.value + "\r\n";
    AtSplit(buf, m.i, h.pad, v);
    ReadPad(buf, len, b, m, st, h.pad);
    var m3 := m.(i := m.i + |h.pad|);
    AtChar(buf, m3.i, v, 0);
    EnterValue(buf, len, b, m3, st);
    assert v == (h.value + "\r") + "\n";
    AtSplit(buf, m3.i, h.value + "\r", "\n");
    ReadValue(buf, len, b, m3.(mark := m3.i, mode := HeaderValue), st, h.value, 0);
    t := m3.(i := m3.i + |h.value| + 1, mark := m3.i, mode := HeaderValueAlmostDone, seenDelim := false);
  }

  /** A header line up to its line feed: it is stored, unless there is no slot for its name. */
  lemma ReadToBreak(buf: string, len: nat, b: string, m: Pos, st: Store, h: HeaderLine) returns (t: Pos)
    requires Ready(buf, len, m) && m.mode == HeaderFieldStart && !m.seenDelim && ValidLine(h) && At(buf, m.i, Line(h))
    ensures t == m.(i := m.i + |Line(h)| - 1, mark := t.mark, mode := HeaderValueAlmostDone, seenHeaders := true)
    ensures t.mark <= t.i && At(buf, t.i, "\n")
    ensures Run(buf, len, b, m, st) ==
            if |st.hdrs| >= MAX_HEADERS then Overrun
            else Run(buf, len, b, t, SetHeaderValue(st.(name := h.name), h.value))
  {
    hide At, Run, SetHeaderValue, Turn, Slice, IsNameChar, NameChar, Byte;
    var v := h.pad + (h.value + "\r\n");
    assert Line(h) == (h.name + ":") + v;
    AtSplit(buf, m.i, h.name + ":", v);
    AtChar(buf, m.i, h.name + ":", 0);
    EnterName(buf, len, b, m, st);
    ReadName(buf, len, b, m.(mark := m.i, mode := HeaderField), st, h.name, 0);
    var m2 := m.(i := m.i + |h.name| + 1, mark := m.i, mode := HeaderValueStart, seenHeaders := true, seenDelim := true);
    t := ReadPadded(buf, len, b, m2, st.(name := h.name), h);
  }

  /** A header line that is not followed by '-': another line is expected. */
  lemma ReadLine(buf: string, len: nat, b: string, m: Pos, st: Store, h: HeaderLine) returns (t: Pos)
    requires Ready(buf, len, m) && m.mode == HeaderFieldStart && !m.seenDelim && ValidLine(h)
    requires At(buf, m.i, Line(h)) && Byte(buf, m.i + |Line(h)|) != '-'
    ensures t == m.(i := m.i + |Line(h)|, mark := t.mark, seenHeaders := true) && t.mark <= t.i
    ensures Run(buf, len, b, m, st) ==
            if |st.hdrs| >= MAX_HEADERS then Overrun
            else Run(buf, len, b, t, SetHeaderValue(st.(name := h.name), h.value))
  {
    hide At, Run, SetHeaderValue, Turn, ValidLine, Byte, Line;
    var u := ReadToBreak(buf, len, b, m, st, h);
    ReadLineBreak(buf, len, b, u, SetHeaderValue(st.(name := h.name), h.value));
    t := u.(i := u.i + 1, mode := HeaderFieldStart);
  }

  /** A header line followed by two dashes: the part has no data, and the next boundary line is
      expected with the headers kept. */
  lemma ReadLineDash(buf: string, len: nat, b: string, m: Pos, st: Store, h: HeaderLine) returns (t: Pos)
    requires Ready(buf, len, m) && m.mode == HeaderFieldStart && !m.seenDelim && ValidLine(h) && |st.hdrs| < MAX_HEADERS
    requires At(buf, m.i, Line(h)) && Byte(buf, m.i + |Line(h)|) == '-'
    ensures t == m.(i := m.i + |Line(h)| + 2, mark := t.mark, mode := StartBoundary, seenHeaders := true) && t.mark <= t.i
    ensures Run(buf, len, b, m, st) == Run(buf, len, b, t, SetHeaderValue(st.(name := h.name), h.value))
  {
    hide At, Run, SetHeaderValue, ValidLine, Line, Turn, Deliver, ScanBehindData, ScanBoundary, ScanHeaderField,
         ScanHeaderValue, ScanPartData;
    var u := ReadToBreak(buf, len, b, m, st, h);
    AtChar(buf, u.i, "\n", 0);
    QuietTurn(buf, len, b, u, SetHeaderValue(st.(name := h.name), h.value));
    t := u.(i := u.i + 3, mode := StartBoundary);
  }

  /** The store behind all header lines. */
  function StoreAll(st: Store, hs: seq<HeaderLine>): (r: Store)
    decreases |hs|
  {
    if hs == [] then st else StoreAll(SetHeaderValue(st.(name := hs[0].name), hs[0].value), hs[1..])
  }

  /** A header that is stored. */
  predicate Known(h: HeaderLine) {
    || ("Content-Type" <= h.name
        && ("application/pkcs8" <= h.value || "application/pkcs7-mime; smime-type=certs-only" <= h.value))
    || ("Content-Transfer-Encoding" <= h.name && "base64" <= h.value)
  }

  function Kept(hs: seq<HeaderLine>): (n: nat)
    ensures n <= |hs|
  {
    if hs == [] then 0 else (if Known(hs[0]) then 1 else 0) + Kept(hs[1..])
  }

  /** With `n` headers stored, some line of `hs` finds no slot for its name. */
  predicate Spills(n: nat, hs: seq<HeaderLine>)
    decreases |hs|
  {
    hs != [] && (n >= MAX_HEADERS || Spills(n + if Known(hs[0]) then 1 else 0, hs[1..]))
  }

  lemma {:induction false} SpillsIffKept(n: nat, hs: seq<HeaderLine>)
    requires n <= MAX_HEADERS
    ensures Spills(n, hs) <==> hs != [] && n + Kept(hs[..|hs| - 1]) >= MAX_HEADERS
    decreases |hs|
  {
    hide Known;
    if hs != [] {
      var init := hs[..|hs| - 1];
      if init != [] {
        assert init[0] == hs[0] && init[1..] == hs[1..][..|hs[1..]| - 1];
        if n < MAX_HEADERS {
          SpillsIffKept(n + if Known(hs[0]) then 1 else 0, hs[1..]);
        }
      }
    }
  }

  predicate ValidLines(hs: seq<HeaderLine>) {
    forall k :: 0 <= k < |hs| ==> ValidLine(hs[k])
  }

  lemma {:induction false} LinesStart(hs: seq<HeaderLine>, tail: string)
    requires ValidLines(hs) && tail != [] && tail[0] != '-'
    ensures var t := Lines(hs) + tail; t != [] && t[0] != '-'
  {
    hide NameChar;
  }

  /** Any number of header lines, if no '-' follows them. */
  lemma {:induction false} ReadLines(buf: string, len: nat, b: string, m: Pos, st: Store, hs: seq<HeaderLine>, tail: string)
      returns (t: Pos)
    requires Ready(buf, len, m) && m.mode == HeaderFieldStart && !m.seenDelim && ValidLines(hs)
    requires tail != [] && tail[0] != '-' && At(buf, m.i, Lines(hs) + tail)
    ensures t == m.(i := m.i + |Lines(hs)|, mark := t.mark, seenHeaders := m.seenHeaders || hs != [])
    ensures t.mark <= t.i && At(buf, t.i, tail)
    ensures Run(buf, len, b, m, st) == if Spills(|st.hdrs|, hs) then Overrun else Run(buf, len, b, t, StoreAll(st, hs))
    decreases |hs|
  {
    hide At, Run, Turn, Line, SetHeaderValue, ValidLine, Known;
    if hs == [] {
      assert Lines(hs) + tail == tail;
      t := m;
    } else {
      var next := Lines(hs[1..]) + tail;
      assert Lines(hs) + tail == Line(hs[0]) + next;
      AtSplit(buf, m.i, Line(hs[0]), next);
      LinesStart(hs[1..], tail);
      AtChar(buf, m.i + |Line(hs[0])|, next, 0);
      var u := ReadLine(buf, len, b, m, st, hs[0]);
      Grows(st, hs[0]);
      t := ReadLines(buf, len, b, u, SetHeaderValue(st.(name := hs[0].name), hs[0].value), hs[1..], tail);
    }
  }

  lemma Grows(st: Store, h: HeaderLine)
    ensures SetHeaderValue(st.(name := h.name), h.value).hdrs ==
            st.hdrs + if Known(h) then [Header(h.name, h.value)] else []
    ensures var r := SetHeaderValue(st.(name := h.name), h.value); r.key == st.key && r.cert == st.cert
  {
    hide StartsWith;
    NamesDiffer(h.name);
    Prefix(h.name, CT);
    Prefix(h.name, CTE);
    Prefix(h.value, PKCS8);
    Prefix(h.value, PKCS7);
    Prefix(h.value, BASE64);
  }

  lemma Prefix(s: string, p: string)
    ensures StartsWith(s, p) <==> p <= s
  {
  }

  lemma NamesDiffer(name: string)
    ensures !(CT <= name && CTE <= name)
  {
    assert CT[9] == 'y' && CTE[9] == 'r';
  }

  lemma ReadEmptyLine(buf: string, len: nat, b: string, m: Pos, st: Store)
    requires Ready(buf, len, m) && m.mode == HeaderFieldStart && At(buf, m.i, "\r\n")
    ensures Run(buf, len, b, m, st) ==
            Run(buf, len, b, m.(i := m.i + 2, mark := m.i, mode := if m.seenHeaders then PartDataStart else HeaderFieldStart), st)
  {
    hide At, Run, ScanBehindData, ScanBoundary, ScanHeaderValue, ScanPartData, Turn, Deliver;
    AtChar(buf, m.i, "\r\n", 0);
    AtChar(buf, m.i, "\r\n", 1);
    QuietTurn(buf, len, b, m, st);
    QuietTurn(buf, len, b, m.(i := m.i + 1, mark := m.i, mode := HeadersAlmostDone), st);
  }

  // ---------------------------------------------------------------- data

  /** The data of a part, `j` bytes of it already read, goes on to its first break. */
  lemma {:induction false} ReadData(buf: string, len: nat, b: string, m: Pos, st: Store, s: string, k: nat, j: nat)
    requires Ready(buf, len, m) && m.mode == PartData && j <= k && m.i == m.mark + j
    requires At(buf, m.mark, s) && EndsAt(s, k)
    ensures Run(buf, len, b, m, st) == Run(buf, len, b, m.(i := m.mark + k), st)
    decreases k - j
  {
    hide At, Run, PartDataCb, ScanBehindData, ScanBoundary, ScanHeaderField, ScanHeaderValue, ScanPlain, Turn, Deliver;
    if j < k {
      AtChar(buf, m.mark, s, j);
      AtChar(buf, m.mark, s, j + 1);
      assert !Break(s, j);
      if j + 2 < |s| {
        AtChar(buf, m.mark, s, j + 2);
      }
      QuietTurn(buf, len, b, m, st);
      ReadData(buf, len, b, m.(i := m.i + 1), st, s, k, j + 1);
    } else {
      assert m.(i := m.mark + k) == m;
    }
  }

  /** Whatever the data of a part, the callback gets exactly the bytes before the first CR that
      has a '-' in one of the two bytes behind it. */
  lemma DataEnds(buf: string, len: nat, b: string, m: Pos, st: Store, s: string, k: nat)
    requires Ready(buf, len, m) && m.mode == PartData && m.i == m.mark && At(buf, m.mark, s) && EndsAt(s, k)
    ensures var (stop, st1) := PartDataCb(st, s[..k]);
            Run(buf, len, b, m, st) ==
            if stop then Outcome(m.mark + k, st1)
            else Run(buf, len, b, m.(i := m.mark + k + 1, mark := m.mark + k, mode := PartDataAlmostBoundary,
                                     payloads := m.payloads + 1), st1)
  {
    hide At, Run, PartDataCb, Turn, Slice;
    ReadData(buf, len, b, m, st, s, k, 0);
    assert s == s[..k] + s[k..];
    AtSplit(buf, m.mark, s[..k], s[k..]);
    SliceAt(buf, m.mark, s[..k]);
    AtChar(buf, m.mark, s, k);
    AtChar(buf, m.mark, s, k + 1);
    if k + 2 < |s| {
      AtChar(buf, m.mark, s, k + 2);
    }
    BreakEndsData(buf, len, b, m.(i := m.mark + k), st);
  }

  lemma BreakEndsData(buf: string, len: nat, b: string, m: Pos, st: Store)
    requires m.mark <= m.i < len && m.mode == PartData
    requires Byte(buf, m.i) == '\r' && (Byte(buf, m.i + 1) == '-' || Byte(buf, m.i + 2) == '-')
    ensures var (stop, st1) := PartDataCb(st, Slice(buf, m.mark, m.i));
            Run(buf, len, b, m, st) ==
            if stop then Outcome(m.i, st1)
            else Run(buf, len, b, m.(i := m.i + 1, mark := m.i, mode := PartDataAlmostBoundary, payloads := m.payloads + 1), st1)
  {
    hide Run, PartDataCb, ScanBehindData, ScanBoundary, ScanHeaderField, ScanHeaderValue, ScanPlain;
    RunTurn(buf, len, b, m, st);
  }

  /** Data in front of a line break and two dashes is read to its end if and only if it has no
      break of its own. */
  lemma EndsBehindData(data: string)
    ensures EndsAt(data + "\r\n--", |data|) <==> NoDashAfterCr(data)
  {
    var s := data + "\r\n--";
    forall k | 0 <= k < |data| ensures Break(s, k) <==> Break(data, k) {
    }
    assert Break(s, |data|);
  }

  /** The line break and the two dashes behind data are stepped over. */
  lemma StepOverDashes(buf: string, len: nat, b: string, m: Pos, st: Store)
    requires Ready(buf, len, m) && m.mode == PartDataAlmostBoundary && m.i < len && Byte(buf, m.i) == '\n'
    ensures Run(buf, len, b, m, st) ==
            Run(buf, len, b, m.(i := m.i + 3, index := 0,
                                mode := if m.payloads == EXPECTED_PAYLOADS then PartDataBoundary else StartBoundary), st)
  {
    hide Run, ScanBoundary, ScanHeaderField, ScanHeaderValue, ScanPartData, ScanPlain, Turn, Deliver;
    QuietTurn(buf, len, b, m, st);
  }

  /** The data of a printed part goes to the callback, and the next boundary line is expected. */
  lemma HandOver(buf: string, len: nat, b: string, m: Pos, st: Store, data: string)
    requires Ready(buf, len, m) && m.mode == PartData && m.i == m.mark && NoDashAfterCr(data)
    requires At(buf, m.mark, data + "\r\n--")
    ensures var (stop, st1) := PartDataCb(st, data);
            var i := m.mark + |data|;
            Run(buf, len, b, m, st) ==
            if stop then Outcome(i, st1)
            else Run(buf, len, b, m.(i := i + 4, mark := i, payloads := m.payloads + 1, index := 0,
                                     mode := if m.payloads + 1 == EXPECTED_PAYLOADS then PartDataBoundary else StartBoundary), st1)
  {
    hide At, Run, Turn, PartDataCb, EndsAt;
    var s := data + "\r\n--";
    EndsBehindData(data);
    DataEnds(buf, len, b, m, st, s, |data|);
    assert s[..|data|] == data;
    var (stop, st1) := PartDataCb(st, data);
    AtChar(buf, m.mark, s, |data| + 1);
    if !stop {
      StepOverDashes(buf, len, b, m.(i := m.mark + |data| + 1, mark := m.mark + |data|, mode := PartDataAlmostBoundary,
                                     payloads := m.payloads + 1), st1);
    }
  }

  // ---------------------------------------------------------------- the end of a body

  /** The closing boundary behind the second part is copied, byte by byte, behind the two bytes
      of the line break. */
  lemma {:induction false} ReadClosing(buf: string, len: nat, b: string, m: Pos, st: Store)
    requires Ready(buf, len, m) && m.mode == PartDataBoundary && m.index < |b| && At(buf, m.i, b[m.index..])
    ensures Run(buf, len, b, m, st) ==
            if |b| + 2 > LOOKBEHIND_SIZE then Overrun
            else Run(buf, len, b, m.(i := m.i + |b| - m.index, index := |b|, mode := PartDataAlmostEnd), st)
    decreases |b| - m.index
  {
    hide At, Run, ScanBoundary, ScanHeaderField, ScanHeaderValue, ScanPartData, ScanPlain;
    AtChar(buf, m.i, b[m.index..], 0);
    RunTurn(buf, len, b, m, st);
    if m.index + 2 < LOOKBEHIND_SIZE && m.index + 1 < |b| {
      assert b[m.index..] == [b[m.index]] + b[m.index + 1..];
      AtSplit(buf, m.i, [b[m.index]], b[m.index + 1..]);
      ReadClosing(buf, len, b, m.(i := m.i + 1, index := m.index + 1), st);
    }
  }

  lemma {:induction false} ReadToEnd(buf: string, len: nat, b: string, m: Pos, st: Store)
    requires m.mark <= m.i && m.mode == End
    ensures m.i <= len ==> Run(buf, len, b, m, st) == Outcome(len, st)
    decreases len - m.i
  {
    hide Run, ScanBehindData, ScanBoundary, ScanHeaderField, ScanHeaderValue, ScanPartData;
    RunTurn(buf, len, b, m, st);
    if m.i < len {
      ReadToEnd(buf, len, b, m.(i := m.i + 1), st);
    }
  }

  lemma {:induction false} ReadFinalDashes(buf: string, len: nat, b: string, m: Pos, st: Store)
    requires Ready(buf, len, m) && m.mode == PartDataAlmostEnd && At(buf, m.i, "--")
    ensures Run(buf, len, b, m, st) == Outcome(len, st)
  {
    hide At, Run, ScanBehindData, ScanBoundary, ScanHeaderField, ScanHeaderValue, ScanPartData, Turn, Deliver;
    AtChar(buf, m.i, "--", 0);
    AtChar(buf, m.i, "--", 1);
    QuietTurn(buf, len, b, m, st);
    QuietTurn(buf, len, b, m.(i := m.i + 1, mode := PartDataFinalHyphen), st);
    ReadToEnd(buf, len, b, m.(i := m.i + 2, mode := End), st);
  }

  lemma {:induction false} ReadLast(buf: string, len: nat, b: string, m: Pos, st: Store, rest: string)
    requires Ready(buf, len, m) && m.mode == PartDataBoundary && m.index == 0 && 1 <= |b| && At(buf, m.i, b + "--" + rest)
    ensures Run(buf, len, b, m, st) == if |b| + 2 > LOOKBEHIND_SIZE then Overrun else Outcome(len, st)
  {
    hide At, Run, Turn;
    assert b + "--" + rest == b + ("--" + rest) && b[0..] == b;
    AtSplit(buf, m.i, b, "--" + rest);
    ReadClosing(buf, len, b, m, st);
    AtSplit(buf, m.i + |b|, "--", rest);
    ReadFinalDashes(buf, len, b, m.(i := m.i + |b|, index := |b|, mode := PartDataAlmostEnd), st);
  }

  // ---------------------------------------------------------------- lines that go wrong

  /** A turn that refuses its byte ends the call there. */
  lemma {:induction false} FailTurn(buf: string, len: nat, b: string, m: Pos, st: Store)
    requires m.mark <= m.i < len && Scan(buf, len, b, m).Fail?
    ensures Run(buf, len, b, m, st) == Outcome(Scan(buf, len, b, m).parsed, st)
  {
    hide Run, Scan;
    RunTurn(buf, len, b, m, st);
  }

  /** The bytes of a boundary line, up to the line break. */
  lemma {:induction false} ReadBoundaryBytes(buf: string, len: nat, b: string, m: Pos, st: Store, line: string)
    requires Ready(buf, len, m) && m.mode == StartBoundary && m.index <= |b| == |line| && At(buf, m.i, line[m.index..])
    ensures Run(buf, len, b, m, st) == Run(buf, len, b, m.(i := m.i + |b| - m.index, index := |b|), st)
    decreases |b| - m.index
  {
    hide At, Run, Turn, Deliver, ScanBehindData, ScanHeaderField, ScanHeaderValue, ScanPartData, ScanPlain;
    if m.index < |b| {
      AtChar(buf, m.i, line[m.index..], 0);
      QuietTurn(buf, len, b, m, st);
      assert line[m.index..] == [line[m.index]] + line[m.index + 1..];
      AtSplit(buf, m.i, [line[m.index]], line[m.index + 1..]);
      ReadBoundaryBytes(buf, len, b, m.(i := m.i + 1, index := m.index + 1), st, line);
    } else {
      assert m.(i := m.i + |b| - m.index, index := |b|) == m;
    }
  }

  /** The first `k` bytes of what should be a header name. */
  lemma {:induction false} ReadNameBytes(buf: string, len: nat, b: string, m: Pos, st: Store, name: string, k: nat)
    requires Ready(buf, len, m) && m.mode == HeaderField && !m.seenDelim && m.i == m.mark + k && k <= |name| <= 64
    requires At(buf, m.mark, name) && forall c :: c in name ==> NameChar(c)
    ensures Run(buf, len, b, m, st) == Run(buf, len, b, m.(i := m.mark + |name|), st)
    decreases |name| - k
  {
    hide At, Run, Turn, Deliver, ScanBehindData, ScanBoundary, ScanHeaderValue, ScanPartData, ScanPlain;
    if k < |name| {
      AtChar(buf, m.mark, name, k);
      assert name[k] in name && name[k] == Byte(buf, m.i);
      QuietTurn(buf, len, b, m, st);
      ReadNameBytes(buf, len, b, m.(i := m.i + 1), st, name, k + 1);
    } else {
      assert m.(i := m.mark + |name|) == m;
    }
  }
}
