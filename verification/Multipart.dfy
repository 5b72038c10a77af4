/** The multipart parser of the EST client and its three callbacks.

    `Scan` is the switch over the parser's states: from one byte it finds the next position and
    state, the callback to call, and the byte to remember in the look-behind buffer.  `Turn`
    lets the callback act on an abstract store, `Run` is a whole call.  The class `Parser` is
    the same loop over the fixed arrays of the C code; where the C code would write behind one
    of them, all of these answer `Overrun` and say nothing about what happens then.

    `buf` is the payload from its first byte that is not '-', `len` the length of the whole
    payload; the buffer behind the payload holds zeros, which is what `Byte` gives there. */
module Multipart {

  datatype Mode =
    | Start | StartBoundary
    | HeaderFieldStart | HeaderField | HeadersAlmostDone
    | HeaderValueStart | HeaderValue | HeaderValueAlmostDone
    | PartDataStart | PartData | PartDataAlmostBoundary | PartDataBoundary
    | PartDataAlmostEnd | PartDataEnd | PartDataFinalHyphen
    | End

  datatype Header = Header(name: string, value: string)

  /** What the callbacks keep: the name read last, the headers of the current part, and the
      two payloads (empty until received). */
  datatype Store = Store(name: string, hdrs: seq<Header>, key: string, cert: string)

  const EmptyStore := Store("", [], "", "")

  const MAX_HEADERS := 16
  const LOOKBEHIND_SIZE := 70
  const BOUNDARY_SIZE := 70
  const DATA_MAX := 8192
  const EXPECTED_PAYLOADS := 2

  const CT := "Content-Type"
  const CTE := "Content-Transfer-Encoding"
  const PKCS8 := "application/pkcs8"
  const PKCS7 := "application/pkcs7-mime; smime-type=certs-only"
  const BASE64 := "base64"

  /** `strncmp(s, prefix, strlen(prefix)) == 0` */
  predicate StartsWith(s: string, prefix: string) {
    |prefix| <= |s| && s[..|prefix|] == prefix
  }

  // ---------------------------------------------------------------- callbacks

  /** `multipart_parser_set_hdr_value`: only the two EST headers with known values are kept. */
  function SetHeaderValue(st: Store, value: string): (r: Store) {
    var good :=
      if StartsWith(st.name, CT) then StartsWith(value, PKCS8) || StartsWith(value, PKCS7)
      else StartsWith(st.name, CTE) && StartsWith(value, BASE64);
    if good then st.(hdrs := st.hdrs + [Header(st.name, value)]) else st.(name := "")
  }

  datatype Found = Value(v: string) | Missing

  /** The value of the last header whose name starts with `name`. */
  function Lookup(hdrs: seq<Header>, name: string): (r: Found) {
    if hdrs == [] then Missing
    else if StartsWith(hdrs[|hdrs| - 1].name, name) then Value(hdrs[|hdrs| - 1].value)
    else Lookup(hdrs[..|hdrs| - 1], name)
  }

  predicate OnlyWhitespace(s: string) {
    forall i :: 0 <= i < |s| ==> s[i] == ' ' || s[i] == '\r' || s[i] == '\n'
  }

  predicate BothPopulated(st: Store) {
    st.key != "" && st.cert != ""
  }

  /** `part_data_cb`: whether it asks the parser to stop, and the new store. */
  function PartDataCb(st: Store, data: string): (r: (bool, Store)) {
    var ct, cte := Lookup(st.hdrs, CT), Lookup(st.hdrs, CTE);
    if ct.Missing? || cte.Missing? || !StartsWith(cte.v, BASE64) then (false, st)
    else if |data| > DATA_MAX then (true, st)
    else if StartsWith(ct.v, PKCS8) && OnlyWhitespace(data) then (true, st)
    else if StartsWith(ct.v, PKCS8) then Finish(st.(key := data))
    else if StartsWith(ct.v, PKCS7) && OnlyWhitespace(data) then (true, st)
    else if StartsWith(ct.v, PKCS7) then Finish(st.(cert := data))
    else Finish(st)
  }

  function Finish(st: Store): (r: (bool, Store)) {
    if BothPopulated(st) then (true, st) else (false, st.(hdrs := []))
  }

  // ---------------------------------------------------------------- the state machine

  /** The loop variables of `multipart_parser_execute` with the parser's state and index. */
  datatype Pos = Pos(i: nat, mark: nat, seenHeaders: bool, seenDelim: bool, payloads: nat, mode: Mode, index: nat)

  /** The callback of a turn; `Again(n)` hands the first `n` remembered bytes to the data callback. */
  datatype Call = NoCall | OnName(name: string) | OnValue(value: string) | OnData(data: string) | Again(n: nat)

  /** The byte of the look-behind buffer that a turn writes. */
  datatype Keep = Nothing | Keep(at: nat, c: char)

  datatype Move = Fail(parsed: nat) | Step(next: Pos, call: Call, keep: Keep)

  function Byte(buf: string, i: nat): (c: char) {
    if i < |buf| then buf[i] else '\0'
  }

  function Slice(buf: string, a: nat, b: nat): (s: string)
    requires a <= b
    ensures |s| == b - a && forall k :: 0 <= k < b - a ==> s[k] == Byte(buf, a + k)
  {
    seq(b - a, k requires 0 <= k => Byte(buf, a + k))
  }

  predicate IsNameChar(c: char) {
    c == '-' || 'a' <= c <= 'z' || 'A' <= c <= 'Z'
  }

  predicate InValue(mode: Mode) {
    mode == HeaderValueStart || mode == HeaderValue
  }

  /** The states that may look at a byte again in another state. */
  function Rescan(mode: Mode): (r: nat) {
    if mode == PartDataAlmostBoundary || mode == PartDataBoundary then 1 else 0
  }

  /** What the states hand to each other: every turn gets on, values follow names, and the
      look-behind buffer is filled without gaps before it is used. */
  predicate Follows(len: nat, boundary: string, m: Pos, r: Move) {
    match r
    case Fail(parsed) => parsed <= m.i
    case Step(next, call, keep) =>
      && next.mark <= next.i
      && (m.i < next.i || (m.i == next.i && Rescan(next.mode) < Rescan(m.mode)))
      && (InValue(next.mode) && next.i < len ==> call.OnName? || (InValue(m.mode) && call.NoCall?))
      && (call.OnValue? ==> InValue(m.mode))
      && (next.mode == PartDataAlmostBoundary ==> keep == Keep(0, '\r'))
      && (next.mode == PartDataBoundary ==>
            if m.mode == PartDataAlmostBoundary then next.index == 0 && keep == Keep(1, '\n')
            else m.mode == PartDataBoundary && next.index == m.index + 1 && keep == Keep(2 + m.index, Byte(boundary, m.index)))
      && (call.Again? ==> Rescan(m.mode) == 1 && call.n == if m.mode == PartDataAlmostBoundary then 1 else 2 + m.index)
  }

  function Quiet(next: Pos): (r: Move) {
    Step(next, NoCall, Nothing)
  }

  function ScanBoundary(buf: string, len: nat, boundary: string, m: Pos): (r: Move)
    requires m.mark <= m.i && (m.mode == Start || m.mode == StartBoundary)
    ensures Follows(len, boundary, m, r)
  {
    var c := Byte(buf, m.i);
    if m.index == |boundary| then
      if c == '\r' then Quiet(m.(i := m.i + 1, mode := StartBoundary, index := m.index + 1))
      else if c == '-' then Quiet(m.(i := m.i + 1, mode := PartDataFinalHyphen, index := m.index + 1))
      else Fail(m.i)
    else if m.index == |boundary| + 1 then
      if c != '\n' then Fail(m.i)
      else Quiet(m.(i := m.i + 1, mode := HeaderFieldStart, index := 0, seenHeaders := false))
    else Quiet(m.(i := m.i + 1, mode := StartBoundary, index := m.index + 1))
  }

  function ScanHeaderField(buf: string, len: nat, boundary: string, m: Pos): (r: Move)
    requires m.mark <= m.i < len && (m.mode == HeaderFieldStart || m.mode == HeaderField)
    ensures Follows(len, boundary, m, r)
  {
    var c := Byte(buf, m.i);
    if c == '\r' then Quiet(m.(i := m.i + 1, mode := HeadersAlmostDone))
    else if c == ':' then
      Step(m.(i := m.i + 1, mode := HeaderValueStart, seenHeaders := true, seenDelim := true),
           OnName(Slice(buf, m.mark, m.i)), Nothing)
    else if m.i - m.mark > 63 && !m.seenDelim then Fail(0)
    else if !IsNameChar(c) then Fail(m.i)
    else
      Step(m.(i := m.i + 1, mode := HeaderField),
           if m.i == len - 1 then OnName(Slice(buf, m.mark, m.i + 1)) else NoCall, Nothing)
  }

  function ScanHeaderValue(buf: string, len: nat, boundary: string, m: Pos): (r: Move)
    requires m.mark <= m.i < len && InValue(m.mode)
    ensures Follows(len, boundary, m, r)
  {
    if Byte(buf, m.i) == '\r' then
      Step(m.(i := m.i + 1, mode := HeaderValueAlmostDone, seenDelim := false), OnValue(Slice(buf, m.mark, m.i)), Nothing)
    else
      Step(m.(i := m.i + 1, mode := HeaderValue, seenDelim := false),
           if m.i == len - 1 then OnValue(Slice(buf, m.mark, m.i + 1)) else NoCall, Nothing)
  }

  function ScanPartData(buf: string, len: nat, boundary: string, m: Pos): (r: Move)
    requires m.mark <= m.i < len && (m.mode == PartDataStart || m.mode == PartData)
    ensures Follows(len, boundary, m, r)
  {
    if Byte(buf, m.i) == '\r' && (Byte(buf, m.i + 1) == '-' || Byte(buf, m.i + 2) == '-') then
      Step(m.(i := m.i + 1, mark := m.i, mode := PartDataAlmostBoundary, payloads := m.payloads + 1),
           OnData(Slice(buf, m.mark, m.i)), Keep(0, '\r'))
    else
      Step(m.(i := m.i + 1, mode := PartData),
           if m.i == len - 1 then OnData(Slice(buf, m.mark, m.i + 1)) else NoCall, Nothing)
  }

  /** The two states behind the data of a part, where the boundary may or may not follow: a
      byte that does not fit is read again in another state. */
  function ScanBehindData(buf: string, len: nat, boundary: string, m: Pos): (r: Move)
    requires m.mark <= m.i && Rescan(m.mode) == 1
    ensures Follows(len, boundary, m, r)
  {
    var c := Byte(buf, m.i);
    if m.mode == PartDataAlmostBoundary then
      if c == '\n' then
        Step(m.(i := m.i + 3, index := 0,
                mode := if m.payloads == EXPECTED_PAYLOADS then PartDataBoundary else StartBoundary),
             NoCall, Keep(1, '\n'))
      else Step(m.(mark := m.i, mode := PartData), Again(1), Nothing)
    else if Byte(boundary, m.index) != c then
      Step(m.(mark := m.i, mode := HeaderFieldStart), Again(2 + m.index), Nothing)
    else
      Step(m.(i := m.i + 1, index := m.index + 1,
              mode := if m.index + 1 == |boundary| then PartDataAlmostEnd else PartDataBoundary),
           NoCall, Keep(2 + m.index, c))
  }

  /** The states that only look at one byte (or, behind a header line, at two). */
  function ScanPlain(buf: string, len: nat, boundary: string, m: Pos): (r: Move)
    requires m.mark <= m.i
    ensures Follows(len, boundary, m, r)
  {
    var c := Byte(buf, m.i);
    match m.mode
    case HeadersAlmostDone =>
      if c != '\n' then Fail(m.i)
      else Quiet(m.(i := m.i + 1, mode := if m.seenHeaders then PartDataStart else HeaderFieldStart))
    case HeaderValueAlmostDone =>
      if c != '\n' then Fail(m.i)
      else if Byte(buf, m.i + 1) == '-' then Quiet(m.(i := m.i + 3, mode := StartBoundary))
      else Quiet(m.(i := m.i + 1, mode := HeaderFieldStart))
    case PartDataAlmostEnd =>
      if c == '-' then Quiet(m.(i := m.i + 1, mode := PartDataFinalHyphen))
      else if c == '\r' then Quiet(m.(i := m.i + 1, mode := PartDataEnd))
      else Fail(m.i)
    case PartDataFinalHyphen =>
      if c == '-' then Quiet(m.(i := m.i + 1, mode := End)) else Fail(m.i)
    case PartDataEnd =>
      if c == '\n' then Quiet(m.(i := m.i + 1, mode := HeaderFieldStart)) else Fail(m.i)
    case End => Quiet(m.(i := m.i + 1))
    case _ => Fail(m.i)
  }

  /** The switch, with its fall-through cases. */
  function Scan(buf: string, len: nat, boundary: string, m: Pos): (r: Move)
    requires m.mark <= m.i < len
    ensures Follows(len, boundary, m, r)
  {
    match m.mode
    case Start => ScanBoundary(buf, len, boundary, m.(index := 0))
    case StartBoundary => ScanBoundary(buf, len, boundary, m)
    case HeaderFieldStart => ScanHeaderField(buf, len, boundary, m.(mark := m.i))
    case HeaderField => ScanHeaderField(buf, len, boundary, m)
    case HeaderValueStart =>
      if Byte(buf, m.i) == ' ' then Quiet(m.(i := m.i + 1)) else ScanHeaderValue(buf, len, boundary, m.(mark := m.i))
    case HeaderValue => ScanHeaderValue(buf, len, boundary, m)
    case PartDataStart => ScanPartData(buf, len, boundary, m.(mark := m.i))
    case PartData => ScanPartData(buf, len, boundary, m)
    case PartDataAlmostBoundary => ScanBehindData(buf, len, boundary, m)
    case PartDataBoundary => ScanBehindData(buf, len, boundary, m)
    case _ => ScanPlain(buf, len, boundary, m)
  }

  // ---------------------------------------------------------------- whole calls

  datatype Outcome = Outcome(parsed: nat, st: Store) | Overrun

  datatype Result = Go(m: Pos, st: Store) | Done(o: Outcome)

  /** What the parser has skipped behind the data of a part: a line break and the beginning
      of the boundary. */
  function Skipped(boundary: string, n: nat): (s: string)
    ensures |s| == n
  {
    seq(n, k requires 0 <= k => if k == 0 then '\r' else if k == 1 then '\n' else Byte(boundary, k - 2))
  }

  datatype Reply = Proceed(st: Store) | Halt(st: Store) | Spill

  /** A callback on the abstract store.  A name is written to the slot behind the stored headers. */
  function Deliver(st: Store, boundary: string, call: Call): (r: Reply) {
    match call
    case NoCall => Proceed(st)
    case OnName(n) => if |st.hdrs| >= MAX_HEADERS then Spill else Proceed(st.(name := n))
    case OnValue(v) => Proceed(SetHeaderValue(st, v))
    case OnData(d) => AsReply(PartDataCb(st, d))
    case Again(n) => AsReply(PartDataCb(st, Skipped(boundary, n)))
  }

  function AsReply(r: (bool, Store)): (p: Reply) {
    if r.0 then Halt(r.1) else Proceed(r.1)
  }

  /** One turn of the loop. */
  function Turn(buf: string, len: nat, boundary: string, m: Pos, st: Store): (r: Result)
    requires m.mark <= m.i < len
    ensures r.Go? ==> r.m.mark <= r.m.i && (m.i < r.m.i || (m.i == r.m.i && Rescan(r.m.mode) < Rescan(m.mode)))
    ensures r.Done? && r.o.Outcome? ==> r.o.parsed <= m.i
  {
    match Scan(buf, len, boundary, m)
    case Fail(parsed) => Done(Outcome(parsed, st))
    case Step(next, call, keep) =>
      match Deliver(st, boundary, call)
      case Halt(st1) => Done(Outcome(m.i, st1))
      case Spill => Done(Overrun)
      case Proceed(st1) => if keep.Keep? && keep.at >= LOOKBEHIND_SIZE then Done(Overrun) else Go(next, st1)
  }

  function Run(buf: string, len: nat, boundary: string, m: Pos, st: Store): (r: Outcome)
    requires m.mark <= m.i
    ensures r.Outcome? ==> r.parsed <= len
    decreases len - m.i, Rescan(m.mode)
  {
    if m.i >= len then Outcome(len, st)
    else
      var t := Turn(buf, len, boundary, m, st);
      if t.Go? then Run(buf, len, boundary, t.m, t.st) else t.o
  }

  lemma {:induction false} RunTurn(buf: string, len: nat, boundary: string, m: Pos, st: Store)
    requires m.mark <= m.i
    ensures m.i >= len ==> Run(buf, len, boundary, m, st) == Outcome(len, st)
    ensures m.i < len ==>
              var t := Turn(buf, len, boundary, m, st);
              Run(buf, len, boundary, m, st) == if t.Go? then Run(buf, len, boundary, t.m, t.st) else t.o
  {
  }

  /** The number of leading '-' that `multipart_parser_execute` steps over. */
  function Dashes(payload: string): (n: nat)
    ensures n <= |payload|
    ensures forall k :: 0 <= k < n ==> payload[k] == '-'
    ensures n < |payload| ==> payload[n] != '-'
  {
    if payload == [] || payload[0] != '-' then 0 else 1 + Dashes(payload[1..])
  }

  const Fresh := Pos(0, 0, false, false, 0, Start, 0)

  datatype EstError = NoError | ZeroLengthBuf | MultipartParse

  datatype Parsed = Payloads(error: EstError, key: string, cert: string) | OutOfBounds

  /** `parse_remaining_multipart_payload`: the error code and the two payloads.  The boundary is
      first copied, with its terminating NUL, into an array of 70 bytes. */
  function ParsePayload(payload: string, boundary: string): (r: Parsed) {
    if |boundary| >= BOUNDARY_SIZE then OutOfBounds
    else
      match Run(payload[Dashes(payload)..], |payload|, boundary, Fresh, EmptyStore)
      case Overrun => OutOfBounds
      case Outcome(parsed, st) =>
        Payloads(if BothPopulated(st) then NoError else if parsed < |payload| then MultipartParse else ZeroLengthBuf,
                 st.key, st.cert)
  }

  // ---------------------------------------------------------------- the C code

  /** How a turn of the C loop ends: with another one, with a return, or with a write behind
      one of the arrays. */
  datatype Ending = Continue | Stopped(parsed: nat) | Stray

  class Parser {
    const boundary: string
    const names: array<string>
    const values: array<string>
    const lookbehind: array<char>
    const keyData: array<char>
    const certData: array<char>
    var numHeaders: nat
    var keyLen: nat
    var certLen: nat
    var pos: Pos
    ghost var store: Store

    /** The arrays hold the store: the headers in their first slots and the two payloads. */
    ghost predicate Valid()
      reads this, names, values, keyData, certData
    {
      Sizes() && pos.mark <= pos.i && HeadersStored() && PayloadsStored()
    }

    /** What a state relies on: the name of the value being read stands behind the headers, and
        the look-behind buffer holds what was skipped. */
    ghost predicate Prepared()
      requires Sizes()
      reads this, names, lookbehind
    {
      && (InValue(pos.mode) ==> NameStored())
      && (pos.mode == PartDataAlmostBoundary ==> SkippedStored(1))
      && (pos.mode == PartDataBoundary ==> SkippedStored(2 + pos.index))
    }

    predicate Sizes() {
      && names.Length == values.Length == MAX_HEADERS && names != values
      && lookbehind.Length == LOOKBEHIND_SIZE && keyData.Length == certData.Length == DATA_MAX
      && lookbehind != keyData && lookbehind != certData && keyData != certData
    }

    ghost predicate HeadersStored()
      requires Sizes()
      reads this, names, values
    {
      && numHeaders == |store.hdrs| <= MAX_HEADERS
      && forall k :: 0 <= k < numHeaders ==> store.hdrs[k] == Header(names[k], values[k])
    }

    ghost predicate NameStored()
      requires Sizes()
      reads this, names
    {
      numHeaders < MAX_HEADERS && names[numHeaders] == store.name
    }

    ghost predicate PayloadsStored()
      requires Sizes()
      reads this, keyData, certData
    {
      && keyLen <= DATA_MAX && keyData[..keyLen] == store.key
      && certLen <= DATA_MAX && certData[..certLen] == store.cert
    }

    ghost predicate SkippedStored(n: nat)
      requires Sizes()
      reads lookbehind
    {
      n <= LOOKBEHIND_SIZE && lookbehind[..n] == Skipped(boundary, n)
    }

    constructor (boundary: string)
      requires |boundary| < BOUNDARY_SIZE
      ensures Valid() && this.boundary == boundary && pos == Fresh && store == EmptyStore
      ensures fresh(names) && fresh(values) && fresh(lookbehind) && fresh(keyData) && fresh(certData)
    {
      this.boundary := boundary;
      names, values := new string[MAX_HEADERS], new string[MAX_HEADERS];
      lookbehind := new char[LOOKBEHIND_SIZE];
      keyData, certData := new char[DATA_MAX], new char[DATA_MAX];
      numHeaders, keyLen, certLen, pos, store := 0, 0, 0, Fresh, EmptyStore;
    }

    /** Looks from the newest header to the oldest. */
    method GetHeader(prefix: string) returns (r: Found)
      requires Sizes() && HeadersStored()
      ensures r == Lookup(store.hdrs, prefix)
    {
      var i := 0;
      assert store.hdrs[..numHeaders] == store.hdrs;
      while i < numHeaders
        invariant 0 <= i <= numHeaders
        invariant Lookup(store.hdrs, prefix) == Lookup(store.hdrs[..numHeaders - i], prefix)
      {
        assert store.hdrs[..numHeaders - i][..numHeaders - i - 1] == store.hdrs[..numHeaders - i - 1];
        if StartsWith(names[numHeaders - i - 1], prefix) {
          return Value(values[numHeaders - i - 1]);
        }
        i := i + 1;
      }
      return Missing;
    }

    /** The header is kept in its slot exactly if its name and value are known. */
    method ReadHeaderValue(value: string)
      requires Sizes() && HeadersStored() && NameStored()
      modifies this`numHeaders, this`store, names, values
      ensures HeadersStored() && store == SetHeaderValue(old(store), value)
      ensures store.key == old(store.key) && store.cert == old(store.cert)
    {
      var name := names[numHeaders];
      var good;
      if StartsWith(name, CT) {
        good := StartsWith(value, PKCS8) || StartsWith(value, PKCS7);
      } else if StartsWith(name, CTE) {
        good := StartsWith(value, BASE64);
      } else {
        good := false;
      }
      store := SetHeaderValue(store, value);
      if good {
        values[numHeaders] := value;
        numHeaders := numHeaders + 1;
      } else {
        names[numHeaders] := "";
      }
    }

    method ReadPartData(data: string) returns (stop: bool)
      requires Sizes() && HeadersStored() && PayloadsStored()
      modifies this`numHeaders, this`store, this`keyLen, this`certLen, keyData, certData
      ensures HeadersStored() && PayloadsStored() && (stop, store) == PartDataCb(old(store), data)
    {
      hide Lookup, StartsWith, OnlyWhitespace;
      var ct := GetHeader(CT);
      var cte := GetHeader(CTE);
      if ct.Missing? || cte.Missing? {
        return false;
      }
      if !StartsWith(cte.v, BASE64) {
        return false;
      }
      var onlyWhitespace := IsBlank(data);
      if |data| > DATA_MAX {
        return true;
      }
      if StartsWith(ct.v, PKCS8) {
        if onlyWhitespace { return true; }
        forall k | 0 <= k < |data| { keyData[k] := data[k]; }
        keyLen, store := |data|, store.(key := data);
      } else if StartsWith(ct.v, PKCS7) {
        if onlyWhitespace { return true; }
        forall k | 0 <= k < |data| { certData[k] := data[k]; }
        certLen, store := |data|, store.(cert := data);
      }
      if certLen != 0 && keyLen != 0 {
        return true;
      }
      numHeaders, store := 0, store.(hdrs := []);
      return false;
    }

    /** `multipart_parser_execute` on a zero-terminated payload. */
    method Execute(payload: string) returns (overrun: bool, parsed: nat)
      requires Valid() && pos == Fresh
      modifies this, names, values, lookbehind, keyData, certData
      ensures Run(payload[Dashes(payload)..], |payload|, boundary, Fresh, old(store)) ==
              if overrun then Overrun else Outcome(parsed, store)
      ensures !overrun ==> Valid()
    {
      hide Run, Turn, Dashes;
      var buf := payload;
      while |buf| > 0 && buf[0] == '-'
        invariant |buf| <= |payload| && buf == payload[|payload| - |buf|..]
        invariant |payload| - |buf| <= Dashes(payload)
      {
        buf := buf[1..];
      }
      assert |payload| - |buf| == Dashes(payload);
      ghost var goal := Run(buf, |payload|, boundary, pos, store);
      while pos.i < |payload|
        invariant Valid() && (pos.i < |payload| ==> Prepared())
        invariant Run(buf, |payload|, boundary, pos, store) == goal
        decreases |payload| - pos.i, Rescan(pos.mode)
      {
        RunTurn(buf, |payload|, boundary, pos, store);
        var r := OneTurn(buf, |payload|);
        if r != Continue {
          return r == Stray, if r == Stray then 0 else r.parsed;
        }
      }
      RunTurn(buf, |payload|, boundary, pos, store);
      return false, |payload|;
    }

    /** The callbacks of the EST client on the arrays. */
    method Notify(call: Call) returns (r: Ending)
      requires Valid() && (call.OnValue? ==> NameStored()) && (call.Again? ==> SkippedStored(call.n))
      modifies this`numHeaders, this`keyLen, this`certLen, this`store, names, values, keyData, certData
      ensures Deliver(old(store), boundary, call) ==
              match r
              case Continue => Proceed(store)
              case Stopped(_) => Halt(store)
              case Stray => Spill
      ensures r != Stray ==> Valid()
      ensures call.OnName? && r == Continue ==> NameStored()
      ensures call.NoCall? && old(NameStored()) ==> NameStored()
    {
      hide SetHeaderValue, PartDataCb;
      var stop := false;
      match call {
      case NoCall =>
      case OnName(n) =>
        if numHeaders >= MAX_HEADERS { return Stray; }
        names[numHeaders] := n;
        store := store.(name := n);
      case OnValue(v) => ReadHeaderValue(v);
      case OnData(d) => stop := ReadPartData(d);
      case Again(n) => stop := ReadPartData(lookbehind[..n]);
      }
      return if stop then Stopped(pos.i) else Continue;
    }

    method Remember(at: nat, c: char)
      requires Sizes() && at < LOOKBEHIND_SIZE
      modifies lookbehind
      ensures old(SkippedStored(at)) && Skipped(boundary, at + 1)[at] == c ==> SkippedStored(at + 1)
    {
      lookbehind[at] := c;
      assert lookbehind[..at + 1] == lookbehind[..at] + [c];
    }

    /** The body of the loop. */
    method OneTurn(buf: string, len: nat) returns (r: Ending)
      requires Valid() && Prepared() && pos.i < len
      modifies this, names, values, lookbehind, keyData, certData
      ensures Turn(buf, len, boundary, old(pos), old(store)) ==
              match r
              case Continue => Go(pos, store)
              case Stopped(n) => Done(Outcome(n, store))
              case Stray => Done(Overrun)
      ensures r != Stray ==> Valid()
      ensures r == Continue && pos.i < len ==> Prepared()
    {
      hide Scan, Deliver;
      var move := Scan(buf, len, boundary, pos);
      if move.Fail? {
        return Stopped(move.parsed);
      }
      r := Notify(move.call);
      if r != Continue {
        return if r == Stray then Stray else Stopped(pos.i);
      }
      if move.keep.Keep? {
        if move.keep.at >= LOOKBEHIND_SIZE { return Stray; }
        Remember(move.keep.at, move.keep.c);
      }
      pos := move.next;
    }
  }

  method IsBlank(data: string) returns (blank: bool)
    ensures blank <==> OnlyWhitespace(data)
  {
    var i := 0;
    blank := true;
    while blank && i < |data|
      invariant 0 <= i <= |data|
      invariant blank <==> OnlyWhitespace(data[..i])
    {
      assert data[..i + 1] == data[..i] + [data[i]];
      if data[i] != ' ' && data[i] != '\r' && data[i] != '\n' {
        assert data[..i + 1][i] == data[i];
        blank := false;
      }
      i := i + 1;
    }
    assert data[..|data|] == data;
    assert !blank ==> forall k :: 0 <= k < i ==> data[..i][k] == data[k];
  }

  method ParseRemainingPayload(payload: string, boundary: string) returns (r: Parsed)
    ensures r == ParsePayload(payload, boundary)
  {
    hide Run;
    if |boundary| >= BOUNDARY_SIZE {
      return OutOfBounds;
    }
    var parser := new Parser(boundary);
    var overrun, parsed := parser.Execute(payload);
    if overrun {
      return OutOfBounds;
    }
    var rv := NoError;
    if parser.certLen == 0 || parser.keyLen == 0 {
      rv := ZeroLengthBuf;
      if parsed < |payload| {
        rv := MultipartParse;
      }
    }
    return Payloads(rv, parser.keyData[..parser.keyLen], parser.certData[..parser.certLen]);
  }
}
