/** The CSR attributes as DER: the sanity scan over all TLVs, and adding the
    challengePassword OID (section 4.5.2 of RFC 7030; sections 8.1.3 and 10.1 of X.690).

    `Header` stands for OpenSSL's `ASN1_get_object`: identifier octets of either form, and
    length octets of the short, long and indefinite forms. */
module Der {
  import opened Options

  type byte = b: int | 0 <= b < 256

  const TAG_OBJECT := 6
  const TAG_SEQUENCE := 16
  const TAG_SET := 17

  const MIN_ASN1_CSRATTRS := 2
  const MAX_CSRATTRS := 1024
  const MAX_CSRATTRS_WITHPOP := 1035

  /** 1.2.840.113549.1.9.7, as contents octets and as a complete TLV. */
  const CHALLENGE_PASSWORD: seq<byte> := [0x2A, 0x86, 0x48, 0x86, 0xF7, 0x0D, 0x01, 0x09, 0x07]
  const HEX_CHPW: seq<byte> := [0x06, 0x09] + CHALLENGE_PASSWORD

  // ---------------------------------------------------------------- TLV headers

  /** Tag number, number of header octets, number of contents octets, indefinite form. */
  datatype Head = Head(tag: nat, size: nat, len: nat, indefinite: bool)

  /** The octets of a high tag number, from offset `i`: the number and the offset behind it. */
  function HighTag(s: seq<byte>, i: nat, acc: nat): (r: Option<(nat, nat)>)
    ensures r.Some? ==> i < r.value.1 <= |s|
    decreases |s| - i
  {
    if i >= |s| then None
    else
      var v := acc * 128 + s[i] % 128;
      if s[i] < 128 then Some((v, i + 1))
      else if v > 0xFFFFFF then None
      else HighTag(s, i + 1, v)
  }

  /** The value of `n` length octets from offset `i`. */
  function LongLength(s: seq<byte>, i: nat, n: nat): (r: nat)
    requires i + n <= |s|
  {
    if n == 0 then 0 else LongLength(s, i, n - 1) * 256 + s[i + n - 1]
  }

  /** Length octets at `i`: the header ends behind them. */
  function Length(s: seq<byte>, i: nat, tag: nat, constructed: bool): (r: Option<Head>)
    ensures r.Some? ==> r.value.tag == tag && i < r.value.size <= |s|
  {
    if i >= |s| then None
    else if s[i] == 128 then if constructed then Some(Head(tag, i + 1, 0, true)) else None
    else if s[i] < 128 then Some(Head(tag, i + 1, s[i], false))
    else if i + 1 + (s[i] - 128) > |s| then None
    else Some(Head(tag, i + 1 + (s[i] - 128), LongLength(s, i + 1, s[i] - 128), false))
  }

  /** A header whose contents fit into `s`. */
  function Header(s: seq<byte>): (r: Option<Head>)
    ensures r.Some? ==> 2 <= r.value.size && r.value.size + r.value.len <= |s|
  {
    if s == [] then None
    else
      var constructed := (s[0] / 32) % 2 == 1;
      var t := if s[0] % 32 == 31 then HighTag(s, 1, 0) else Some((s[0] % 32, 1));
      if t.None? then None
      else
        var h := Length(s, t.value.1, t.value.0, constructed);
        if h.Some? && h.value.size + h.value.len <= |s| then h else None
  }

  // ---------------------------------------------------------------- the scan

  /** Contents octets of an OBJECT IDENTIFIER that OpenSSL accepts: the last subidentifier
      ends, and none starts with 0x80. */
  predicate ValidOid(c: seq<byte>) {
    && |c| > 0 && c[|c| - 1] < 128
    && forall i :: 0 <= i < |c| && c[i] == 128 ==> i > 0 && c[i - 1] >= 128
  }

  /** Octets to step over, and whether they were the challengePassword OID. */
  datatype Move = Move(n: nat, pop: bool)

  /** One turn of the scan: into sequences and sets, over everything else; an object
      identifier that does not decode is entered like a sequence. */
  function Next(s: seq<byte>): (r: Option<Move>)
    ensures r.Some? ==> 2 <= r.value.n <= |s|
  {
    var h := Header(s);
    if h.None? then None
    else
      var Head(tag, size, len, _) := h.value;
      if tag == TAG_OBJECT then
        var c := s[size..size + len];
        if ValidOid(c) then Some(Move(size + len, c == CHALLENGE_PASSWORD)) else Some(Move(size, false))
      else if tag == TAG_SEQUENCE || tag == TAG_SET then Some(Move(size, false))
      else Some(Move(size + len, false))
  }

  /** The whole scan: whether the OID occurs, or None for a malformed TLV. */
  function Scan(s: seq<byte>): (r: Option<bool>)
    decreases |s|
  {
    if s == [] then Some(false)
    else
      var m := Next(s);
      if m.None? then None
      else
        var rest := Scan(s[m.value.n..]);
        if rest.None? then None else Some(m.value.pop || rest.value)
  }

  /** One turn of the scan, for proofs that keep `Scan` hidden. */
  lemma {:induction false} ScanTurn(s: seq<byte>)
    ensures s == [] ==> Scan(s) == Some(false)
    ensures s != [] && Next(s).None? ==> Scan(s) == None
    ensures s != [] && Next(s).Some? ==>
              Scan(s) == (var rest := Scan(s[Next(s).value.n..]);
                          if rest.None? then None else Some(Next(s).value.pop || rest.value))
  {
  }

  /** Whether the OID occurs before the end or the first malformed TLV. */
  function PopSeen(s: seq<byte>): (r: bool)
    ensures Scan(s).Some? ==> r == Scan(s).value
    decreases |s|
  {
    if s == [] then false
    else
      var m := Next(s);
      m.Some? && (m.value.pop || PopSeen(s[m.value.n..]))
  }

  lemma {:induction false} PopTurn(s: seq<byte>)
    ensures PopSeen(s) <==> s != [] && Next(s).Some? && (Next(s).value.pop || PopSeen(s[Next(s).value.n..]))
  {
  }

  datatype EstError = NoError | TooShort | BadHex | TooLong

  function SanityTest(s: seq<byte>): (r: EstError) {
    if |s| < MIN_ASN1_CSRATTRS then TooShort
    else if Scan(s).None? then BadHex
    else if |s| > (if Scan(s).value then MAX_CSRATTRS_WITHPOP else MAX_CSRATTRS) then TooLong
    else NoError
  }

  /** `est_asn1_sanity_test`; before a malformed TLV `popPresent` tells what has come so far. */
  method AsnSanityTest(s: seq<byte>) returns (e: EstError, popPresent: bool)
    ensures e == SanityTest(s)
    ensures popPresent <==> e != TooShort && PopSeen(s)
    ensures e == NoError || e == TooLong ==> popPresent == Scan(s).value
  {
    hide Header, Scan, PopSeen, ValidOid;
    ScanTurn(s);
    popPresent := false;
    if |s| < MIN_ASN1_CSRATTRS {
      return TooShort, popPresent;
    }
    var maxLen := MAX_CSRATTRS;
    var left := s;
    while |left| > 0
      invariant |left| <= |s|
      invariant maxLen == if popPresent then MAX_CSRATTRS_WITHPOP else MAX_CSRATTRS
      invariant PopSeen(s) == (popPresent || PopSeen(left))
      invariant Scan(s) == if Scan(left).None? then None else Some(popPresent || Scan(left).value)
      decreases |left|
    {
      ScanTurn(left);
      PopTurn(left);
      var h := Header(left);
      if h.None? {
        return BadHex, popPresent;
      }
      var rest := left[h.value.size..];
      if h.value.tag == TAG_OBJECT {
        var c := rest[..h.value.len];
        assert c == left[h.value.size..h.value.size + h.value.len];
        if ValidOid(c) {
          if c == CHALLENGE_PASSWORD {
            popPresent := true;
            maxLen := MAX_CSRATTRS_WITHPOP;
          }
          assert rest[h.value.len..] == left[h.value.size + h.value.len..];
          rest := rest[h.value.len..];
        }
      } else if h.value.tag != TAG_SET && h.value.tag != TAG_SEQUENCE {
        assert rest[h.value.len..] == left[h.value.size + h.value.len..];
        rest := rest[h.value.len..];
      }
      left := rest;
    }
    ScanTurn(left);
    PopTurn(left);
    if |s| > maxLen {
      return TooLong, popPresent;
    }
    return NoError, popPresent;
  }

  // ---------------------------------------------------------------- minimal headers

  /** The shortest length octets for `n`, as section 10.1 of X.690 asks for. */
  function LengthOctets(n: nat): (r: seq<byte>)
    requires n < 65536
  {
    if n < 128 then [n] else if n < 256 then [0x81, n] else [0x82, n / 256, n % 256]
  }

  function Sequence(contents: seq<byte>): (r: seq<byte>)
    requires |contents| < 65536
  {
    [0x30] + LengthOctets(|contents|) + contents
  }

  /** What `est_add_challengePassword` makes of attributes that start with a SEQUENCE header. */
  function AddChallengePassword(s: seq<byte>): (r: Option<seq<byte>>)
    requires SanityTest(s) == NoError
  {
    var h := Header(s);
    if h.None? || h.value.tag != TAG_SEQUENCE then None
    else Some(Sequence(s[h.value.size..] + HEX_CHPW))
  }

  /** `est_add_challengePassword` on the decoded attributes, which its caller has scanned. */
  method AddChpw(s: seq<byte>) returns (ok: bool, newDer: array<byte>)
    requires SanityTest(s) == NoError
    ensures ok == AddChallengePassword(s).Some?
    ensures ok ==> newDer[..] == AddChallengePassword(s).value
  {
    hide Header, Scan, SanityTest;
    SanityFacts(s);
    var h := Header(s);
    if h.None? || h.value.tag != TAG_SEQUENCE {
      newDer := new byte[0];
      return false, newDer;
    }
    newDer := BuildSequence(s[h.value.size..], HEX_CHPW);
    return true, newDer;
  }

  /** A buffer of the right size, filled from both ends. */
  method BuildSequence(contents: seq<byte>, last: seq<byte>) returns (newDer: array<byte>)
    requires 0 < |contents + last| < 65000
    ensures fresh(newDer) && newDer[..] == Sequence(contents + last)
  {
    var newLen := |contents| + |last|;
    var at := if newLen >= 256 then 4 else if newLen >= 128 then 3 else 2;
    newLen := newLen + at;
    newDer := new byte[newLen](_ => 0);
    WriteHeader(newDer, at);
    ghost var was := newDer[..];
    assert was[..at] == newDer[..at];
    Copy(newDer, at, contents);
    Copy(newDer, newLen - |last|, last);
    FilledFromBothEnds(was, at, contents, last);
  }

  function Overwrite(a: seq<byte>, at: nat, s: seq<byte>): (r: seq<byte>)
    requires at + |s| <= |a|
  {
    a[..at] + s + a[at + |s|..]
  }

  lemma FilledFromBothEnds(a: seq<byte>, at: nat, s: seq<byte>, t: seq<byte>)
    requires at + |s| + |t| == |a|
    ensures Overwrite(Overwrite(a, at, s), at + |s|, t) == a[..at] + (s + t)
  {
  }

  lemma {:induction false} SanityFacts(s: seq<byte>)
    requires SanityTest(s) == NoError
    ensures |s| <= MAX_CSRATTRS_WITHPOP && Header(s).Some? && Scan(s).Some?
  {
  }

  /** Identifier and length octets in one of the three lengths. */
  method WriteHeader(a: array<byte>, at: nat)
    requires a.Length < 65536 && at < a.Length
    requires at == if a.Length - at >= 256 then 4 else if a.Length - at >= 128 then 3 else 2
    modifies a
    ensures a[..at] == [0x30] + LengthOctets(a.Length - at)
  {
    if at == 4 {
      a[1] := 0x82;
      a[2] := (a.Length - 4) / 256;
      a[3] := (a.Length - 4) % 256;
    } else if at == 3 {
      a[1] := 0x81;
      a[2] := a.Length - 3;
    } else {
      a[1] := a.Length - 2;
    }
    a[0] := 0x30;
  }

  /** `memcpy_s(&a[at], |s|, s, |s|)` */
  method Copy(a: array<byte>, at: nat, s: seq<byte>)
    requires at + |s| <= a.Length
    modifies a
    ensures a[..] == Overwrite(old(a[..]), at, s)
  {
    var i := 0;
    while i < |s|
      invariant 0 <= i <= |s|
      invariant forall k :: 0 <= k < i ==> a[at + k] == s[k]
      invariant forall k :: 0 <= k < a.Length && !(at <= k < at + i) ==> a[k] == old(a[k])
    {
      a[at + i] := s[i];
      i := i + 1;
    }
  }

  // ---------------------------------------------------------------- the scan is local

  lemma {:induction false} HighTagLocal(s: seq<byte>, t: seq<byte>, i: nat, acc: nat)
    requires HighTag(s, i, acc).Some?
    ensures HighTag(s + t, i, acc) == HighTag(s, i, acc)
    decreases |s| - i
  {
    if s[i] >= 128 {
      HighTagLocal(s, t, i + 1, acc * 128 + s[i] % 128);
    }
  }

  lemma {:induction false} LongLengthLocal(s: seq<byte>, t: seq<byte>, i: nat, n: nat)
    requires i + n <= |s|
    ensures LongLength(s + t, i, n) == LongLength(s, i, n)
  {
    if n > 0 {
      LongLengthLocal(s, t, i, n - 1);
    }
  }

  /** A header is decoded the same way whatever follows its contents. */
  lemma HeaderLocal(s: seq<byte>, t: seq<byte>)
    requires Header(s).Some?
    ensures Header(s + t) == Header(s)
  {
    hide HighTag, LongLength;
    var i := Header(s).value.size;
    if s[0] % 32 == 31 {
      HighTagLocal(s, t, 1, 0);
    }
    var j := if s[0] % 32 == 31 then HighTag(s, 1, 0).value.1 else 1;
    if s[j] > 128 {
      LongLengthLocal(s, t, j + 1, s[j] - 128);
    }
  }

  lemma NextLocal(s: seq<byte>, t: seq<byte>)
    requires Next(s).Some?
    ensures Next(s + t) == Next(s)
  {
    hide Header, ValidOid;
    HeaderLocal(s, t);
    var h := Header(s).value;
    assert (s + t)[h.size..h.size + h.len] == s[h.size..h.size + h.len];
  }

  /** Scanning two concatenated texts of TLVs is scanning one after the other. */
  lemma {:induction false} ScanConcat(a: seq<byte>, b: seq<byte>)
    requires Scan(a).Some?
    ensures Scan(a + b) == if Scan(b).None? then None else Some(Scan(a).value || Scan(b).value)
    decreases |a|
  {
    hide Next;
    if a == [] {
      assert a + b == b;
    } else {
      var n := Next(a).value.n;
      NextLocal(a, b);
      assert (a + b)[n..] == a[n..] + b;
      ScanConcat(a[n..], b);
    }
  }

  /** The OID itself is found. */
  lemma ScanOid()
    ensures Scan(HEX_CHPW) == Some(true)
  {
    assert HEX_CHPW[0] == 6 && HEX_CHPW[1] == 9 && HEX_CHPW[2..] == CHALLENGE_PASSWORD;
    assert Header(HEX_CHPW) == Some(Head(TAG_OBJECT, 2, 9, false));
    assert HEX_CHPW[2..11] == CHALLENGE_PASSWORD;
    assert ValidOid(CHALLENGE_PASSWORD);
    assert HEX_CHPW[11..] == [];
  }

  /** A minimal SEQUENCE is decoded to its contents. */
  lemma SequenceHeader(c: seq<byte>)
    requires |c| < 65536
    ensures var s := Sequence(c);
            var size := 1 + |LengthOctets(|c|)|;
            Header(s) == Some(Head(TAG_SEQUENCE, size, |c|, false)) && s[size..] == c
  {
    var s := Sequence(c);
    var l := LengthOctets(|c|);
    assert s[0] == 0x30 && s[1] == l[0];
    if |l| == 2 {
      assert s[2] == l[1];
      assert LongLength(s, 2, 1) == LongLength(s, 2, 0) * 256 + s[2];
    } else if |l| == 3 {
      assert s[2] == l[1] && s[3] == l[2];
      assert LongLength(s, 2, 1) == LongLength(s, 2, 0) * 256 + s[2];
      assert LongLength(s, 2, 2) == LongLength(s, 2, 1) * 256 + s[3];
    }
    assert s[1 + |l|..] == c;
  }

  // ---------------------------------------------------------------- the result

  /** On all attributes that the scan accepts and that start with a SEQUENCE: the result is a
      SEQUENCE around the old contents followed by the OID, and no header of definite length
      for so many octets is shorter than its header; the scan finds the OID in it and accepts it exactly up to the larger limit. */
  lemma AddedOid(s: seq<byte>)
    requires SanityTest(s) == NoError && Header(s).value.tag == TAG_SEQUENCE
    ensures var c := s[Header(s).value.size..] + HEX_CHPW;
            var r := AddChallengePassword(s);
            && r.Some? && Header(r.value) == Some(Head(TAG_SEQUENCE, |r.value| - |c|, |c|, false))
            && r.value[|r.value| - |c|..] == c
            && (forall t: seq<byte> :: Header(t).Some? && !Header(t).value.indefinite && Header(t).value.len == |c| ==>
                  |r.value| - |c| <= Header(t).value.size)
            && Scan(r.value) == Some(true)
            && SanityTest(r.value) == (if |r.value| <= MAX_CSRATTRS_WITHPOP then NoError else TooLong)
  {
    hide Header, Scan, LongLength;
    SanityFacts(s);
    var h := Header(s).value;
    var body := s[h.size..];
    var c := body + HEX_CHPW;
    ScanEnters(s);
    ScanOid();
    ScanConcat(body, HEX_CHPW);
    SequenceHeader(c);
    ScanEnters(Sequence(c));
    forall t: seq<byte> | Header(t).Some? && !Header(t).value.indefinite && Header(t).value.len == |c|
      ensures 1 + |LengthOctets(|c|)| <= Header(t).value.size
    {
      HeaderSize(t);
    }
  }

  lemma {:induction false} ScanEnters(s: seq<byte>)
    requires Header(s).Some? && Header(s).value.tag == TAG_SEQUENCE
    ensures Scan(s) == Scan(s[Header(s).value.size..])
  {
  }

  /** Long length octets cannot hide a short header. */
  lemma HeaderSize(s: seq<byte>)
    requires Header(s).Some? && !Header(s).value.indefinite
    ensures Header(s).value.len >= 128 ==> Header(s).value.size >= 3
    ensures Header(s).value.len >= 256 ==> Header(s).value.size >= 4
  {
    var t := if s[0] % 32 == 31 then HighTag(s, 1, 0) else Some((s[0] % 32, 1));
    var j := t.value.1;
    if s[j] == 129 {
      assert LongLength(s, j + 1, 1) == LongLength(s, j + 1, 0) * 256 + s[j + 1];
    }
  }

  /** Whether the result stays within the limit can be told from the old header. */
  lemma AddedOidFitsIff(s: seq<byte>)
    requires SanityTest(s) == NoError && Header(s).value.tag == TAG_SEQUENCE
    ensures SanityTest(AddChallengePassword(s).value) == NoError <==> |s| - Header(s).value.size <= 1020
  {
    hide Header, Scan;
    AddedOid(s);
  }

  /** For every single definite-length SEQUENCE that fills at most 1024 bytes and passes the
      scan, the result passes the scan with challengePassword present. */
  lemma AddedOidFits(s: seq<byte>)
    requires SanityTest(s) == NoError && |s| <= MAX_CSRATTRS
    requires Header(s).value.tag == TAG_SEQUENCE && !Header(s).value.indefinite
    requires Header(s).value.size + Header(s).value.len == |s|
    ensures var r := AddChallengePassword(s).value;
            |r| <= MAX_CSRATTRS_WITHPOP && SanityTest(r) == NoError && Scan(r) == Some(true)
  {
    hide Header, Scan, SanityTest;
    AddedOid(s);
    HeaderSize(s);
  }

  function Nulls(n: nat): (s: seq<byte>)
    ensures |s| == 2 * n
  {
    if n == 0 then [] else [5, 0] + Nulls(n - 1)
  }

  lemma {:induction false} ScanNulls(n: nat)
    ensures Scan(Nulls(n)) == Some(false)
  {
    if n > 0 {
      ScanNulls(n - 1);
      var s := Nulls(n);
      assert s[0] == 5 && s[1] == 0;
      assert Header(s) == Some(Head(5, 2, 0, false));
      assert s[2..] == Nulls(n - 1);
    }
  }

  /** Other accepted attributes can be pushed over the limit: an empty SEQUENCE followed by
      511 NULLs fills 1024 bytes and becomes one SEQUENCE of 1037. */
  lemma AddedOidCanOverflow()
    ensures var s := [0x30, 0] + Nulls(511);
            && SanityTest(s) == NoError && Header(s) == Some(Head(TAG_SEQUENCE, 2, 0, false))
            && SanityTest(AddChallengePassword(s).value) == TooLong
  {
    var s := [0x30, 0] + Nulls(511);
    assert Header(s) == Some(Head(TAG_SEQUENCE, 2, 0, false));
    hide Header, Scan, Nulls;
    assert s[2..] == Nulls(511);
    ScanNulls(511);
    ScanEnters(s);
    AddedOid(s);
  }
}
