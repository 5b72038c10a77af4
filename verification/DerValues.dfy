/** DER and BER values (section 8.1 of X.690) with every way of writing their identifier and
    length octets, and what the scan over CSR attributes makes of them.  Tags, forms and the
    challengePassword OID are written out here, independently of the scan. */
module DerValues {
  import opened Der
  import opened Options

  /** Identifier octets: one octet, followed by those of a high tag number if its low five bits
      are all set. */
  datatype Id = Id(octet: byte, high: seq<byte>)

  /** Length octets: one, or a count and as many octets. */
  datatype Len = Len(octet: byte, more: seq<byte>)

  datatype Tlv =
    | Prim(id: Id, len: Len, content: seq<byte>)
    | Oid(id: Id, len: Len, subs: seq<seq<byte>>)
    | BadOid(id: Id, len: Len, inner: Tlvs)
    | Container(id: Id, len: Len, inner: Tlvs)
    | Indefinite(id: Id, inner: Tlvs)

  datatype Tlvs = Nil | Cons(v: Tlv, rest: Tlvs)

  // ---------------------------------------------------------------- the grammar

  /** The number that octets stand for in base 128 or 256, most significant first. */
  function Number(octets: seq<byte>, base: nat): (n: nat)
    requires base > 0
  {
    if octets == [] then 0 else Number(octets[..|octets| - 1], base) * base + octets[|octets| - 1] % base
  }

  function TagOf(id: Id): (t: nat) {
    if id.octet % 32 == 31 then Number(id.high, 128) else id.octet % 32
  }

  predicate ValidId(id: Id) {
    if id.octet % 32 == 31 then
      && 1 <= |id.high| <= 4 && id.high[|id.high| - 1] < 128
      && forall i :: 0 <= i < |id.high| - 1 ==> id.high[i] >= 128
    else id.high == []
  }

  /** The length octets stand for `n`. */
  predicate LenIs(len: Len, n: nat) {
    if len.octet < 128 then len.more == [] && len.octet == n
    else |len.more| >= 1 && len.octet == 128 + |len.more| && Number(len.more, 256) == n
  }

  /** A subidentifier: the top bit on all octets but the last, and no leading zero. */
  predicate ValidSub(s: seq<byte>) {
    && s != [] && s[0] != 0x80 && s[|s| - 1] < 0x80
    && forall i :: 0 <= i < |s| - 1 ==> s[i] >= 0x80
  }

  function Concat(subs: seq<seq<byte>>): (s: seq<byte>) {
    if subs == [] then [] else subs[0] + Concat(subs[1..])
  }

  predicate ValidSubs(subs: seq<seq<byte>>) {
    subs != [] && forall i :: 0 <= i < |subs| ==> ValidSub(subs[i])
  }

  /** Contents that are an object identifier. */
  ghost predicate IsOid(c: seq<byte>) {
    exists subs :: ValidSubs(subs) && Concat(subs) == c
  }

  /** Tag 6 is OBJECT IDENTIFIER, 16 SEQUENCE, 17 SET. */
  ghost predicate Valid(v: Tlv) {
    && ValidId(v.id)
    && match v
       case Prim(id, len, c) => TagOf(id) != 6 && TagOf(id) != 16 && TagOf(id) != 17 && LenIs(len, |c|)
       case Oid(id, len, subs) => TagOf(id) == 6 && ValidSubs(subs) && LenIs(len, |Concat(subs)|)
       case BadOid(id, len, inner) =>
         TagOf(id) == 6 && ValidAll(inner) && LenIs(len, |TextAll(inner)|) && !IsOid(TextAll(inner))
       case Container(id, len, inner) =>
         (TagOf(id) == 16 || TagOf(id) == 17) && ValidAll(inner) && LenIs(len, |TextAll(inner)|)
       case Indefinite(id, inner) =>
         (TagOf(id) == 16 || TagOf(id) == 17) && (id.octet / 32) % 2 == 1 && ValidAll(inner)
  }

  ghost predicate ValidAll(vs: Tlvs) {
    vs.Nil? || (Valid(vs.v) && ValidAll(vs.rest))
  }

  function HeadText(id: Id, len: Len): (s: seq<byte>) {
    ([id.octet] + id.high) + ([len.octet] + len.more)
  }

  function Text(v: Tlv): (s: seq<byte>) {
    match v
    case Prim(id, len, c) => HeadText(id, len) + c
    case Oid(id, len, subs) => HeadText(id, len) + Concat(subs)
    case BadOid(id, len, inner) => HeadText(id, len) + TextAll(inner)
    case Container(id, len, inner) => HeadText(id, len) + TextAll(inner)
    case Indefinite(id, inner) => HeadText(id, Len(0x80, [])) + (TextAll(inner) + [0, 0])
  }

  function TextAll(vs: Tlvs): (s: seq<byte>) {
    if vs.Nil? then [] else Text(vs.v) + TextAll(vs.rest)
  }

  /** The challengePassword OID occurs in the value, at some depth. */
  predicate Occurs(v: Tlv) {
    match v
    case Prim(_, _, _) => false
    case Oid(_, _, subs) => Concat(subs) == [0x2A, 0x86, 0x48, 0x86, 0xF7, 0x0D, 0x01, 0x09, 0x07]
    case BadOid(_, _, inner) => OccursIn(inner)
    case Container(_, _, inner) => OccursIn(inner)
    case Indefinite(_, inner) => OccursIn(inner)
  }

  predicate OccursIn(vs: Tlvs) {
    vs.Cons? && (Occurs(vs.v) || OccursIn(vs.rest))
  }

  // ---------------------------------------------------------------- headers

  lemma {:induction false} LongLengthIs(s: seq<byte>, i: nat, octets: seq<byte>)
    requires i + |octets| <= |s| && s[i..i + |octets|] == octets
    ensures LongLength(s, i, |octets|) == Number(octets, 256)
    decreases |octets|
  {
    if octets != [] {
      var init := octets[..|octets| - 1];
      assert s[i..i + |init|] == init;
      LongLengthIs(s, i, init);
      assert s[i + |octets| - 1] == octets[|octets| - 1];
    }
  }

  /** The octets of a high tag number, `k` of them already read. */
  lemma {:induction false} HighTagIs(s: seq<byte>, high: seq<byte>, k: nat)
    requires 1 + |high| <= |s| && s[1..1 + |high|] == high && k < |high| <= 4
    requires high[|high| - 1] < 128 && forall i :: 0 <= i < |high| - 1 ==> high[i] >= 128
    ensures HighTag(s, 1 + k, Number(high[..k], 128)) == Some((Number(high, 128), 1 + |high|))
    decreases |high| - k
  {
    assert s[1 + k] == high[k];
    assert high[..k + 1][..k] == high[..k] && high[..|high|] == high;
    NumberBound(high[..k + 1]);
    if k < |high| - 1 {
      HighTagIs(s, high, k + 1);
    }
  }

  lemma {:induction false} NumberBound(h: seq<byte>)
    requires |h| <= 4
    ensures |h| <= 3 ==> Number(h, 128) < 0x200000
  {
    if 1 <= |h| <= 3 {
      var a := h[..|h| - 1];
      assert Number(h, 128) == Number(a, 128) * 128 + h[|h| - 1] % 128;
      if a != [] {
        var c := a[..|a| - 1];
        assert Number(a, 128) == Number(c, 128) * 128 + a[|a| - 1] % 128;
        if c != [] {
          assert c[..0] == [];
          assert Number(c, 128) == Number(c[..0], 128) * 128 + c[0] % 128;
        }
      }
    }
  }

  /** A printed header is decoded to its tag and the length of its contents. */
  lemma HeaderIs(id: Id, len: Len, c: seq<byte>)
    requires ValidId(id) && LenIs(len, |c|)
    ensures Header(HeadText(id, len) + c) == Some(Head(TagOf(id), |HeadText(id, len)|, |c|, false))
  {
    hide HighTag, LongLength, Number;
    var s, j := HeadText(id, len) + c, 1 + |id.high|;
    TagIs(id, [len.octet] + len.more + c);
    assert s == ([id.octet] + id.high) + ([len.octet] + len.more + c);
    assert s[0] == id.octet && s[j] == len.octet;
    if len.octet >= 128 {
      assert s[j + 1..j + 1 + |len.more|] == len.more;
      LongLengthIs(s, j + 1, len.more);
    }
  }

  lemma TagIs(id: Id, rest: seq<byte>)
    requires ValidId(id)
    ensures var s := ([id.octet] + id.high) + rest;
            (if s[0] % 32 == 31 then HighTag(s, 1, 0) else Some((s[0] % 32, 1))) == Some((TagOf(id), 1 + |id.high|))
  {
    hide HighTag;
    var s := ([id.octet] + id.high) + rest;
    if id.octet % 32 == 31 {
      assert s[1..1 + |id.high|] == id.high;
      assert id.high[..0] == [];
      HighTagIs(s, id.high, 0);
    }
  }

  /** The indefinite form of a constructed value. */
  lemma IndefiniteHeaderIs(id: Id, c: seq<byte>)
    requires ValidId(id) && (id.octet / 32) % 2 == 1
    ensures Header(HeadText(id, Len(0x80, [])) + c) == Some(Head(TagOf(id), |HeadText(id, Len(0x80, []))|, 0, true))
  {
    hide HighTag, LongLength, Number;
    var s, j := HeadText(id, Len(0x80, [])) + c, 1 + |id.high|;
    TagIs(id, [0x80] + [] + c);
    assert s == ([id.octet] + id.high) + ([0x80] + [] + c);
    assert s[0] == id.octet && s[j] == 0x80;
  }

  // ---------------------------------------------------------------- object identifiers

  lemma {:induction false} ConcatIsValid(subs: seq<seq<byte>>)
    requires ValidSubs(subs)
    ensures ValidOid(Concat(subs)) && Concat(subs)[0] != 0x80
    decreases |subs|
  {
    var first, rest := subs[0], Concat(subs[1..]);
    assert ValidSub(first);
    if |subs| > 1 {
      ConcatIsValid(subs[1..]);
      var c := first + rest;
      forall i | 0 <= i < |c| && c[i] == 128 ensures i > 0 && c[i - 1] >= 128 {
        if i >= |first| {
          assert rest[i - |first|] == 128;
        }
      }
    } else {
      assert Concat(subs) == first;
    }
  }

  lemma {:induction false} ValidIsConcat(c: seq<byte>) returns (subs: seq<seq<byte>>)
    requires ValidOid(c)
    ensures ValidSubs(subs) && Concat(subs) == c
    decreases |c|
  {
    var k := 0;
    while c[k] >= 128
      invariant k < |c| && forall i :: 0 <= i < k ==> c[i] >= 128
      decreases |c| - k
    {
      k := k + 1;
    }
    var first, rest := c[..k + 1], c[k + 1..];
    assert ValidSub(first);
    if rest == [] {
      subs := [first];
      assert Concat(subs) == first + Concat([]);
    } else {
      var more := ValidIsConcat(rest);
      subs := [first] + more;
      assert subs[1..] == more;
    }
  }

  lemma OidsAgree(c: seq<byte>)
    ensures ValidOid(c) <==> IsOid(c)
  {
    if ValidOid(c) {
      var subs := ValidIsConcat(c);
    }
    forall subs | ValidSubs(subs) && Concat(subs) == c ensures ValidOid(c) {
      ConcatIsValid(subs);
    }
  }

  // ---------------------------------------------------------------- the scan

  /** What the scan does behind a header: it steps over the contents, or into them. */
  lemma {:induction false} ScanHeader(s: seq<byte>, h: Head)
    requires Header(s) == Some(h)
    ensures h.tag == 16 || h.tag == 17 ==> Scan(s) == Scan(s[h.size..])
    ensures h.tag != 6 && h.tag != 16 && h.tag != 17 ==> Scan(s) == Scan(s[h.size + h.len..])
    ensures h.tag == 6 && !ValidOid(s[h.size..h.size + h.len]) ==> Scan(s) == Scan(s[h.size..])
    ensures h.tag == 6 && ValidOid(s[h.size..h.size + h.len]) && s[h.size + h.len..] == [] ==>
              Scan(s) == Some(s[h.size..h.size + h.len] == CHALLENGE_PASSWORD)
  {
    hide Header, ValidOid;
    ScanTurn(s);
    if h.tag == 6 {
      ScanTurn(s[h.size + h.len..]);
    }
  }

  /** Every printed value is accepted, and the scan finds the OID if and only if it occurs at
      some depth. */
  lemma {:induction false} ValueScans(v: Tlv)
    requires Valid(v)
    ensures Scan(Text(v)) == Some(Occurs(v))
    decreases v
  {
    hide Header, Scan, ValidOid, TextAll, Concat, IsOid, ValidId, LenIs, TagOf, HeadText;
    match v
    case Prim(id, len, c) =>
      HeaderIs(id, len, c);
      ScanHeader(Text(v), Head(TagOf(id), |HeadText(id, len)|, |c|, false));
      assert Text(v)[|HeadText(id, len)| + |c|..] == [];
      ScanTurn([]);
    case Oid(id, len, subs) =>
      var c := Concat(subs);
      HeaderIs(id, len, c);
      assert IsOid(c) by { OidWitness(subs); }
      OidsAgree(c);
      assert Text(v)[|HeadText(id, len)|..|HeadText(id, len)| + |c|] == c;
      ScanHeader(Text(v), Head(6, |HeadText(id, len)|, |c|, false));
    case BadOid(id, len, inner) =>
      var c := TextAll(inner);
      HeaderIs(id, len, c);
      OidsAgree(c);
      assert Text(v)[|HeadText(id, len)|..|HeadText(id, len)| + |c|] == c;
      assert Text(v)[|HeadText(id, len)|..] == c;
      ScanHeader(Text(v), Head(6, |HeadText(id, len)|, |c|, false));
      ValuesScan(inner);
    case Container(id, len, inner) =>
      var c := TextAll(inner);
      HeaderIs(id, len, c);
      assert Text(v)[|HeadText(id, len)|..] == c;
      ScanHeader(Text(v), Head(TagOf(id), |HeadText(id, len)|, |c|, false));
      ValuesScan(inner);
    case Indefinite(id, inner) =>
      var c := TextAll(inner) + [0, 0];
      IndefiniteHeaderIs(id, c);
      assert Text(v)[|HeadText(id, Len(0x80, []))|..] == c;
      ScanHeader(Text(v), Head(TagOf(id), |HeadText(id, Len(0x80, []))|, 0, true));
      ValuesScan(inner);
      EndOfContents();
      ScanConcat(TextAll(inner), [0, 0]);
  }

  lemma {:induction false} OidWitness(subs: seq<seq<byte>>)
    requires ValidSubs(subs)
    ensures IsOid(Concat(subs))
  {
  }

  lemma EndOfContents()
    ensures Scan([0, 0]) == Some(false)
  {
    var s: seq<byte> := [0, 0];
    assert Header(s) == Some(Head(0, 2, 0, false));
    assert s[2..] == [];
    ScanTurn(s);
  }

  lemma {:induction false} ValuesScan(vs: Tlvs)
    requires ValidAll(vs)
    ensures Scan(TextAll(vs)) == Some(OccursIn(vs))
    decreases vs
  {
    hide Scan, Text, Valid, Occurs;
    if vs.Nil? {
      ScanTurn([]);
    } else {
      ValueScans(vs.v);
      ValuesScan(vs.rest);
      ScanConcat(Text(vs.v), TextAll(vs.rest));
    }
  }

  /** So on every printed list of values that is neither too short nor too long, the test
      succeeds; it allows 1035 bytes if challengePassword occurs and 1024 otherwise. */
  lemma {:induction false} PrintedAttributes(vs: Tlvs)
    requires ValidAll(vs)
    ensures var s := TextAll(vs);
            && SanityTest(s) == (if |s| < 2 then TooShort
                                 else if |s| > (if OccursIn(vs) then 1035 else 1024) then TooLong else NoError)
            && PopSeen(s) == OccursIn(vs)
  {
    hide Scan, PopSeen;
    ValuesScan(vs);
    PopIsScan(TextAll(vs));
  }

  lemma {:induction false} PopIsScan(s: seq<byte>)
    ensures Scan(s).Some? ==> PopSeen(s) == Scan(s).value
  {
  }

  /** challengePassword can be added exactly if the first value is a SEQUENCE. */
  lemma {:induction false} AddedIffSequence(v: Tlv, rest: seq<byte>)
    requires Valid(v) && SanityTest(Text(v) + rest) == NoError
    ensures AddChallengePassword(Text(v) + rest).Some? <==> TagOf(v.id) == 16
  {
    hide Header, SanityTest, Concat, TextAll, ValidId, LenIs, TagOf, HeadText;
    match v {
      case Prim(id, len, c) => HeaderIs(id, len, c);
      case Oid(id, len, subs) => HeaderIs(id, len, Concat(subs));
      case BadOid(id, len, inner) => HeaderIs(id, len, TextAll(inner));
      case Container(id, len, inner) => HeaderIs(id, len, TextAll(inner));
      case Indefinite(id, inner) => IndefiniteHeaderIs(id, TextAll(inner) + [0, 0]);
    }
    HeaderLocal(Text(v), rest);
  }

  // ---------------------------------------------------------------- malformed elements

  /** A high tag number that does not end, or is too large before it ends. */
  predicate HighBroken(s: seq<byte>, k: nat)
    requires 1 <= k <= |s|
  {
    (forall i :: 1 <= i < k ==> s[i] >= 128) && (k == |s| || (k > 1 && Number(s[1..k], 128) > 0xFFFFFF))
  }

  lemma {:induction false} HighTagFails(s: seq<byte>, k: nat, j: nat)
    requires 1 <= j <= k <= |s| && HighBroken(s, k) && (j == k ==> k == |s|)
    ensures HighTag(s, j, Number(s[1..j], 128)) == None
    decreases k - j
  {
    if j < k {
      assert s[1..j + 1][..|s[1..j + 1]| - 1] == s[1..j];
      if j + 1 < k || k == |s| {
        HighTagFails(s, k, j + 1);
      }
    }
  }

  /** An element that does not fit into what is left: no length octets, the indefinite form of
      a primitive, length octets or contents cut off. */
  ghost predicate Broken(s: seq<byte>) {
    && s != []
    && if s[0] % 32 == 31 then exists k :: 1 <= k <= |s| && HighBroken(s, k) else
       (|s| == 1
        || (s[1] == 0x80 && (s[0] / 32) % 2 == 0)
        || (s[1] < 0x80 && |s| < 2 + s[1])
        || (s[1] > 0x80 && |s| < 2 + (s[1] - 0x80))
        || (s[1] > 0x80 && |s| >= 2 + (s[1] - 0x80) && |s| < 2 + (s[1] - 0x80) + Number(s[2..2 + (s[1] - 0x80)], 256)))
  }

  lemma BrokenHeader(s: seq<byte>)
    requires Broken(s)
    ensures Header(s) == None
  {
    if s[0] % 32 == 31 {
      var k :| 1 <= k <= |s| && HighBroken(s, k);
      assert s[1..1] == [];
      HighTagFails(s, k, 1);
    } else if |s| >= 2 && s[1] > 0x80 && |s| >= 2 + (s[1] - 0x80) {
      LongLengthIs(s, 2, s[2..2 + (s[1] - 0x80)]);
    }
  }

  /** What may stand before it: whole values, and the headers of containers still open. */
  datatype Chunk = Whole(v: Tlv) | Opened(id: Id, len: Len)

  ghost predicate Fits(cs: seq<Chunk>, s: seq<byte>) {
    cs == [] ||
    (&& Fits(cs[1..], s)
     && match cs[0]
        case Whole(v) => Valid(v)
        case Opened(id, len) =>
          && ValidId(id) && (TagOf(id) == 16 || TagOf(id) == 17)
          && ((len == Len(0x80, []) && (id.octet / 32) % 2 == 1)
              || exists n :: 0 <= n <= |ChunkText(cs[1..]) + s| && LenIs(len, n)))
  }

  function ChunkText(cs: seq<Chunk>): (s: seq<byte>) {
    if cs == [] then []
    else (if cs[0].Whole? then Text(cs[0].v) else HeadText(cs[0].id, cs[0].len)) + ChunkText(cs[1..])
  }

  /** A broken element is found at any depth, behind anything. */
  lemma {:induction false} BrokenFound(cs: seq<Chunk>, s: seq<byte>)
    requires Fits(cs, s) && Broken(s)
    ensures Scan(ChunkText(cs) + s) == None
    decreases |cs|
  {
    hide Header, Scan, Broken, Text, Valid, LenIs, ValidId, TagOf, HeadText;
    if cs == [] {
      assert ChunkText(cs) + s == s;
      BrokenHeader(s);
      ScanTurn(s);
      BrokenIsSome(s);
    } else {
      BrokenFound(cs[1..], s);
      var rest := ChunkText(cs[1..]) + s;
      match cs[0]
      case Whole(v) =>
        assert ChunkText(cs) + s == Text(v) + rest;
        ValueScans(v);
        ScanConcat(Text(v), rest);
      case Opened(id, len) =>
        assert ChunkText(cs) + s == HeadText(id, len) + rest;
        OpenedScans(id, len, rest);
    }
  }

  lemma BrokenIsSome(s: seq<byte>)
    requires Broken(s)
    ensures s != []
  {
  }

  lemma {:induction false} OpenedScans(id: Id, len: Len, rest: seq<byte>)
    requires ValidId(id) && (TagOf(id) == 16 || TagOf(id) == 17)
    requires (len == Len(0x80, []) && (id.octet / 32) % 2 == 1) || exists n :: 0 <= n <= |rest| && LenIs(len, n)
    ensures Scan(HeadText(id, len) + rest) == Scan(rest)
  {
    hide Scan, LenIs, ValidId, TagOf;
    var s := HeadText(id, len) + rest;
    assert s[|HeadText(id, len)|..] == rest;
    if len == Len(0x80, []) && (id.octet / 32) % 2 == 1 {
      IndefiniteHeaderIs(id, rest);
      ScanHeader(s, Head(TagOf(id), |HeadText(id, len)|, 0, true));
    } else {
      var n :| 0 <= n <= |rest| && LenIs(len, n);
      HeaderIs(id, len, rest[..n]);
      HeaderLocal(HeadText(id, len) + rest[..n], rest[n..]);
      assert HeadText(id, len) + rest[..n] + rest[n..] == s;
      ScanHeader(s, Head(TagOf(id), |HeadText(id, len)|, n, false));
    }
  }

  /** Fewer than two bytes are too short, and nothing else is. */
  lemma ShortIsShort(s: seq<byte>)
    ensures SanityTest(s) == TooShort <==> |s| <= 1
  {
  }

  /** So the test refuses it, unless there is too little to look at. */
  lemma {:induction false} BrokenRefused(cs: seq<Chunk>, s: seq<byte>)
    requires Fits(cs, s) && Broken(s) && |ChunkText(cs) + s| >= 2
    ensures SanityTest(ChunkText(cs) + s) == BadHex
  {
    BrokenFound(cs, s);
  }
}
