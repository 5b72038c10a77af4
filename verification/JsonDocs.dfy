/** JSON texts (RFC 8259, sections 2 to 7) and what `jsmn_parse` makes of them.

    A `Value` is a JSON value together with one way of writing it: every place where the
    grammar allows whitespace carries its own run of whitespace, and every string is the
    list of its plain characters and escapes.  So a property of all `Value`s is a property
    of all JSON values in all their serializations. */
module JsonDocs {
  import opened Jsmn
  import opened JsmnProofs
  import opened Texts

  datatype Piece = Raw(c: char) | Escape(c: char) | Unicode(h: string)

  datatype Value =
    | Prim(text: string)
    | Text(body: seq<Piece>)
    | Arr(pad: string, elems: Elems)
    | Obj(pad: string, members: Members)

  datatype Elems = NoElems | Elem(before: string, v: Value, after: string, rest: Elems)

  datatype Members =
    | NoMembers
    | Member(before: string, key: seq<Piece>, afterKey: string, beforeValue: string, v: Value, after: string, rest: Members)

  // ---------------------------------------------------------------- well-formed texts

  // The characters of the grammar are written out here, independently of the tokenizer.

  predicate SpaceChar(c: char) {
    c == 0x20 as char || c == 0x09 as char || c == 0x0A as char || c == 0x0D as char
  }

  predicate Blank(s: string) {
    forall i :: 0 <= i < |s| ==> SpaceChar(s[i])
  }

  predicate EscapeChar(c: char) {
    c in {'\"', '\\', '/', 'b', 'f', 'n', 'r', 't'}
  }

  predicate HexDigit(c: char) {
    c in {'0', '1', '2', '3', '4', '5', '6', '7', '8', '9', 'a', 'b', 'c', 'd', 'e', 'f', 'A', 'B', 'C', 'D', 'E', 'F'}
  }

  predicate ValidPiece(p: Piece) {
    match p
    case Raw(c) => c != '\0' && c != '\"' && c != '\\'
    case Escape(c) => EscapeChar(c)
    case Unicode(h) => |h| == 4 && forall i :: 0 <= i < 4 ==> HexDigit(h[i])
  }

  predicate ValidBody(b: seq<Piece>) {
    forall i :: 0 <= i < |b| ==> ValidPiece(b[i])
  }

  /** A character that does not end a primitive: printable, and none of blank , : ] }. */
  predicate PrimChar(c: char) {
    0x20 as char < c < 0x7F as char && c !in {',', ':', ']', '}'}
  }

  /** The tokenizer takes every text of this form for a primitive. */
  predicate ValidPrim(t: string) {
    t != [] && t[0] !in {'{', '[', '\"'} && forall i :: 0 <= i < |t| ==> PrimChar(t[i])
  }

  predicate Digits(s: string) {
    s != [] && forall i :: 0 <= i < |s| ==> '0' <= s[i] <= '9'
  }

  /** The primitives of RFC 8259, the three literals and all numbers (section 6), are among
      them. */
  lemma JsonPrimitives(minus: string, whole: string, frac: string, exp: string, sign: string, e: char)
    requires (minus == "" || minus == "-") && Digits(whole) && (frac == "" || (frac[0] == '.' && Digits(frac[1..])))
    requires e == 'e' || e == 'E'
    requires sign == "" || sign == "+" || sign == "-"
    requires exp == "" || Digits(exp)
    ensures ValidPrim("true") && ValidPrim("false") && ValidPrim("null")
    ensures ValidPrim(minus + whole + frac + if exp == "" then "" else [e] + sign + exp)
  {
    var tail := if exp == "" then "" else [e] + sign + exp;
    assert forall i :: 0 <= i < |frac| ==> frac[i] == '.' || (i > 0 && frac[i] == frac[1..][i - 1]);
    assert forall i :: 0 <= i < |tail| ==> PrimChar(tail[i]);
    assert forall i :: 0 <= i < |frac| ==> PrimChar(frac[i]);
    var n := minus + whole + frac + tail;
    assert n[0] == if minus == "" then whole[0] else '-';
  }

  predicate Valid(v: Value) {
    match v
    case Prim(t) => ValidPrim(t)
    case Text(b) => ValidBody(b)
    case Arr(pad, es) => Blank(pad) && ValidElems(es)
    case Obj(pad, ms) => Blank(pad) && ValidMembers(ms)
  }

  predicate ValidElems(e: Elems) {
    match e
    case NoElems => true
    case Elem(b, v, a, rest) => Blank(b) && Valid(v) && Blank(a) && ValidElems(rest)
  }

  predicate ValidMembers(m: Members) {
    match m
    case NoMembers => true
    case Member(b, k, ak, bv, v, a, rest) =>
      Blank(b) && ValidBody(k) && Blank(ak) && Blank(bv) && Valid(v) && Blank(a) && ValidMembers(rest)
  }

  // ---------------------------------------------------------------- printing

  function PieceText(p: Piece): (s: string) {
    match p
    case Raw(c) => [c]
    case Escape(c) => ['\\', c]
    case Unicode(h) => ['\\', 'u'] + h
  }

  function BodyText(b: seq<Piece>): (s: string) {
    if b == [] then "" else PieceText(b[0]) + BodyText(b[1..])
  }

  function Quoted(b: seq<Piece>): (s: string) {
    "\"" + (BodyText(b) + "\"")
  }

  function Print(v: Value): (s: string) {
    match v
    case Prim(t) => t
    case Text(b) => Quoted(b)
    case Arr(pad, es) => "[" + (pad + ElemsText(es))
    case Obj(pad, ms) => "{" + (pad + MembersText(ms))
  }

  /** The elements and the closing bracket. */
  function ElemsText(e: Elems): (s: string) {
    match e
    case NoElems => "]"
    case Elem(b, v, a, rest) => b + (Print(v) + (a + if rest.NoElems? then "]" else "," + ElemsText(rest)))
  }

  function MembersText(m: Members): (s: string) {
    match m
    case NoMembers => "}"
    case Member(b, k, ak, bv, v, a, rest) =>
      b + (Quoted(k) + (ak + (":" + (bv + (Print(v) + (a + if rest.NoMembers? then "}" else "," + MembersText(rest)))))))
  }

  // ---------------------------------------------------------------- the expected tokens

  function ElemCount(e: Elems): (n: nat) {
    if e.NoElems? then 0 else 1 + ElemCount(e.rest)
  }

  function MemberCount(m: Members): (n: nat) {
    if m.NoMembers? then 0 else 1 + MemberCount(m.rest)
  }

  /** The preorder of the tokens of `v` printed at `p`. */
  function Tokens(v: Value, p: nat): (r: seq<Token>) {
    match v
    case Prim(t) => [Token(Primitive, p, p + |t|, 0)]
    case Text(b) => [Token(Str, p + 1, p + 1 + |BodyText(b)|, 0)]
    case Arr(pad, es) => [Token(Array, p, p + |Print(v)|, ElemCount(es))] + ElemTokens(es, p + 1 + |pad|)
    case Obj(pad, ms) => [Token(Object, p, p + |Print(v)|, MemberCount(ms))] + MemberTokens(ms, p + 1 + |pad|)
  }

  function ElemTokens(e: Elems, p: nat): (r: seq<Token>) {
    match e
    case NoElems => []
    case Elem(b, v, a, rest) =>
      Tokens(v, p + |b|) + ElemTokens(rest, p + |b| + |Print(v)| + |a| + 1)
  }

  function MemberTokens(m: Members, p: nat): (r: seq<Token>) {
    match m
    case NoMembers => []
    case Member(b, k, ak, bv, v, a, rest) =>
      var q := p + |b| + |Quoted(k)| + |ak| + 1 + |bv|;
      [Token(Str, p + |b| + 1, p + |b| + 1 + |BodyText(k)|, 1)]
      + (Tokens(v, q) + MemberTokens(rest, q + |Print(v)| + |a| + 1))
  }

  /** One token per value and one per key. */
  function Nodes(v: Value): (n: nat) {
    match v
    case Prim(_) => 1
    case Text(_) => 1
    case Arr(_, es) => 1 + ElemNodes(es)
    case Obj(_, ms) => 1 + MemberNodes(ms)
  }

  function ElemNodes(e: Elems): (n: nat) {
    if e.NoElems? then 0 else Nodes(e.v) + ElemNodes(e.rest)
  }

  function MemberNodes(m: Members): (n: nat) {
    if m.NoMembers? then 0 else 1 + Nodes(m.v) + MemberNodes(m.rest)
  }

  /** As many tokens as nodes, all of them closed. */
  lemma {:induction false} TokenFacts(v: Value, p: nat)
    ensures |Tokens(v, p)| == Nodes(v)
    ensures forall i :: 0 <= i < |Tokens(v, p)| ==> !Open(Tokens(v, p)[i])
  {
    hide Print, BodyText;
    match v
    case Arr(pad, es) => ElemFacts(es, p + 1 + |pad|);
    case Obj(pad, ms) => MemberFacts(ms, p + 1 + |pad|);
    case _ =>
  }

  lemma {:induction false} ElemFacts(e: Elems, p: nat)
    ensures |ElemTokens(e, p)| == ElemNodes(e)
    ensures forall i :: 0 <= i < |ElemTokens(e, p)| ==> !Open(ElemTokens(e, p)[i])
  {
    hide Print;
    if e.Elem? {
      TokenFacts(e.v, p + |e.before|);
      ElemFacts(e.rest, p + |e.before| + |Print(e.v)| + |e.after| + 1);
    }
  }

  lemma {:induction false} MemberFacts(m: Members, p: nat)
    ensures |MemberTokens(m, p)| == MemberNodes(m)
    ensures forall i :: 0 <= i < |MemberTokens(m, p)| ==> !Open(MemberTokens(m, p)[i])
  {
    hide Print, Quoted, BodyText;
    if m.Member? {
      var q := p + |m.before| + |Quoted(m.key)| + |m.afterKey| + 1 + |m.beforeValue|;
      TokenFacts(m.v, q);
      MemberFacts(m.rest, q + |Print(m.v)| + |m.after| + 1);
    }
  }

  // ---------------------------------------------------------------- reading a printed text

  lemma {:induction false} HexText(js: string, p: nat, h: string)
    requires At(js, p, h) && forall i :: 0 <= i < |h| ==> HexDigit(h[i])
    ensures ScanHex(js, p, |h|) == End(p + |h|)
    decreases |h|
  {
    hide At;
    if h != [] {
      AtChar(js, p, h, 0);
      assert h == h[..1] + h[1..];
      AtSplit(js, p, h[..1], h[1..]);
      HexText(js, p + 1, h[1..]);
    }
  }

  /** One piece of a string is stepped over as a whole. */
  lemma PieceScans(js: string, p: nat, b: Piece)
    requires ValidPiece(b) && At(js, p, PieceText(b))
    ensures ScanString(js, p) == ScanString(js, p + |PieceText(b)|)
  {
    hide At, ScanString;
    StringTurn(js, p);
    AtChar(js, p, PieceText(b), 0);
    if !b.Raw? {
      AtChar(js, p, PieceText(b), 1);
      if b.Unicode? {
        AtSplit(js, p, ['\\', 'u'], b.h);
        HexText(js, p + 2, b.h);
      }
    }
  }

  /** The string scan stops at the quote that closes the body. */
  lemma {:induction false} BodyScans(js: string, p: nat, b: seq<Piece>)
    requires ValidBody(b) && At(js, p, BodyText(b) + "\"")
    ensures ScanString(js, p) == End(p + |BodyText(b)|)
    decreases |b|
  {
    hide At;
    if b == [] {
      AtChar(js, p, BodyText(b) + "\"", 0);
    } else {
      hide ScanString, PieceText, EscapeChar, HexDigit;
      var t := PieceText(b[0]);
      assert BodyText(b) + "\"" == t + (BodyText(b[1..]) + "\"");
      AtSplit(js, p, t, BodyText(b[1..]) + "\"");
      assert ValidPiece(b[0]);
      PieceScans(js, p, b[0]);
      BodyScans(js, p + |t|, b[1..]);
    }
  }

  /** A primitive ends where its text ends, if a delimiter or the end of input follows. */
  lemma {:induction false} PrimScans(js: string, p: nat, t: string)
    requires At(js, p, t) && forall i :: 0 <= i < |t| ==> PrimChar(t[i])
    requires !More(js, p + |t|) || EndsPrimitive(js[p + |t|])
    ensures ScanPrimitive(js, p) == End(p + |t|)
    decreases |t|
  {
    hide At;
    if t != [] {
      AtChar(js, p, t, 0);
      assert t == t[..1] + t[1..];
      AtSplit(js, p, t[..1], t[1..]);
      PrimScans(js, p + 1, t[1..]);
    }
  }

  // ---------------------------------------------------------------- malformed lexemes

  /** How a string goes wrong behind well-formed pieces: an escape that does not exist, or
      fewer than four hexadecimal digits. */
  predicate BadTail(t: string) {
    && |t| >= 2 && t[0] == '\\' && !EscapeChar(t[1])
    && if t[1] != 'u' then |t| == 2
       else 3 <= |t| <= 6 && (forall i :: 2 <= i < |t| - 1 ==> HexDigit(t[i])) && !HexDigit(t[|t| - 1]) && t[|t| - 1] != '\0'
  }

  /** Input that ends inside a string: right behind a piece or within an escape. */
  predicate CutTail(t: string) {
    || t == [] || t == "\\"
    || (2 <= |t| <= 6 && t[0] == '\\' && t[1] == 'u' && forall i :: 2 <= i < |t| ==> HexDigit(t[i]))
  }

  /** The tokenizer's classes of characters are those of the grammar. */
  lemma SameClasses(c: char)
    ensures IsSpace(c) <==> SpaceChar(c)
    ensures IsHex(c) <==> HexDigit(c)
    ensures IsSimpleEscape(c) <==> EscapeChar(c)
    ensures EndsPrimitive(c) <==> SpaceChar(c) || c in {',', ':', ']', '}'}
  {
  }

  lemma {:induction false} HexStops(js: string, p: nat, h: string, n: nat)
    requires At(js, p, h) && |h| <= n && forall i :: 0 <= i < |h| ==> HexDigit(h[i])
    ensures ScanHex(js, p, n) == ScanHex(js, p + |h|, n - |h|)
    decreases |h|
  {
    hide At;
    if h != [] {
      AtChar(js, p, h, 0);
      assert h == h[..1] + h[1..];
      AtSplit(js, p, h[..1], h[1..]);
      HexStops(js, p + 1, h[1..], n - 1);
    }
  }

  /** Pieces are stepped over, whatever follows them. */
  lemma {:induction false} PiecesScan(js: string, p: nat, b: seq<Piece>)
    requires ValidBody(b) && At(js, p, BodyText(b))
    ensures ScanString(js, p) == ScanString(js, p + |BodyText(b)|)
    decreases |b|
  {
    hide At, ScanString, PieceText;
    if b != [] {
      AtSplit(js, p, PieceText(b[0]), BodyText(b[1..]));
      assert ValidPiece(b[0]);
      PieceScans(js, p, b[0]);
      PiecesScan(js, p + |PieceText(b[0])|, b[1..]);
    }
  }

  lemma {:induction false} BadTailScans(js: string, p: nat, t: string)
    requires At(js, p, t) && BadTail(t)
    ensures ScanString(js, p) == Bad(INVAL)
  {
    hide At, ScanString, HexDigit, IsHex, EscapeChar, IsSimpleEscape;
    StringTurn(js, p);
    AtChar(js, p, t, 0);
    AtChar(js, p, t, 1);
    SameClasses(t[1]);
    assert !EscapeChar('u') by { EscapesAreEight(); }
    if t[1] == 'u' {
      var h, c := t[2..|t| - 1], t[|t| - 1];
      assert t == ['\\', 'u'] + (h + [c]);
      AtSplit(js, p, ['\\', 'u'], h + [c]);
      BadHexScans(js, p + 2, h, c);
    }
  }

  lemma EscapesAreEight()
    ensures !EscapeChar('u')
  {
  }

  lemma {:induction false} BadHexScans(js: string, p: nat, h: string, c: char)
    requires At(js, p, h + [c]) && |h| < 4 && (forall i :: 0 <= i < |h| ==> HexDigit(h[i])) && !HexDigit(c) && c != '\0'
    ensures ScanHex(js, p, 4) == Bad(INVAL)
  {
    hide At, HexDigit, IsHex;
    AtSplit(js, p, h, [c]);
    HexStops(js, p, h, 4);
    AtChar(js, p + |h|, [c], 0);
    SameClasses(c);
  }

  lemma {:induction false} CutTailScans(js: string, p: nat, t: string)
    requires At(js, p, t) && CutTail(t) && !More(js, p + |t|) && (t == "\\" ==> p + 1 == |js|)
    ensures ScanString(js, p) == Bad(PART)
  {
    hide At, ScanString;
    StringTurn(js, p);
    if t != [] {
      AtChar(js, p, t, 0);
      StringTurn(js, p + |t|);
      if |t| >= 2 {
        AtChar(js, p, t, 1);
        assert t == ['\\', 'u'] + t[2..];
        AtSplit(js, p, ['\\', 'u'], t[2..]);
        HexStops(js, p + 2, t[2..], 4);
      }
    }
  }

  /** A string with an escape that RFC 8259 does not have is refused where it stands. */
  lemma {:induction false} BadStringRefused(js: string, cap: nat, s: State, b: seq<Piece>, t: string)
    requires Wf(s) && ValidBody(b) && BadTail(t) && At(js, s.pos, "\"" + (BodyText(b) + t))
    ensures Run(js, cap, s) == Outcome(INVAL, s)
  {
    hide At, Run, ScanString, BodyText, BadTail;
    AtChar(js, s.pos, "\"" + (BodyText(b) + t), 0);
    AtSplit(js, s.pos, "\"", BodyText(b) + t);
    AtSplit(js, s.pos + 1, BodyText(b), t);
    PiecesScan(js, s.pos + 1, b);
    BadTailScans(js, s.pos + 1 + |BodyText(b)|, t);
    RunTurn(js, cap, s);
  }

  /** Input that ends inside a string is reported as incomplete. */
  lemma {:induction false} CutStringPartial(js: string, cap: nat, s: State, b: seq<Piece>, t: string)
    requires Wf(s) && ValidBody(b) && CutTail(t) && At(js, s.pos, "\"" + (BodyText(b) + t))
    requires var end := s.pos + 1 + |BodyText(b)| + |t|; end == |js| || (t != "\\" && js[end] == '\0')
    ensures Run(js, cap, s) == Outcome(PART, s)
  {
    hide At, Run, ScanString, BodyText, CutTail;
    AtChar(js, s.pos, "\"" + (BodyText(b) + t), 0);
    AtSplit(js, s.pos, "\"", BodyText(b) + t);
    AtSplit(js, s.pos + 1, BodyText(b), t);
    PiecesScan(js, s.pos + 1, b);
    CutTailScans(js, s.pos + 1 + |BodyText(b)|, t);
    RunTurn(js, cap, s);
  }

  /** What follows the pieces of a string, at `q`. */
  predicate StringEnd(js: string, q: nat, t: string)
    requires q + |t| <= |js|
  {
    t == "\"" || BadTail(t) || (CutTail(t) && (q + |t| == |js| || (t != "\\" && js[q + |t|] == '\0')))
  }

  ghost predicate Splits(js: string, p: nat, b: seq<Piece>, t: string) {
    ValidBody(b) && At(js, p, BodyText(b) + t) && StringEnd(js, p + |BodyText(b)|, t)
  }

  lemma NoPieces(js: string, p: nat, t: string)
    requires At(js, p, t) && StringEnd(js, p, t)
    ensures Splits(js, p, [], t)
  {
    assert BodyText([]) + t == t;
  }

  lemma CutHere(js: string, p: nat)
    requires p == |js| || (p < |js| && js[p] == '\0')
    ensures Splits(js, p, [], "")
  {
    hide BodyText, BadTail;
    NoPieces(js, p, "");
  }

  lemma ClosedHere(js: string, p: nat)
    requires p < |js| && js[p] == '\"'
    ensures Splits(js, p, [], "\"")
  {
    hide BodyText, BadTail;
    NoPieces(js, p, "\"");
  }

  lemma CutEscape(js: string, p: nat)
    requires p + 1 == |js| && js[p] == '\\'
    ensures Splits(js, p, [], "\\")
  {
    hide BodyText, BadTail;
    NoPieces(js, p, "\\");
  }

  lemma BadEscape(js: string, p: nat)
    requires p + 1 < |js| && js[p] == '\\' && !EscapeChar(js[p + 1]) && js[p + 1] != 'u'
    ensures Splits(js, p, [], js[p..p + 2])
  {
    hide BodyText, CutTail, EscapeChar;
    NoPieces(js, p, js[p..p + 2]);
  }

  /** These are all cases: behind a quote comes a well-formed string, a bad one or a cut one. */
  lemma {:induction false} StringCases(js: string, p: nat) returns (b: seq<Piece>, t: string)
    requires p <= |js|
    ensures Splits(js, p, b, t)
    decreases |js| - p
  {
    hide Splits, BodyText, EscapeChar;
    b := [];
    if p == |js| || js[p] == '\0' {
      t := "";
      CutHere(js, p);
    } else if js[p] == '\"' {
      t := "\"";
      ClosedHere(js, p);
    } else if js[p] != '\\' {
      b, t := MoreCases(js, p, Raw(js[p]));
    } else if p + 1 == |js| {
      t := "\\";
      CutEscape(js, p);
    } else if EscapeChar(js[p + 1]) {
      b, t := MoreCases(js, p, Escape(js[p + 1]));
    } else if js[p + 1] != 'u' {
      t := js[p..p + 2];
      BadEscape(js, p);
    } else {
      b, t := UnicodeCases(js, p);
    }
  }

  lemma {:induction false} UnicodeCases(js: string, p: nat) returns (b: seq<Piece>, t: string)
    requires p + 2 <= |js| && js[p] == '\\' && js[p + 1] == 'u'
    ensures Splits(js, p, b, t)
    decreases |js| - p, 1
  {
    hide Splits, BodyText;
    var n := HexRun(js, p + 2);
    var q := p + 2 + n;
    if n == 4 {
      var h := js[p + 2..q];
      assert js[p..q] == PieceText(Unicode(h));
      b, t := MoreCases(js, p, Unicode(h));
    } else {
      b, t := [], js[p..if q == |js| || js[q] == '\0' then q else q + 1];
      NoPieces(js, p, t);
    }
  }

  /** The number of hexadecimal digits at `p`, four at most. */
  lemma HexRun(js: string, p: nat) returns (n: nat)
    requires p <= |js|
    ensures n <= 4 && p + n <= |js| && (forall i :: p <= i < p + n ==> HexDigit(js[i]))
    ensures n < 4 && p + n < |js| ==> !HexDigit(js[p + n])
  {
    n := 0;
    while n < 4 && p + n < |js| && HexDigit(js[p + n])
      invariant n <= 4 && p + n <= |js| && (forall i :: p <= i < p + n ==> HexDigit(js[i]))
    {
      n := n + 1;
    }
  }

  lemma {:induction false} MoreCases(js: string, p: nat, first: Piece) returns (b: seq<Piece>, t: string)
    requires ValidPiece(first) && At(js, p, PieceText(first))
    ensures Splits(js, p, b, t)
    decreases |js| - p, 0
  {
    hide StringEnd, ValidPiece, PieceText;
    var f := PieceText(first);
    assert |f| >= 1 by { PieceLength(first); }
    var c;
    c, t := StringCases(js, p + |f|);
    b := [first] + c;
    assert b[1..] == c;
    assert BodyText(b) + t == f + (BodyText(c) + t);
    AtJoin(js, p, f, BodyText(c) + t);
  }

  lemma PieceLength(p: Piece)
    ensures |PieceText(p)| >= 1
  {
  }

  lemma AtJoin(js: string, p: nat, a: string, b: string)
    requires At(js, p, a) && At(js, p + |a|, b)
    ensures At(js, p, a + b)
  {
    assert js[p..p + |a| + |b|] == js[p..p + |a|] + js[p + |a|..p + |a| + |b|];
  }

  /** So the scan of a string is determined on every input. */
  lemma StringExact(js: string, p: nat) returns (b: seq<Piece>, t: string)
    requires p <= |js|
    ensures Splits(js, p, b, t)
    ensures ScanString(js, p) == if t == "\"" then End(p + |BodyText(b)|) else if BadTail(t) then Bad(INVAL) else Bad(PART)
  {
    b, t := StringCases(js, p);
    hide Splits, ScanString, BodyText, BadTail;
    SplitScans(js, p, b, t);
    TailScans(js, p + |BodyText(b)|, t);
  }

  lemma SplitScans(js: string, p: nat, b: seq<Piece>, t: string)
    requires Splits(js, p, b, t)
    ensures p + |BodyText(b)| + |t| <= |js| && At(js, p + |BodyText(b)|, t) && StringEnd(js, p + |BodyText(b)|, t)
    ensures ScanString(js, p) == ScanString(js, p + |BodyText(b)|)
  {
    hide ScanString, BodyText, StringEnd, ValidPiece;
    AtSplit(js, p, BodyText(b), t);
    PiecesScan(js, p, b);
  }

  lemma {:induction false} TailScans(js: string, q: nat, t: string)
    requires At(js, q, t) && StringEnd(js, q, t)
    ensures ScanString(js, q) == if t == "\"" then End(q) else if BadTail(t) then Bad(INVAL) else Bad(PART)
  {
    hide ScanString, BadTail, CutTail;
    StringTurn(js, q);
    if BadTail(t) {
      BadTailScans(js, q, t);
    } else if t != "\"" {
      CutTailScans(js, q, t);
    }
    QuoteIsNoTail();
  }

  lemma QuoteIsNoTail()
    ensures !BadTail("\"")
  {
  }

  /** A primitive with a control character or a byte above 126 in it is refused. */
  lemma {:induction false} BadPrimitiveRefused(js: string, cap: nat, s: State, t: string, c: char)
    requires Wf(s) && At(js, s.pos, t + [c]) && forall i :: 0 <= i < |t| ==> PrimChar(t[i])
    requires (t + [c])[0] !in {'{', '[', '\"'} && (c < 0x20 as char || c >= 0x7F as char) && !SpaceChar(c) && c != '\0'
    ensures Run(js, cap, s) == Outcome(INVAL, s)
  {
    hide At, Run, ScanPrimitive;
    AtChar(js, s.pos, t + [c], 0);
    BadPrimScans(js, s.pos, t, c);
    RunTurn(js, cap, s);
  }

  lemma {:induction false} BadPrimScans(js: string, p: nat, t: string, c: char)
    requires At(js, p, t + [c]) && forall i :: 0 <= i < |t| ==> PrimChar(t[i])
    requires (c < 0x20 as char || c >= 0x7F as char) && !SpaceChar(c) && c != '\0'
    ensures ScanPrimitive(js, p) == Bad(INVAL)
    decreases |t|
  {
    hide At;
    AtChar(js, p, t + [c], 0);
    if t != [] {
      assert t + [c] == t[..1] + (t[1..] + [c]);
      AtSplit(js, p, t[..1], t[1..] + [c]);
      BadPrimScans(js, p + 1, t[1..], c);
    }
  }

  /** Whitespace moves `pos` and nothing else. */
  lemma {:induction false} SkipBlank(js: string, cap: nat, s: State, w: string)
    requires Wf(s) && Blank(w) && At(js, s.pos, w)
    ensures Run(js, cap, s) == Run(js, cap, s.(pos := s.pos + |w|))
    decreases |w|
  {
    hide At, Run;
    if w != [] {
      AtChar(js, s.pos, w, 0);
      RunTurn(js, cap, s);
      assert w == w[..1] + w[1..];
      AtSplit(js, s.pos, w[..1], w[1..]);
      SkipBlank(js, cap, s.(pos := s.pos + 1), w[1..]);
    } else {
      assert s.(pos := s.pos + |w|) == s;
    }
  }

  lemma ReadString(js: string, cap: nat, s: State, b: seq<Piece>)
    requires Wf(s) && ValidBody(b) && At(js, s.pos, Quoted(b)) && |s.toks| < cap
    ensures Run(js, cap, s) ==
            Run(js, cap, State(s.pos + |Quoted(b)|, s.super,
                               Bump(s.toks, s.super) + [Token(Str, s.pos + 1, s.pos + 1 + |BodyText(b)|, 0)]))
  {
    hide At, Run, ScanString, BodyText, Bump;
    AtChar(js, s.pos, Quoted(b), 0);
    AtSplit(js, s.pos, "\"", BodyText(b) + "\"");
    BodyScans(js, s.pos + 1, b);
    RunTurn(js, cap, s);
  }

  /** Appending closed tokens hides nothing from the backward scan. */
  lemma {:induction false} ClosedAppend(a: seq<Token>, b: seq<Token>)
    requires forall i :: 0 <= i < |b| ==> !Open(b[i])
    ensures LastOpen(a + b, |a| + |b|) == LastOpen(a, |a|)
    decreases |b|
  {
    if b == [] {
      assert a + b == a;
    } else {
      var c := b[..|b| - 1];
      ClosedAppend(a, c);
      SameBelow(a + b, a + c, |a| + |c|);
    }
  }

  lemma {:induction false} SameScan(toks: seq<Token>, n: nat)
    requires n <= |toks| && LastOpen(toks, n) != -1 && IsContainer(toks[LastOpen(toks, n)].kind)
    ensures LastOpenContainer(toks, n) == LastOpen(toks, n)
  {
    if !Open(toks[n - 1]) {
      SameScan(toks, n - 1);
    }
  }

  /** The tokens after container `k`, which has got `n` more children, is closed at `end`. */
  function Close(toks: seq<Token>, k: nat, n: nat, end: nat): (r: seq<Token>)
    requires k < |toks|
    ensures |r| == |toks|
  {
    toks[k := toks[k].(size := toks[k].size + n, end := end)]
  }

  /** The state inside container `k` of kind `kind`. */
  ghost predicate Inside(s: State, k: nat, kind: Kind) {
    && Wf(s) && IsContainer(kind) && k < |s.toks| && s.toks[k].kind == kind
    && LastOpen(s.toks, |s.toks|) == k
  }

  function CloseChar(kind: Kind): (c: char) {
    if kind == Array then ']' else '}'
  }

  lemma ReadClose(js: string, cap: nat, s: State, k: nat, kind: Kind)
    requires Inside(s, k, kind) && At(js, s.pos, [CloseChar(kind)])
    ensures Run(js, cap, s) ==
            Run(js, cap, State(s.pos + 1, LastOpen(s.toks, k), Close(s.toks, k, 0, s.pos + 1)))
  {
  }

  lemma ReadColon(js: string, cap: nat, s: State)
    requires Wf(s) && At(js, s.pos, ":")
    ensures Run(js, cap, s) == Run(js, cap, s.(pos := s.pos + 1, super := |s.toks| - 1))
  {
  }

  /** A comma brings the superior token back to the enclosing container. */
  lemma ReadComma(js: string, cap: nat, s: State, k: nat, kind: Kind)
    requires Inside(s, k, kind) && At(js, s.pos, ",")
    requires s.super == k || (s.super != -1 && s.toks[s.super].kind == Str)
    ensures Run(js, cap, s) == Run(js, cap, s.(pos := s.pos + 1, super := k))
  {
    hide At, Run;
    RunTurn(js, cap, s);
    AtChar(js, s.pos, ",", 0);
    SameScan(s.toks, |s.toks|);
  }

  lemma ReadPrim(js: string, cap: nat, s: State, t: string)
    requires Wf(s) && ValidPrim(t) && At(js, s.pos, t) && Follows(js, s.pos + |t|) && |s.toks| < cap
    ensures Run(js, cap, s) ==
            Run(js, cap, State(s.pos + |t|, s.super, Bump(s.toks, s.super) + [Token(Primitive, s.pos, s.pos + |t|, 0)]))
  {
    hide At, Run, ScanPrimitive, Bump;
    RunTurn(js, cap, s);
    AtChar(js, s.pos, t, 0);
    PrimScans(js, s.pos, t);
  }

  /** Counting a child into a token and appending closed tokens keeps us inside `k`. */
  lemma {:induction false} StillInside(s: State, k: nat, kind: Kind, super: nat, more: seq<Token>, pos: nat)
    requires Inside(s, k, kind) && super < |s.toks|
    requires forall i :: 0 <= i < |more| ==> !Open(more[i])
    ensures Inside(State(pos, super, Bump(s.toks, super) + more), k, kind)
    ensures LastOpen(Bump(s.toks, super) + more, k) == LastOpen(s.toks, k)
  {
    ClosedAppend(Bump(s.toks, super), more);
    SameBelow(Bump(s.toks, super), s.toks, |s.toks|);
    SameBelow(Bump(s.toks, super) + more, s.toks, k);
  }

  // ---------------------------------------------------------------- reading a value

  predicate Scalar(v: Value) {
    v.Prim? || v.Text?
  }

  /** The state after `v` has been read: its tokens are appended, its superior token has one
      more child, and after a container the superior token is the enclosing container. */
  function After(s: State, v: Value): (t: State)
    requires Wf(s)
  {
    State(s.pos + |Print(v)|,
          if Scalar(v) then s.super else LastOpen(s.toks, |s.toks|),
          Bump(s.toks, s.super) + Tokens(v, s.pos))
  }

  lemma AfterWf(s: State, v: Value)
    requires Wf(s)
    ensures Wf(After(s, v))
  {
  }

  ghost predicate Follows(js: string, p: nat) {
    !More(js, p) || EndsPrimitive(js[p])
  }

  lemma {:induction false} ReadValue(js: string, cap: nat, s: State, v: Value)
    requires Wf(s) && Valid(v) && At(js, s.pos, Print(v)) && Follows(js, s.pos + |Print(v)|)
    requires |s.toks| + Nodes(v) <= cap
    ensures Wf(After(s, v)) && Run(js, cap, s) == Run(js, cap, After(s, v))
    decreases v, 0
  {
    hide Run, At, LastOpen, Bump, Close, ElemsText, MembersText, ElemTokens, MemberTokens, BodyText;
    AfterWf(s, v);
    match v
    case Prim(t) => ReadPrim(js, cap, s, t);
    case Text(b) => ReadString(js, cap, s, b);
    case Arr(pad, es) =>
      AtSplit(js, s.pos, "[", pad + ElemsText(es));
      EnterContainer(js, cap, s, Array, pad, ElemsText(es));
      var t := Entered(s, Array, pad);
      ReadElems(js, cap, t, es, |s.toks|);
      LeaveContainer(s, Array, pad, ElemCount(es), ElemTokens(es, t.pos), s.pos + |Print(v)|);
    case Obj(pad, ms) =>
      AtSplit(js, s.pos, "{", pad + MembersText(ms));
      EnterContainer(js, cap, s, Object, pad, MembersText(ms));
      var t := Entered(s, Object, pad);
      ReadMembers(js, cap, t, ms, |s.toks|);
      LeaveContainer(s, Object, pad, MemberCount(ms), MemberTokens(ms, t.pos), s.pos + |Print(v)|);
  }

  /** A value with the whitespace behind it, inside container `k`. */
  lemma {:induction false} ReadItem(js: string, cap: nat, s: State, v: Value, after: string, tail: string, k: nat, kind: Kind)
      returns (t: State)
    requires Inside(s, k, kind) && s.super != -1 && Valid(v) && Blank(after) && |s.toks| + Nodes(v) <= cap
    requires tail != [] && EndsPrimitive(tail[0]) && At(js, s.pos, Print(v) + (after + tail))
    ensures t == State(s.pos + |Print(v)| + |after|, if Scalar(v) then s.super else k,
                       Bump(s.toks, s.super) + Tokens(v, s.pos))
    ensures Inside(t, k, kind) && LastOpen(t.toks, k) == LastOpen(s.toks, k) && |Tokens(v, s.pos)| == Nodes(v)
    ensures |t.toks| == |s.toks| + Nodes(v) && t.toks[s.super].kind == s.toks[s.super].kind
    ensures Run(js, cap, s) == Run(js, cap, t) && At(js, t.pos, tail)
    decreases v, 1
  {
    hide Run, At, LastOpen;
    AtSplit(js, s.pos, Print(v), after + tail);
    FollowsText(js, s.pos + |Print(v)|, after, tail);
    ReadValue(js, cap, s, v);
    TokenFacts(v, s.pos);
    t := After(s, v);
    StillInside(s, k, kind, s.super, Tokens(v, s.pos), t.pos);
    AtSplit(js, t.pos, after, tail);
    SkipBlank(js, cap, t, after);
    t := t.(pos := t.pos + |after|);
  }

  function Entered(s: State, kind: Kind, pad: string): (t: State)
    requires Wf(s)
  {
    State(s.pos + 1 + |pad|, |s.toks|, Bump(s.toks, s.super) + [Token(kind, s.pos, -1, 0)])
  }

  lemma {:induction false} EnterContainer(js: string, cap: nat, s: State, kind: Kind, pad: string, rest: string)
    requires Wf(s) && IsContainer(kind) && |s.toks| < cap && Blank(pad)
    requires At(js, s.pos, if kind == Array then "[" else "{") && At(js, s.pos + 1, pad + rest)
    ensures Inside(Entered(s, kind, pad), |s.toks|, kind)
    ensures Run(js, cap, s) == Run(js, cap, Entered(s, kind, pad))
    ensures At(js, Entered(s, kind, pad).pos, rest)
  {
    hide At, Run;
    RunTurn(js, cap, s);
    AtChar(js, s.pos, if kind == Array then "[" else "{", 0);
    AtSplit(js, s.pos + 1, pad, rest);
    SkipBlank(js, cap, Entered(s, kind, ""), pad);
  }

  lemma LeaveContainer(s: State, kind: Kind, pad: string, n: nat, more: seq<Token>, end: nat)
    requires Wf(s)
    ensures var t := Entered(s, kind, pad);
            && LastOpen(t.toks, |s.toks|) == LastOpen(s.toks, |s.toks|)
            && Close(t.toks, |s.toks|, n, end) + more == Bump(s.toks, s.super) + ([Token(kind, s.pos, end, n)] + more)
  {
    SameBelow(Entered(s, kind, pad).toks, s.toks, |s.toks|);
  }

  /** Elements and closing bracket of array `k`. */
  lemma {:induction false} ReadElems(js: string, cap: nat, s: State, e: Elems, k: nat)
    requires Inside(s, k, Array) && s.super == k && ValidElems(e)
    requires At(js, s.pos, ElemsText(e)) && |s.toks| + ElemNodes(e) <= cap
    ensures var end := s.pos + |ElemsText(e)|;
            Run(js, cap, s) ==
            Run(js, cap, State(end, LastOpen(s.toks, k), Close(s.toks, k, ElemCount(e), end) + ElemTokens(e, s.pos)))
    decreases e
  {
    hide Run, At, LastOpen, Bump, Close, Print, Tokens;
    if e.NoElems? {
      ReadClose(js, cap, s, k, Array);
      assert Close(s.toks, k, 0, s.pos + 1) + [] == Close(s.toks, k, 0, s.pos + 1);
    } else {
      var tail := if e.rest.NoElems? then "]" else "," + ElemsText(e.rest);
      AtSplit(js, s.pos, e.before, Print(e.v) + (e.after + tail));
      SkipBlank(js, cap, s, e.before);
      var s1 := s.(pos := s.pos + |e.before|);
      var t := ReadItem(js, cap, s1, e.v, e.after, tail, k, Array);
      if e.rest.NoElems? {
        ReadClose(js, cap, t, k, Array);
        assert Close(t.toks, k, 0, t.pos + 1) + [] == Close(t.toks, k, 0, t.pos + 1);
      } else {
        AtSplit(js, t.pos, ",", ElemsText(e.rest));
        ReadComma(js, cap, t, k, Array);
        ReadElems(js, cap, t.(pos := t.pos + 1), e.rest, k);
      }
      CloseMore(s.toks, k, Tokens(e.v, s1.pos), ElemTokens(e.rest, t.pos + 1), ElemCount(e.rest), s.pos + |ElemsText(e)|);
    }
  }

  lemma FollowsText(js: string, p: nat, blank: string, tail: string)
    requires Blank(blank) && tail != [] && EndsPrimitive(tail[0]) && At(js, p, blank + tail)
    ensures Follows(js, p)
  {
  }

  lemma CloseMore(toks: seq<Token>, k: nat, a: seq<Token>, b: seq<Token>, n: nat, end: nat)
    requires k < |toks|
    ensures Close(Bump(toks, k) + a, k, n, end) + b == Close(toks, k, n + 1, end) + (a + b)
  {
  }

  /** Members and closing brace of object `k`. */
  lemma {:induction false} ReadMembers(js: string, cap: nat, s: State, m: Members, k: nat)
    requires Inside(s, k, Object) && s.super == k && ValidMembers(m)
    requires At(js, s.pos, MembersText(m)) && |s.toks| + MemberNodes(m) <= cap
    ensures var end := s.pos + |MembersText(m)|;
            Run(js, cap, s) ==
            Run(js, cap, State(end, LastOpen(s.toks, k), Close(s.toks, k, MemberCount(m), end) + MemberTokens(m, s.pos)))
    decreases m
  {
    hide Run, At, LastOpen, Bump, Close, Print, Quoted, Tokens, BodyText, CommaSuper;
    if m.NoMembers? {
      ReadClose(js, cap, s, k, Object);
      assert Close(s.toks, k, 0, s.pos + 1) + [] == Close(s.toks, k, 0, s.pos + 1);
    } else {
      var tail := if m.rest.NoMembers? then "}" else "," + MembersText(m.rest);
      var s1 := ReadKey(js, cap, s, m, k, Print(m.v) + (m.after + tail));
      var t := ReadItem(js, cap, s1, m.v, m.after, tail, k, Object);
      if m.rest.NoMembers? {
        ReadClose(js, cap, t, k, Object);
        assert Close(t.toks, k, 0, t.pos + 1) + [] == Close(t.toks, k, 0, t.pos + 1);
      } else {
        AtSplit(js, t.pos, ",", MembersText(m.rest));
        ReadComma(js, cap, t, k, Object);
        ReadMembers(js, cap, t.(pos := t.pos + 1, super := k), m.rest, k);
      }
      MemberCloses(s.toks, k, KeyToken(m, s.pos), Tokens(m.v, s1.pos), MemberTokens(m.rest, t.pos + 1),
                   MemberCount(m.rest), s.pos + |MembersText(m)|);
    }
  }

  lemma MemberCloses(toks: seq<Token>, k: nat, key: Token, a: seq<Token>, b: seq<Token>, n: nat, end: nat)
    requires k < |toks|
    ensures Close(Bump(Bump(toks, k) + [key], |toks|) + a, k, n, end) + b ==
            Close(toks, k, n + 1, end) + ([key.(size := key.size + 1)] + (a + b))
  {
  }

  /** The token of the key before its value is counted into it. */
  function KeyToken(m: Members, p: nat): (t: Token)
    requires m.Member?
  {
    Token(Str, p + |m.before| + 1, p + |m.before| + 1 + |BodyText(m.key)|, 0)
  }

  /** Up to the first byte of the value of a member: the key is its superior token. */
  lemma ReadKey(js: string, cap: nat, s: State, m: Members, k: nat, rest: string) returns (t: State)
    requires Inside(s, k, Object) && s.super == k && m.Member? && ValidMembers(m) && |s.toks| < cap
    requires At(js, s.pos, m.before + (Quoted(m.key) + (m.afterKey + (":" + (m.beforeValue + rest)))))
    ensures t == State(s.pos + |m.before| + |Quoted(m.key)| + |m.afterKey| + 1 + |m.beforeValue|, |s.toks|,
                       Bump(s.toks, k) + [KeyToken(m, s.pos)])
    ensures Inside(t, k, Object) && LastOpen(t.toks, k) == LastOpen(s.toks, k)
    ensures Run(js, cap, s) == Run(js, cap, t) && At(js, t.pos, rest)
  {
    hide Run, At, LastOpen, Bump, Quoted, BodyText, SpaceChar, ValidPiece, Valid, ValidMembers;
    MemberPads(m);
    var colon := m.afterKey + (":" + (m.beforeValue + rest));
    AtSplit(js, s.pos, m.before, Quoted(m.key) + colon);
    SkipBlank(js, cap, s, m.before);
    var s1 := s.(pos := s.pos + |m.before|);
    AtSplit(js, s1.pos, Quoted(m.key), colon);
    ReadString(js, cap, s1, m.key);
    var key := KeyToken(m, s.pos);
    var s2 := State(s1.pos + |Quoted(m.key)|, k, Bump(s.toks, k) + [key]);
    StillInside(s1, k, Object, k, [key], s2.pos);
    ReadAssign(js, cap, s2, m.afterKey, m.beforeValue, rest);
    t := State(s2.pos + |m.afterKey| + 1 + |m.beforeValue|, |s.toks|, s2.toks);
  }

  lemma {:induction false} MemberPads(m: Members)
    requires m.Member? && ValidMembers(m)
    ensures Blank(m.before) && ValidBody(m.key) && Blank(m.afterKey) && Blank(m.beforeValue)
  {
  }

  /** The colon behind a key, with whitespace around it. */
  lemma ReadAssign(js: string, cap: nat, s: State, a: string, b: string, rest: string)
    requires Wf(s) && Blank(a) && Blank(b) && At(js, s.pos, a + (":" + (b + rest)))
    ensures var t := State(s.pos + |a| + 1 + |b|, |s.toks| - 1, s.toks);
            Run(js, cap, s) == Run(js, cap, t) && At(js, t.pos, rest)
  {
    hide Run, At, SpaceChar;
    AtSplit(js, s.pos, a, ":" + (b + rest));
    SkipBlank(js, cap, s, a);
    var s1 := s.(pos := s.pos + |a|);
    AtSplit(js, s1.pos, ":", b + rest);
    ReadColon(js, cap, s1);
    var s2 := s1.(pos := s1.pos + 1, super := |s.toks| - 1);
    AtSplit(js, s2.pos, b, rest);
    SkipBlank(js, cap, s2, b);
  }

  // ---------------------------------------------------------------- whole documents

  /** For every JSON value in every serialization, with whitespace around it and anything
      behind a terminating NUL, `jsmn_parse` with enough tokens returns the number of
      values and keys and leaves exactly the preorder of the value in the token array. */
  lemma {:induction false} ParsePrinted(before: string, v: Value, after: string, junk: string, cap: nat)
    requires Valid(v) && Blank(before) && Blank(after) && Nodes(v) <= cap
    requires junk == [] || junk[0] == '\0'
    ensures var js := before + (Print(v) + (after + junk));
            && Run(js, cap, Init).code == Nodes(v)
            && Run(js, cap, Init).s.toks == Tokens(v, |before|)
  {
    hide Run, At, Print, Tokens, LastOpen, Nodes, Valid, SpaceChar, Follows;
    var js := before + (Print(v) + (after + junk));
    AtStart(js);
    AtSplit(js, 0, before, Print(v) + (after + junk));
    SkipBlank(js, cap, Init, before);
    var s1 := Init.(pos := |before|);
    AtSplit(js, s1.pos, Print(v), after + junk);
    FollowsEnd(js, s1.pos + |Print(v)|, after, junk);
    ReadValue(js, cap, s1, v);
    TokenFacts(v, s1.pos);
    var s2 := After(s1, v);
    assert s2.toks == Tokens(v, |before|);
    AtSplit(js, s2.pos, after, junk);
    SkipBlank(js, cap, s2, after);
    ReadEnd(js, cap, s2.(pos := s2.pos + |after|), junk);
  }

  lemma FollowsEnd(js: string, p: nat, after: string, junk: string)
    requires Blank(after) && At(js, p, after + junk) && p + |after + junk| == |js| && (junk == [] || junk[0] == '\0')
    ensures Follows(js, p)
  {
  }

  lemma {:induction false} ReadEnd(js: string, cap: nat, s: State, junk: string)
    requires Wf(s) && At(js, s.pos, junk) && s.pos + |junk| == |js| && (junk == [] || junk[0] == '\0')
    requires LastOpen(s.toks, |s.toks|) == -1
    ensures Run(js, cap, s) == Outcome(|s.toks|, s)
  {
  }

  /** With fewer tokens than values and keys the call reports NOMEM, never anything else. */
  lemma {:induction false} TooFewTokens(before: string, v: Value, after: string, junk: string, cap: nat)
    requires Valid(v) && Blank(before) && Blank(after) && cap < Nodes(v)
    requires junk == [] || junk[0] == '\0'
    ensures Run(before + (Print(v) + (after + junk)), cap, Init).code == NOMEM
  {
    hide Run, Print, Nodes, Valid;
    var js := before + (Print(v) + (after + junk));
    ParsePrinted(before, v, after, junk, Nodes(v));
    TokensFit(js, cap, Init);
    if Run(js, cap, Init).code != NOMEM {
      NoMemNeedsRoom(js, cap, Nodes(v), Init);
    }
  }
}
