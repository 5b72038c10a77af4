/** The recursive `dump` of the example server: it walks the flat token array as a tree,
    trusting the `size` fields.  Printing is left out; what matters is how far it gets. */
module JsonDump {
  import opened Jsmn
  import opened JsonDocs
  import opened Texts

  /** How many tokens a walk consumed, or that it looked outside the token array. */
  datatype Walk = Consumed(n: nat) | Wild

  const WORD := 0x1_0000_0000_0000_0000

  /** `count - j` as a `size_t`: it wraps around once more is used up than there was. */
  function Rest(count: nat, j: nat): (r: nat)
    ensures r < WORD && (j <= count < WORD ==> r == count - j)
  {
    (count - j) % WORD
  }

  /** `dump(js, t, count, indent)` on the array `toks`. */
  function Dump(toks: seq<Token>, t: nat, count: nat): (r: Walk)
    decreases |toks| - t, 0, 0
  {
    if count == 0 then Consumed(0)
    else if t >= |toks| then Wild
    else
      match toks[t].kind
      case Primitive => Consumed(1)
      case Str => Consumed(1)
      case Object => Plus1(Children(toks, t, count, 2 * toks[t].size, 0))
      case Array => Plus1(Children(toks, t, count, toks[t].size, 0))
      case Undefined => Consumed(0)
  }

  function Plus1(w: Walk): (r: Walk) {
    if w.Wild? then w else Consumed(w.n + 1)
  }

  /** `n` more calls for the children of `t`, the first `j` tokens behind `t` being used up. */
  function Children(toks: seq<Token>, t: nat, count: nat, n: int, j: nat): (r: Walk)
    requires t < |toks|
    decreases |toks| - t - 1, 1, n
  {
    if n <= 0 then Consumed(j)
    else
      var d := Dump(toks, t + 1 + j, Rest(count, j));
      if d.Wild? then d else Children(toks, t, count, n - 1, j + d.n)
  }

  /** Started at the first token of any value, the walk consumes exactly its subtree. */
  lemma {:induction false} DumpValue(toks: seq<Token>, t: nat, count: nat, v: Value, p: nat)
    requires At(toks, t, Tokens(v, p)) && Nodes(v) <= count < WORD
    ensures Dump(toks, t, count) == Consumed(Nodes(v))
    decreases v
  {
    hide At, Print, BodyText;
    AtChar(toks, t, Tokens(v, p), 0);
    match v
    case Arr(pad, es) =>
      AtSplit(toks, t, [Tokens(v, p)[0]], ElemTokens(es, p + 1 + |pad|));
      DumpElems(toks, t, count, es, p + 1 + |pad|, 0);
    case Obj(pad, ms) =>
      AtSplit(toks, t, [Tokens(v, p)[0]], MemberTokens(ms, p + 1 + |pad|));
      DumpMembers(toks, t, count, ms, p + 1 + |pad|, 0);
    case _ =>
  }

  lemma {:induction false} DumpElems(toks: seq<Token>, t: nat, count: nat, e: Elems, p: nat, j: nat)
    requires t < |toks| && At(toks, t + 1 + j, ElemTokens(e, p)) && j + ElemNodes(e) <= count < WORD
    ensures Children(toks, t, count, ElemCount(e), j) == Consumed(j + ElemNodes(e))
    decreases e
  {
    hide At, Print, Dump, Tokens;
    if e.Elem? {
      var q := p + |e.before|;
      var r := q + |Print(e.v)| + |e.after| + 1;
      TokenFacts(e.v, q);
      AtSplit(toks, t + 1 + j, Tokens(e.v, q), ElemTokens(e.rest, r));
      DumpValue(toks, t + 1 + j, count - j, e.v, q);
      DumpElems(toks, t, count, e.rest, r, j + Nodes(e.v));
    }
  }

  lemma {:induction false} DumpMembers(toks: seq<Token>, t: nat, count: nat, m: Members, p: nat, j: nat)
    requires t < |toks| && At(toks, t + 1 + j, MemberTokens(m, p)) && j + MemberNodes(m) <= count < WORD
    ensures Children(toks, t, count, 2 * MemberCount(m), j) == Consumed(j + MemberNodes(m))
    decreases m
  {
    hide At, Print, Dump, Tokens, Quoted, BodyText;
    if m.Member? {
      var q := p + |m.before| + |Quoted(m.key)| + |m.afterKey| + 1 + |m.beforeValue|;
      var r := q + |Print(m.v)| + |m.after| + 1;
      var key := MemberTokens(m, p)[0];
      TokenFacts(m.v, q);
      AtSplit(toks, t + 1 + j, [key], Tokens(m.v, q) + MemberTokens(m.rest, r));
      AtChar(toks, t + 1 + j, [key], 0);
      DumpScalar(toks, t + 1 + j, count - j);
      AtSplit(toks, t + 2 + j, Tokens(m.v, q), MemberTokens(m.rest, r));
      DumpValue(toks, t + 2 + j, count - j - 1, m.v, q);
      DumpMembers(toks, t, count, m.rest, r, j + 1 + Nodes(m.v));
    }
  }

  lemma {:induction false} DumpScalar(toks: seq<Token>, t: nat, count: nat)
    requires t < |toks| && toks[t].kind == Str && count > 0
    ensures Dump(toks, t, count) == Consumed(1)
  {
  }

  /** From the root of any parsed document, the walk consumes exactly all its tokens. */
  lemma {:induction false} DumpDocument(before: string, v: Value, after: string, cap: nat)
    requires Valid(v) && Blank(before) && Blank(after) && Nodes(v) <= cap && Nodes(v) < WORD
    ensures var o := Run(before + (Print(v) + (after + "")), cap, Init);
            o.code == |o.s.toks| && Dump(o.s.toks, 0, o.code) == Consumed(o.code)
  {
    hide Run, Print, Tokens, Nodes, Dump, Valid;
    ParsePrinted(before, v, after, "", cap);
    TokenFacts(v, |before|);
    AtStart(Tokens(v, |before|));
    DumpValue(Tokens(v, |before|), 0, Nodes(v), v, |before|);
  }

  /** A count that is too small ends the walk early: of an array of `n` scalars it consumes
      the array and as many elements as the count allows. */
  lemma {:induction false} DumpFlat(toks: seq<Token>, t: nat, count: nat, n: nat)
    requires t + n < |toks| && toks[t].kind == Array && toks[t].size == n && 0 < count < WORD
    requires forall i :: t < i <= t + n ==> toks[i].kind == Str || toks[i].kind == Primitive
    ensures Dump(toks, t, count) == Consumed(1 + if n <= count then n else count)
    ensures Dump(toks, t, 0) == Consumed(0)
  {
    FlatChildren(toks, t, count, n, 0);
  }

  lemma {:induction false} FlatChildren(toks: seq<Token>, t: nat, count: nat, n: nat, j: nat)
    requires t + j + n < |toks| && j <= count < WORD
    requires forall i :: t < i <= t + j + n ==> toks[i].kind == Str || toks[i].kind == Primitive
    ensures Children(toks, t, count, n, j) == Consumed(if j + n <= count then j + n else count)
    decreases n
  {
    if n > 0 {
      var d := Dump(toks, t + 1 + j, Rest(count, j));
      assert d == Consumed(if j < count then 1 else 0);
      FlatChildren(toks, t, count, n - 1, j + d.n);
    }
  }

  /** The C code, with the loops of its two container branches. */
  method DumpWalk(toks: seq<Token>, t: nat, count: nat) returns (r: Walk)
    ensures r == Dump(toks, t, count)
    decreases |toks| - t
  {
    if count == 0 {
      return Consumed(0);
    }
    if t >= |toks| {
      return Wild;
    }
    var j: nat, i := 0, 0;
    match toks[t].kind
    case Primitive => return Consumed(1);
    case Str => return Consumed(1);
    case Undefined => return Consumed(0);
    case Object =>
      while i < toks[t].size
        invariant Children(toks, t, count, 2 * toks[t].size, 0) == Children(toks, t, count, 2 * (toks[t].size - i), j)
      {
        var d := DumpWalk(toks, t + 1 + j, Rest(count, j));
        if d.Wild? { return Wild; }
        j := j + d.n;
        d := DumpWalk(toks, t + 1 + j, Rest(count, j));
        if d.Wild? { return Wild; }
        j := j + d.n;
        i := i + 1;
      }
      return Consumed(j + 1);
    case Array =>
      while i < toks[t].size
        invariant Children(toks, t, count, toks[t].size, 0) == Children(toks, t, count, toks[t].size - i, j)
      {
        var d := DumpWalk(toks, t + 1 + j, Rest(count, j));
        if d.Wild? { return Wild; }
        j := j + d.n;
        i := i + 1;
      }
      return Consumed(j + 1);
  }
}
