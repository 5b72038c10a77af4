/** The C code of the header splitter: it works in place on the receive buffer. */
module HttpBuffer {
  import opened HttpHeaders
  import opened Options
  import opened Texts

  /** There is a terminator at or behind `p`. */
  ghost predicate Terminated(mem: string, p: nat) {
    exists k :: p <= k < |mem| && mem[k] == '\0'
  }

  method StrCspn(a: array<char>, p: nat, delims: set<char>) returns (n: nat)
    requires p <= a.Length
    ensures n == Cspn(a[..], p, delims)
  {
    n := 0;
    while p + n < a.Length && a[p + n] != '\0' && a[p + n] !in delims
      invariant p + n <= a.Length
      invariant Cspn(a[..], p, delims) == n + Cspn(a[..], p + n, delims)
    {
      n := n + 1;
    }
  }

  method StrSpn(a: array<char>, p: nat, accept: set<char>) returns (n: nat)
    requires p <= a.Length
    ensures n == Spn(a[..], p, accept)
  {
    n := 0;
    while p + n < a.Length && a[p + n] != '\0' && a[p + n] in accept
      invariant p + n <= a.Length
      invariant Spn(a[..], p, accept) == n + Spn(a[..], p + n, accept)
    {
      n := n + 1;
    }
  }

  /** Writes `s` over the buffer from `p` on. */
  function Over(mem: string, p: nat, s: string): (r: string)
    requires p + |s| <= |mem|
    ensures |r| == |mem|
  {
    mem[..p] + s + mem[p + |s|..]
  }

  /** `memmove` of `n` bytes to the left. */
  method MoveLeft(a: array<char>, to: nat, from: nat, n: nat)
    requires to < from && from + n <= a.Length
    modifies a
    ensures a[..] == Over(old(a[..]), to, old(a[from..from + n]))
  {
    ghost var was := a[..];
    var i := 0;
    while i < n
      invariant 0 <= i <= n
      invariant forall k :: to <= k < to + i ==> a[k] == was[k + (from - to)]
      invariant forall k :: 0 <= k < a.Length && !(to <= k < to + i) ==> a[k] == was[k]
    {
      a[to + i] := a[from + i];
      i := i + 1;
    }
    MovedLeft(was, a[..], to, from, n);
  }

  lemma MovedLeft(was: string, now: string, to: nat, from: nat, n: nat)
    requires to < from && from + n <= |was| == |now|
    requires forall k :: to <= k < to + n ==> now[k] == was[k + (from - to)]
    requires forall k :: 0 <= k < |was| && !(to <= k < to + n) ==> now[k] == was[k]
    ensures now == Over(was, to, was[from..from + n])
  {
  }

  method Zero(a: array<char>, from: nat, to: nat)
    requires from <= to <= a.Length
    modifies a
    ensures a[..] == Over(old(a[..]), from, Zeros(to - from))
  {
    var p := from;
    while p < to
      invariant from <= p <= to
      invariant forall k :: from <= k < p ==> a[k] == '\0'
      invariant forall k :: 0 <= k < a.Length && !(from <= k < p) ==> a[k] == old(a[k])
    {
      a[p] := '\0';
      p := p + 1;
    }
  }

  /** Words depend only on the bytes from the cursor on. */
  lemma {:induction false} CspnSame(a: string, b: string, p: nat, delims: set<char>)
    requires |a| == |b| && p <= |a| && a[p..] == b[p..]
    ensures Cspn(a, p, delims) == Cspn(b, p, delims)
    decreases |a| - p
  {
    if p < |a| {
      assert a[p] == a[p..][0] && b[p] == b[p..][0];
      assert a[p + 1..] == a[p..][1..] && b[p + 1..] == b[p..][1..];
      CspnSame(a, b, p + 1, delims);
    }
  }

  lemma {:induction false} SpnSame(a: string, b: string, p: nat, accept: set<char>)
    requires |a| == |b| && p <= |a| && a[p..] == b[p..]
    ensures Spn(a, p, accept) == Spn(b, p, accept)
    decreases |a| - p
  {
    if p < |a| {
      assert a[p] == a[p..][0] && b[p] == b[p..][0];
      assert a[p + 1..] == a[p..][1..] && b[p + 1..] == b[p..][1..];
      SpnSame(a, b, p + 1, accept);
    }
  }

  lemma TailsSame(a: string, b: string, e: nat, n: nat)
    requires |a| == |b| && e + n <= |a| && a[e..] == b[e..]
    ensures a[e..e + n] == b[e..e + n] && a[e + n..] == b[e + n..]
  {
  }

  /** Without a quote character a word is just the bytes up to the delimiter. */
  lemma {:induction false} PlainTake(mem: string, p: nat, delims: set<char>, white: set<char>)
    requires p <= |mem|
    ensures var e := p + Cspn(mem, p, delims);
            Take(mem, p, delims, white, '\0') ==
            Word(mem[p..e], if e == |mem| || mem[e] == '\0' then e else e + 1 + Spn(mem, e + 1, white))
  {
  }

  lemma TakeSame(a: string, b: string, p: nat, delims: set<char>, white: set<char>)
    requires |a| == |b| && p <= |a| && a[p..] == b[p..]
    ensures Take(a, p, delims, white, '\0') == Take(b, p, delims, white, '\0')
  {
    hide Cspn, Spn, Take;
    PlainTake(a, p, delims, white);
    PlainTake(b, p, delims, white);
    CspnSame(a, b, p, delims);
    var n := Cspn(a, p, delims);
    TailsSame(a, b, p, n);
    var e := p + n;
    if e < |a| {
      TailsSame(a, b, e, 1);
      assert a[e] == a[e..e + 1][0] && b[e] == b[e..e + 1][0];
      SpnSame(a, b, e + 1, white);
    }
  }

  /** The buffer while a word is being unquoted: `t` stands at `begin`, and nothing before it
      or from `e` on has changed. */
  ghost predicate Shape(now: string, mem: string, begin: nat, e: nat, t: string) {
    && |now| == |mem| && begin + |t| <= e < |mem|
    && now[..begin] == mem[..begin] && now[begin..begin + |t|] == t && now[e..] == mem[e..]
  }

  lemma ShapeFacts(now: string, mem: string, begin: nat, e: nat, t: string)
    requires Shape(now, mem, begin, e, t)
    ensures |now| == |mem| && begin + |t| <= e < |mem| && now[e] == mem[e] && now[e + 1..] == mem[e + 1..]
    ensures t != [] ==> now[begin + |t| - 1] == t[|t| - 1] && Shape(now, mem, begin, e, t[..|t| - 1])
  {
  }

  lemma ShapeStart(mem: string, begin: nat, e: nat)
    requires begin <= e < |mem|
    ensures Shape(mem, mem, begin, e, mem[begin..e])
  {
  }

  /** The quoting loop of `skip_quoted`: words that end in the quote character swallow the
      delimiter; the rest of the word moves to the left. */
  method UnquoteInPlace(a: array<char>, begin: nat, end0: nat, delims: set<char>, quote: char, ghost mem: string)
      returns (wordEnd: nat, endWord: nat, ghost t: string)
    requires begin < end0 < a.Length && a[..] == mem && Terminated(mem, end0)
    modifies a
    ensures (t, endWord) == Unquote(mem, end0, mem[begin..end0], delims, quote)
    ensures wordEnd == begin + |t| && Shape(a[..], mem, begin, endWord, t) && Terminated(mem, endWord)
  {
    hide Cspn, Unquote, Shape, Terminated, Over;
    wordEnd, endWord, t := end0, end0, mem[begin..end0];
    ShapeStart(mem, begin, end0);
    ghost var goal := Unquote(mem, end0, t, delims, quote);
    while a[wordEnd - 1] == quote
      invariant t != [] && wordEnd == begin + |t| && wordEnd <= endWord < a.Length
      invariant Shape(a[..], mem, begin, endWord, t) && Terminated(mem, endWord)
      invariant goal == Unquote(mem, endWord, t, delims, quote)
      decreases a.Length - endWord
    {
      ghost var was := a[..];
      UnquoteTurn(mem, endWord, t, delims, quote);
      ShapeFacts(was, mem, begin, endWord, t);
      if a[endWord] == '\0' {
        wordEnd, t := wordEnd - 1, t[..|t| - 1];
        return;
      }
      var off := SwallowDelimiter(a, begin, wordEnd, endWord, delims, mem, t);
      t := t[..|t| - 1] + mem[endWord..endWord + 1 + off];
      wordEnd, endWord := wordEnd + off, endWord + off + 1;
    }
    UnquoteTurn(mem, endWord, t, delims, quote);
    ShapeFacts(a[..], mem, begin, endWord, t);
  }

  /** The body of that loop: the quote is overwritten by the delimiter and what follows it. */
  method SwallowDelimiter(a: array<char>, begin: nat, wordEnd: nat, endWord: nat, delims: set<char>,
                          ghost mem: string, ghost t: string) returns (off: nat)
    requires t != [] && wordEnd == begin + |t| && Shape(a[..], mem, begin, endWord, t)
    requires wordEnd <= endWord < a.Length == |mem| && Terminated(mem, endWord) && mem[endWord] != '\0'
    modifies a
    ensures off == Cspn(mem, endWord + 1, delims) && endWord + 1 + off < a.Length && Terminated(mem, endWord + 1 + off)
    ensures Shape(a[..], mem, begin, endWord + 1 + off, t[..|t| - 1] + mem[endWord..endWord + 1 + off])
  {
    hide Cspn, Shape, Terminated, Over;
    ghost var was := a[..];
    ShapeFacts(was, mem, begin, endWord, t);
    CspnSame(was, mem, endWord + 1, delims);
    CspnTerminated(mem, endWord, endWord + 1, delims);
    off := StrCspn(a, endWord + 1, delims);
    MoveLeft(a, wordEnd - 1, endWord, off + 1);
    assert was[endWord..endWord + (off + 1)] == was[endWord..endWord + 1 + off];
    MovedWord(was, mem, a[..], begin, endWord, off, t);
  }

  lemma {:induction false} CspnTerminated(mem: string, e: nat, p: nat, delims: set<char>)
    requires Terminated(mem, e) && e < |mem| && (p == e || (p == e + 1 && mem[e] != '\0'))
    ensures p + Cspn(mem, p, delims) < |mem| && Terminated(mem, p + Cspn(mem, p, delims))
  {
  }

  /** The bytes after one `memmove`. */
  lemma MovedWord(was: string, mem: string, now: string, begin: nat, e: nat, off: nat, t: string)
    requires Shape(was, mem, begin, e, t) && t != [] && e + 1 + off < |was|
    requires now == Over(was, begin + |t| - 1, was[e..e + 1 + off])
    ensures Shape(now, mem, begin, e + 1 + off, t[..|t| - 1] + mem[e..e + 1 + off])
  {
    var wordEnd := begin + |t|;
    assert was[e..e + 1 + off] == was[e..][..1 + off] && mem[e..e + 1 + off] == mem[e..][..1 + off];
    assert was[e + 1 + off..] == was[e..][1 + off..] && mem[e + 1 + off..] == mem[e..][1 + off..];
    assert now[begin..wordEnd - 1] == was[begin..wordEnd][..|t| - 1];
    assert now[wordEnd - 1..wordEnd + off] == was[e..e + 1 + off];
    assert now[begin..wordEnd + off] == now[begin..wordEnd - 1] + now[wordEnd - 1..wordEnd + off];
  }

  lemma SpnTerminated(mem: string, e: nat, accept: set<char>)
    requires Terminated(mem, e) && e < |mem| && mem[e] != '\0'
    ensures e + 1 + Spn(mem, e + 1, accept) < |mem| && Terminated(mem, e + 1 + Spn(mem, e + 1, accept))
  {
  }

  ghost predicate Zeroed(now: string, from: nat, to: nat) {
    to <= |now| && forall k :: from <= k < to ==> now[k] == '\0'
  }

  lemma ShapeZeroed(was: string, mem: string, now: string, p: nat, e: nat, t: string)
    requires Shape(was, mem, p, e, t) && now == Over(was, p + |t|, Zeros(e - p - |t|))
    ensures Shape(now, mem, p, e, t) && Zeroed(now, p + |t|, e)
  {
  }

  lemma CutShape(now: string, mem: string, p: nat, e: nat, t: string, next: nat)
    requires Shape(now, mem, p, e, t) && Zeroed(now, p + |t|, e) && e <= next <= |mem|
    ensures Over(now, e, Zeros(next - e)) == Cut(mem, p, Word(t, next))
    ensures next == e ==> now == Cut(mem, p, Word(t, next))
  {
  }

  /** The parts of `Take`, for proofs that keep it hidden. */
  lemma {:induction false} TakeParts(mem: string, p: nat, delims: set<char>, white: set<char>, quote: char, t: string, e: nat)
    requires p <= |mem| && (t, e) == Unquote(mem, p + Cspn(mem, p, delims), mem[p..p + Cspn(mem, p, delims)], delims, quote)
    ensures Take(mem, p, delims, white, quote) ==
            Word(t, if e == |mem| || mem[e] == '\0' then e else e + 1 + Spn(mem, e + 1, white))
  {
  }

  /** The first half of `skip_quoted`: the word is unquoted and the bytes it gave up are zeroed. */
  method CutWord(a: array<char>, p: nat, delims: set<char>, quote: char, ghost mem: string)
      returns (endWord: nat, ghost t: string)
    requires p < a.Length && a[..] == mem && Terminated(mem, p)
    modifies a
    ensures (t, endWord) == Unquote(mem, p + Cspn(mem, p, delims), mem[p..p + Cspn(mem, p, delims)], delims, quote)
    ensures Shape(a[..], mem, p, endWord, t) && Zeroed(a[..], p + |t|, endWord) && Terminated(mem, endWord)
  {
    hide Cspn, Unquote, Shape, Terminated, Over, Zeroed;
    CspnTerminated(mem, p, p, delims);
    var n := StrCspn(a, p, delims);
    endWord, t := p + n, mem[p..p + n];
    if endWord > p {
      var wordEnd;
      wordEnd, endWord, t := UnquoteInPlace(a, p, endWord, delims, quote, mem);
      ghost var was := a[..];
      ShapeFacts(was, mem, p, endWord, t);
      Zero(a, wordEnd, endWord);
      ShapeZeroed(was, mem, a[..], p, endWord, t);
    } else {
      UnquoteDone(mem, endWord, t, delims, quote);
      ShapeStart(mem, p, p);
      NothingZeroed(mem, p);
    }
  }

  /** `skip_quoted`: the word at `p` is cut out of the buffer, quotes removed, and the cursor
      moves behind its delimiter and whitespace. */
  method SkipQuoted(a: array<char>, p: nat, delims: set<char>, white: set<char>, quote: char, ghost mem: string)
      returns (next: nat)
    requires p < a.Length && a[..] == mem && Terminated(mem, p)
    modifies a
    ensures var w := Take(mem, p, delims, white, quote);
            next == w.next && a[..] == Cut(mem, p, w)
    ensures next < a.Length && Terminated(mem, next)
  {
    hide Cspn, Spn, Unquote, Shape, Terminated, Over, Zeroed, Cut, Take;
    ghost var t;
    var endWord;
    endWord, t := CutWord(a, p, delims, quote, mem);
    ghost var now := a[..];
    ShapeFacts(now, mem, p, endWord, t);
    TakeParts(mem, p, delims, white, quote, t, endWord);
    if a[endWord] == '\0' {
      next := endWord;
    } else {
      SpnSame(now, mem, endWord + 1, white);
      SpnTerminated(mem, endWord, white);
      var m := StrSpn(a, endWord + 1, white);
      next := endWord + 1 + m;
      Zero(a, endWord, next);
    }
    CutShape(now, mem, p, endWord, t, next);
  }

  lemma NothingZeroed(now: string, p: nat)
    requires p <= |now|
    ensures Zeroed(now, p, p)
  {
  }

  /** The strings handed out so far stand in the buffer, before the cursor. */
  ghost predicate Stored(now: string, hs: seq<Header>, offs: seq<(nat, nat)>, p: nat) {
    && |offs| == |hs|
    && forall k :: 0 <= k < |hs| ==>
         && CString(now, offs[k].0, hs[k].name) && offs[k].0 + |hs[k].name| <= p
         && CString(now, offs[k].1, hs[k].value) && offs[k].1 + |hs[k].value| <= p
  }

  /** Cutting out a word leaves it as a C string, spoils none before it and nothing behind it. */
  lemma CutKeeps(mem: string, p: nat, delims: set<char>, white: set<char>, off: nat, t: string)
    requires p < |mem| && Terminated(mem, p)
    ensures var w := Take(mem, p, delims, white, '\0');
            var now := Cut(mem, p, w);
            && now[w.next..] == mem[w.next..]
            && (w.next < |mem| ==> CString(now, p, w.text))
            && (CString(mem, off, t) && off + |t| <= p ==> CString(now, off, t))
  {
  }

  lemma StoredStays(mem: string, hs: seq<Header>, offs: seq<(nat, nat)>, p: nat, delims: set<char>, white: set<char>)
    requires p < |mem| && Terminated(mem, p) && Stored(mem, hs, offs, p)
    ensures var w := Take(mem, p, delims, white, '\0'); Stored(Cut(mem, p, w), hs, offs, w.next)
  {
  }

  lemma TailTerminated(a: string, b: string, p: nat)
    requires |a| == |b| && p <= |a| && a[p..] == b[p..] && Terminated(b, p)
    ensures Terminated(a, p)
  {
  }

  lemma StepTails(c: string, b: string, a: string, p: nat, q: nat)
    requires |c| == |b| == |a| && p <= q <= |a| && c[q..] == b[q..] && b[p..] == a[p..] && Terminated(b, q)
    ensures c[q..] == a[q..] && Terminated(c, q) && Terminated(a, q)
  {
  }

  lemma StoredOne(now: string, hs: seq<Header>, offs: seq<(nat, nat)>, h: Header, name: nat, value: nat, next: nat)
    requires Stored(now, hs, offs, next) && CString(now, name, h.name) && name + |h.name| <= next
    requires CString(now, value, h.value) && value + |h.value| <= next
    ensures Stored(now, hs + [h], offs + [(name, value)], next)
    ensures now[name] == '\0' <==> h.name == ""
  {
    if h.name != "" {
      assert now[name + 0] == h.name[0];
    }
  }

  /** One header: its name and value are cut out one after the other. */
  method ParseOne(a: array<char>, p: nat, ghost mem: string, ghost hs: seq<Header>, ghost offs: seq<(nat, nat)>)
      returns (name: nat, value: nat, next: nat)
    requires p < a.Length == |mem| && a[..][p..] == mem[p..] && Terminated(mem, p) && Stored(a[..], hs, offs, p)
    modifies a
    ensures var n := Take(mem, p, {':'}, {' '}, '\0');
            var v := Take(mem, n.next, LINE_END, LINE_END, '\0');
            && name == p && value == n.next && next == v.next
            && Stored(a[..], hs + [Header(n.text, v.text)], offs + [(name, value)], next)
            && (a[..][name] == '\0' <==> n.text == "")
    ensures next < a.Length && a[..][next..] == mem[next..] && Terminated(mem, next)
  {
    hide Take, Cut, CString, Terminated, Stored;
    ghost var m0 := a[..];
    TailTerminated(m0, mem, p);
    TakeSame(m0, mem, p, {':'}, {' '});
    name := p;
    value := SkipQuoted(a, p, {':'}, {' '}, '\0', m0);
    ghost var m1, n := a[..], Take(m0, p, {':'}, {' '}, '\0');
    StoredStays(m0, hs, offs, p, {':'}, {' '});
    CutKeeps(m0, p, {':'}, {' '}, 0, "");
    StepTails(m1, m0, mem, p, value);
    TakeSame(m1, mem, value, LINE_END, LINE_END);
    next := SkipQuoted(a, value, LINE_END, LINE_END, '\0', m1);
    ghost var v := Take(m1, value, LINE_END, LINE_END, '\0');
    StoredStays(m1, hs, offs, value, LINE_END, LINE_END);
    CutKeeps(m1, value, LINE_END, LINE_END, p, n.text);
    StepTails(a[..], m1, mem, value, next);
    StoredOne(a[..], hs, offs, Header(n.text, v.text), name, value, next);
  }

  /** `parse_http_headers`: the offsets of names and values, which are C strings in the buffer
      when it returns, and the cursor. */
  method ParseHttpHeaders(a: array<char>) returns (offs: seq<(nat, nat)>, p: nat)
    requires 0 < a.Length && Terminated(a[..], 0)
    modifies a
    ensures var (hs, end) := ParseHeaders(old(a[..]));
            p == end && p < a.Length && Stored(a[..], hs, offs, p) && a[..][p..] == old(a[..])[p..]
  {
    hide Take, Cut, CString, Terminated, Stored, ScanHeaders, FindBreak;
    ghost var mem := a[..];
    var hdrEnd := FindHeaderBreak(a);
    p := SkipQuoted(a, 0, LINE_END, LINE_END, '\0', mem);
    CutKeeps(mem, 0, LINE_END, LINE_END, 0, "");
    offs := [];
    ghost var hs: seq<Header> := [];
    NothingStored(a[..], p);
    ghost var goal := ScanHeaders(mem, p, hdrEnd, MAX_HEADERS);
    var i := 0;
    assert [] + goal.0 == goal.0;
    while i < MAX_HEADERS
      invariant 0 <= i <= MAX_HEADERS && p < a.Length && a[..][p..] == mem[p..] && Terminated(mem, p)
      invariant Stored(a[..], hs, offs, p)
      invariant var r := ScanHeaders(mem, p, hdrEnd, MAX_HEADERS - i); goal == (hs + r.0, r.1)
    {
      ScanTurn(mem, p, hdrEnd, MAX_HEADERS - i);
      ghost var was := a[..];
      ghost var n := Take(mem, p, {':'}, {' '}, '\0');
      ghost var v := Take(mem, n.next, LINE_END, LINE_END, '\0');
      ghost var r := ScanHeaders(mem, v.next, hdrEnd, MAX_HEADERS - i - 1);
      var name, value;
      name, value, p := ParseOne(a, p, mem, hs, offs);
      if a[name] == '\0' {
        StoredFewer(a[..], hs, Header(n.text, v.text), offs, (name, value), p);
        assert hs + [] == hs;
        return;
      }
      offs := offs + [(name, value)];
      assert hs + ([Header(n.text, v.text)] + r.0) == hs + [Header(n.text, v.text)] + r.0;
      hs := hs + [Header(n.text, v.text)];
      if hdrEnd.None? || p > hdrEnd.value {
        return;
      }
      i := i + 1;
    }
    ScanTurn(mem, p, hdrEnd, 0);
    assert hs + [] == hs;
  }

  lemma NothingStored(now: string, p: nat)
    ensures Stored(now, [], [], p)
  {
  }

  lemma StoredFewer(now: string, hs: seq<Header>, h: Header, offs: seq<(nat, nat)>, o: (nat, nat), p: nat)
    requires Stored(now, hs + [h], offs + [o], p)
    ensures Stored(now, hs, offs, p)
  {
    forall k | 0 <= k < |hs|
      ensures CString(now, offs[k].0, hs[k].name) && offs[k].0 + |hs[k].name| <= p
      ensures CString(now, offs[k].1, hs[k].value) && offs[k].1 + |hs[k].value| <= p
    {
      assert (hs + [h])[k] == hs[k] && (offs + [o])[k] == offs[k];
    }
  }

  method FindHeaderBreak(a: array<char>) returns (r: Option<nat>)
    ensures r == FindBreak(a[..], 0)
  {
    var p := 0;
    while p < a.Length && a[p] != '\0'
      invariant 0 <= p <= a.Length
      invariant FindBreak(a[..], 0) == FindBreak(a[..], p)
    {
      if p + 4 <= a.Length && a[p..p + 4] == "\r\n\r\n" {
        return Some(p);
      }
      p := p + 1;
    }
    return None;
  }
}
