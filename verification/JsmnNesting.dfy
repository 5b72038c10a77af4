/** When `jsmn_parse` succeeds, said without a stack: exactly if every lexeme is well formed
    and the brackets outside strings and primitives are those of a forest. */
module JsmnNesting {
  import opened Jsmn
  import opened JsmnProofs
  import opened Options
  import JsonDocs

  // ---------------------------------------------------------------- bracket skeletons

  predicate IsBracket(c: char) {
    c == '{' || c == '[' || c == '}' || c == ']'
  }

  /** Where the lexeme at `p` ends, or None if it is malformed. */
  function LexNext(js: string, p: nat): (r: Option<nat>)
    requires More(js, p)
    ensures r.Some? ==> p < r.value <= |js|
  {
    var c := js[p];
    if IsBracket(c) || JsonDocs.SpaceChar(c) || c == ':' || c == ',' then Some(p + 1)
    else if c == '\"' then
      var l := ScanString(js, p + 1);
      if l.Bad? then None else Some(l.pos + 1)
    else
      var l := ScanPrimitive(js, p);
      if l.Bad? then None else PrimitiveAdvances(js, p); Some(l.pos)
  }

  /** The brackets that the main loop sees from `p` on, or None if a lexeme is malformed. */
  function Brackets(js: string, p: nat): (r: Option<string>)
    ensures r.Some? ==> BracketsOnly(r.value)
    decreases |js| - p
  {
    if !More(js, p) then Some("")
    else
      var q := LexNext(js, p);
      if q.None? then None
      else
        var r := Brackets(js, q.value);
        if r.None? || !IsBracket(js[p]) then r else Some([js[p]] + r.value)
  }

  predicate BracketsOnly(b: string) {
    forall i :: 0 <= i < |b| ==> IsBracket(b[i])
  }

  /** Well-nested brackets: nothing, or a container with its contents and what follows it. */
  datatype Forest = Empty | Tree(isObject: bool, inner: Forest, rest: Forest)

  function OpenChar(isObject: bool): (c: char) {
    if isObject then '{' else '['
  }

  function ShutChar(isObject: bool): (c: char) {
    if isObject then '}' else ']'
  }

  function Skeleton(f: Forest): (s: string) {
    match f
    case Empty => ""
    case Tree(o, inner, rest) => [OpenChar(o)] + (Skeleton(inner) + ([ShutChar(o)] + Skeleton(rest)))
  }

  function KindOf(isObject: bool): (k: Kind) {
    if isObject then Object else Array
  }

  // ---------------------------------------------------------------- the stack on skeletons

  /** The brackets `b` close everything on the stack and themselves. */
  predicate Closes(b: string, stack: seq<Kind>) {
    if b == [] then stack == []
    else if b[0] == '{' then Closes(b[1..], stack + [Object])
    else if b[0] == '[' then Closes(b[1..], stack + [Array])
    else
      && stack != [] && stack[|stack| - 1] == (if b[0] == '}' then Object else Array)
      && Closes(b[1..], stack[..|stack| - 1])
  }

  /** One turn of the stack tokenizer: it fails on a bad lexeme or a bracket that does not
      match, and otherwise goes on behind the lexeme. */
  lemma StackStep(js: string, p: nat, stack: seq<Kind>, n: nat) returns (next: seq<Kind>, m: nat)
    requires More(js, p)
    ensures LexNext(js, p).None? ==> RunStack(js, p, stack, n) < 0
    ensures LexNext(js, p).Some? && Accepted(js[p], stack) ==>
              next == After(js[p], stack) && RunStack(js, p, stack, n) == RunStack(js, LexNext(js, p).value, next, m)
    ensures LexNext(js, p).Some? && !Accepted(js[p], stack) ==> RunStack(js, p, stack, n) < 0
  {
    hide ScanString, ScanPrimitive;
    var c := js[p];
    next := if Accepted(c, stack) then After(c, stack) else stack;
    m := n + if c == '{' || c == '[' || c == '\"' || !EndsPrimitive(c) then 1 else 0;
  }

  predicate Accepted(c: char, stack: seq<Kind>) {
    c == '}' || c == ']' ==> stack != [] && stack[|stack| - 1] == (if c == '}' then Object else Array)
  }

  function After(c: char, stack: seq<Kind>): (r: seq<Kind>)
    requires Accepted(c, stack)
  {
    if c == '{' then stack + [Object]
    else if c == '[' then stack + [Array]
    else if c == '}' || c == ']' then stack[..|stack| - 1]
    else stack
  }

  lemma {:induction false} ClosesTurn(c: char, b: string, stack: seq<Kind>)
    requires IsBracket(c)
    ensures Closes([c] + b, stack) <==> Accepted(c, stack) && Closes(b, After(c, stack))
  {
  }

  /** The stack tokenizer only looks at lexemes and brackets. */
  lemma {:induction false} StackSeesBrackets(js: string, p: nat, stack: seq<Kind>, n: nat)
    ensures RunStack(js, p, stack, n) >= 0 <==> Brackets(js, p).Some? && Closes(Brackets(js, p).value, stack)
    decreases |js| - p
  {
    if More(js, p) {
      hide RunStack, LexNext, Closes;
      var next, m := StackStep(js, p, stack, n);
      if LexNext(js, p).Some? {
        var q := LexNext(js, p).value;
        if Accepted(js[p], stack) {
          StackSeesBrackets(js, q, next, m);
        }
        if IsBracket(js[p]) && Brackets(js, q).Some? {
          ClosesTurn(js[p], Brackets(js, q).value, stack);
        }
      }
    }
  }

  /** A forest leaves the stack as it was. */
  lemma {:induction false} ForestCloses(f: Forest, more: string, stack: seq<Kind>)
    ensures Closes(Skeleton(f) + more, stack) <==> Closes(more, stack)
    decreases f
  {
    if f == Empty {
      assert Skeleton(f) + more == more;
    } else {
      var s := stack + [KindOf(f.isObject)];
      var tail := [ShutChar(f.isObject)] + (Skeleton(f.rest) + more);
      assert (Skeleton(f) + more)[0] == OpenChar(f.isObject);
      assert (Skeleton(f) + more)[1..] == Skeleton(f.inner) + tail;
      ForestCloses(f.inner, tail, s);
      assert tail[0] == ShutChar(f.isObject) && tail[1..] == Skeleton(f.rest) + more && s[..|s| - 1] == stack;
      ForestCloses(f.rest, more, stack);
    }
  }

  /** Brackets that close a stack: a forest, the top's bracket, a forest, the next one's, ... */
  function Text(fs: seq<Forest>, stack: seq<Kind>): (s: string)
    requires |fs| == |stack| + 1 && forall i :: 0 <= i < |stack| ==> IsContainer(stack[i])
    decreases |stack|
  {
    if stack == [] then Skeleton(fs[0])
    else Skeleton(fs[0]) + ([ShutChar(stack[|stack| - 1] == Object)] + Text(fs[1..], stack[..|stack| - 1]))
  }

  lemma {:induction false} FindForests(b: string, stack: seq<Kind>) returns (fs: seq<Forest>)
    requires Closes(b, stack) && BracketsOnly(b) && forall i :: 0 <= i < |stack| ==> IsContainer(stack[i])
    ensures |fs| == |stack| + 1 && Text(fs, stack) == b
    decreases |b|
  {
    if b == [] {
      fs := [Empty];
    } else if b[0] == '{' || b[0] == '[' {
      var o := b[0] == '{';
      var s := stack + [KindOf(o)];
      var gs := FindForests(b[1..], s);
      assert s[..|s| - 1] == stack;
      fs := [Tree(o, gs[0], gs[1])] + gs[2..];
      ShiftForest(o, gs, stack);
      assert b == [b[0]] + b[1..];
    } else {
      var gs := FindForests(b[1..], stack[..|stack| - 1]);
      fs := [Empty] + gs;
      assert fs[1..] == gs && b == [b[0]] + b[1..];
    }
  }

  lemma {:induction false} ShiftForest(o: bool, gs: seq<Forest>, stack: seq<Kind>)
    requires |gs| == |stack| + 2 && forall i :: 0 <= i < |stack| ==> IsContainer(stack[i])
    ensures Text([Tree(o, gs[0], gs[1])] + gs[2..], stack) ==
            [OpenChar(o)] + (Skeleton(gs[0]) + ([ShutChar(o)] + Text(gs[1..], stack)))
  {
    var fs := [Tree(o, gs[0], gs[1])] + gs[2..];
    assert fs[1..] == gs[2..] == gs[1..][1..];
    SkeletonTree(o, gs[0], gs[1]);
    hide Skeleton;
    if stack != [] {
      var rest := [ShutChar(stack[|stack| - 1] == Object)] + Text(gs[2..], stack[..|stack| - 1]);
      assert Text(fs, stack) == Skeleton(fs[0]) + rest;
      assert Text(gs[1..], stack) == Skeleton(gs[1]) + rest;
      Regroup([OpenChar(o)], Skeleton(gs[0]), [ShutChar(o)], Skeleton(gs[1]), rest);
    }
  }

  lemma {:induction false} SkeletonTree(o: bool, inner: Forest, rest: Forest)
    ensures Skeleton(Tree(o, inner, rest)) == [OpenChar(o)] + (Skeleton(inner) + ([ShutChar(o)] + Skeleton(rest)))
  {
  }

  lemma Regroup(a: string, b: string, c: string, d: string, e: string)
    ensures (a + (b + (c + d))) + e == a + (b + (c + (d + e)))
  {
  }

  /** With enough tokens, `jsmn_parse` succeeds exactly if all lexemes are well formed and the
      brackets match by type and all close. */
  lemma {:induction false} SucceedsIffNested(js: string, cap: nat)
    requires |js| <= cap
    ensures Run(js, cap, Init).code >= 0 <==>
            Brackets(js, 0).Some? && exists f: Forest :: Skeleton(f) == Brackets(js, 0).value
  {
    hide Run, RunStack, Brackets, Skeleton;
    BracketsMatch(js, cap);
    StackSeesBrackets(js, 0, [], 0);
    if Brackets(js, 0).Some? {
      var b := Brackets(js, 0).value;
      if Closes(b, []) {
        var fs := FindForests(b, []);
        assert Skeleton(fs[0]) == b;
      }
      forall f: Forest | Skeleton(f) == b ensures Closes(b, []) {
        ForestCloses(f, "", []);
        assert Skeleton(f) + "" == b;
      }
    }
  }

  // ---------------------------------------------------------------- counting

  /** The number of opening brackets, strings and primitives from `p` on. */
  function Starts(js: string, p: nat): (r: Option<nat>)
    decreases |js| - p
  {
    if !More(js, p) then Some(0)
    else
      var q := LexNext(js, p);
      if q.None? then None
      else
        var r := Starts(js, q.value);
        if r.None? || JsonDocs.SpaceChar(js[p]) || js[p] in {'}', ']', ':', ','} then r else Some(r.value + 1)
  }

  /** A colon is read, outside strings and primitives. */
  predicate ReadsColon(js: string, p: nat)
    decreases |js| - p
  {
    More(js, p) && (js[p] == ':' || (LexNext(js, p).Some? && ReadsColon(js, LexNext(js, p).value)))
  }

  /** Counting fails exactly if a lexeme is malformed, whatever the brackets, and otherwise
      returns the number of lexemes that would fill a token. */
  lemma {:induction false} CountsLexemes(js: string, next: nat, c: CountState)
    ensures var n := RunCount(js, next, c).0;
            if Starts(js, c.pos).None? then n < 0 else n == c.count + Starts(js, c.pos).value
    ensures var t := RunCount(js, next, c).1;
            && t.super == (if ReadsColon(js, c.pos) then next - 1 else c.super)
            && (More(js, t.pos) <==> Starts(js, c.pos).None?) && (More(js, t.pos) ==> LexNext(js, t.pos).None?)
    decreases |js| - c.pos
  {
    hide ScanString, ScanPrimitive, RunCount;
    CountTurn(js, next, c);
    if More(js, c.pos) {
      if CountStep(js, next, c).Go? {
        CountsLexemes(js, next, CountStep(js, next, c).s);
      }
    }
  }
}
