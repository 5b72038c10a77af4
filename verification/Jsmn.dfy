/** The jsmn tokenizer, default build (non-strict, no parent links).

    `Run` describes one call of `jsmn_parse` on values: the part of the token array
    in use is the sequence `toks`, so `toknext` is its length.  The class `Parser`
    is the C code: it works in place on the token array and is proved to compute `Run`
    (or `RunCount` when there is no token array).
    The input is the C buffer `js[0..len]`, one `char` per byte; a NUL byte ends it early. */
module Jsmn {

  datatype Kind = Undefined | Object | Array | Str | Primitive

  datatype Token = Token(kind: Kind, start: int, end: int, size: int)

  const NOMEM := -1
  const INVAL := -2
  const PART := -3

  /** A token whose closing bracket has not been seen. */
  predicate Open(t: Token) {
    t.start != -1 && t.end == -1
  }

  /** There is another byte to read at `p`. */
  predicate More(js: string, p: nat) {
    p < |js| && js[p] != '\0'
  }

  predicate IsSpace(c: char) {
    c == '\t' || c == '\r' || c == '\n' || c == ' '
  }

  predicate EndsPrimitive(c: char) {
    IsSpace(c) || c == ':' || c == ',' || c == ']' || c == '}'
  }

  predicate IsHex(c: char) {
    '0' <= c <= '9' || 'A' <= c <= 'F' || 'a' <= c <= 'f'
  }

  predicate IsSimpleEscape(c: char) {
    c == '\"' || c == '/' || c == '\\' || c == 'b' || c == 'f' || c == 'r' || c == 'n' || c == 't'
  }

  // ---------------------------------------------------------------- lexemes

  /** Where a lexeme ends, or the error code it stops with. */
  datatype Lexeme = End(pos: nat) | Bad(code: int)

  function ScanPrimitive(js: string, p: nat): (r: Lexeme)
    ensures r.End? && p <= |js| ==> p <= r.pos <= |js|
    ensures r.Bad? ==> r.code == INVAL
    decreases |js| - p
  {
    if !More(js, p) || EndsPrimitive(js[p]) then End(p)
    else if js[p] < 32 as char || js[p] >= 127 as char then Bad(INVAL)
    else ScanPrimitive(js, p + 1)
  }

  /** The digits of a \u escape: at most `n` of them, fewer only if the input ends. */
  function ScanHex(js: string, p: nat, n: nat): (r: Lexeme)
    ensures r.End? && p <= |js| ==> p <= r.pos <= |js|
    ensures r.Bad? ==> r.code == INVAL
    decreases n
  {
    if n == 0 || !More(js, p) then End(p)
    else if !IsHex(js[p]) then Bad(INVAL)
    else ScanHex(js, p + 1, n - 1)
  }

  /** From inside a string to its closing quote. */
  function ScanString(js: string, p: nat): (r: Lexeme)
    ensures r.End? ==> p <= r.pos < |js| && js[r.pos] == '\"'
    ensures r.Bad? ==> r.code == INVAL || r.code == PART
    decreases |js| - p
  {
    if !More(js, p) then Bad(PART)
    else if js[p] == '\"' then End(p)
    else if js[p] == '\\' && p + 1 < |js| then
      if IsSimpleEscape(js[p + 1]) then ScanString(js, p + 2)
      else if js[p + 1] == 'u' then
        var h := ScanHex(js, p + 2, 4);
        if h.Bad? then h else ScanString(js, h.pos)
      else Bad(INVAL)
    else ScanString(js, p + 1)
  }

  /** One byte or escape of a string, for proofs that keep `ScanString` hidden. */
  lemma StringTurn(js: string, p: nat)
    ensures !More(js, p) ==> ScanString(js, p) == Bad(PART)
    ensures More(js, p) && js[p] == '\"' ==> ScanString(js, p) == End(p)
    ensures More(js, p) && js[p] == '\\' && p + 1 < |js| ==>
              ScanString(js, p) ==
                if IsSimpleEscape(js[p + 1]) then ScanString(js, p + 2)
                else if js[p + 1] == 'u' then
                  (var h := ScanHex(js, p + 2, 4); if h.Bad? then h else ScanString(js, h.pos))
                else Bad(INVAL)
    ensures More(js, p) && js[p] != '\"' && !(js[p] == '\\' && p + 1 < |js|) ==> ScanString(js, p) == ScanString(js, p + 1)
  {
  }

  // ---------------------------------------------------------------- filling mode

  datatype State = State(pos: nat, super: int, toks: seq<Token>)

  const Init := State(0, -1, [])

  predicate Wf(s: State) {
    -1 <= s.super < |s.toks|
  }

  datatype StepResult = Next(s: State) | Halt(code: int, h: State)

  /** The index of the last open token below `n`, or -1: the backward scan. */
  function LastOpen(toks: seq<Token>, n: nat): (r: int)
    requires n <= |toks|
    ensures -1 <= r < n
    ensures r != -1 ==> Open(toks[r])
    ensures forall i :: r < i < n ==> !Open(toks[i])
  {
    if n == 0 then -1
    else if Open(toks[n - 1]) then n - 1
    else LastOpen(toks, n - 1)
  }

  predicate IsContainer(k: Kind) {
    k == Array || k == Object
  }

  /** The same scan restricted to arrays and objects, as the comma does it. */
  function LastOpenContainer(toks: seq<Token>, n: nat): (r: int)
    requires n <= |toks|
    ensures -1 <= r < n
  {
    if n == 0 then -1
    else if IsContainer(toks[n - 1].kind) && Open(toks[n - 1]) then n - 1
    else LastOpenContainer(toks, n - 1)
  }

  /** One more child for the superior token, if there is one. */
  function Bump(toks: seq<Token>, super: int): (r: seq<Token>)
    requires -1 <= super < |toks|
    ensures |r| == |toks|
  {
    if super == -1 then toks else toks[super := toks[super].(size := toks[super].size + 1)]
  }

  function StepOpen(s: State, cap: nat, k: Kind): (r: StepResult)
    requires Wf(s)
  {
    if |s.toks| >= cap then Halt(NOMEM, s)
    else Next(State(s.pos + 1, |s.toks|, Bump(s.toks, s.super) + [Token(k, s.pos, -1, 0)]))
  }

  function StepClose(s: State, k: Kind): (r: StepResult)
    requires Wf(s)
  {
    var i := LastOpen(s.toks, |s.toks|);
    if i == -1 || s.toks[i].kind != k then Halt(INVAL, s)
    else Next(State(s.pos + 1, LastOpen(s.toks, i), s.toks[i := s.toks[i].(end := s.pos + 1)]))
  }

  /** A string or primitive token [a, b), after which reading goes on at `next`. */
  function StepScalar(s: State, cap: nat, k: Kind, a: nat, b: nat, next: nat): (r: StepResult)
    requires Wf(s)
  {
    if |s.toks| >= cap then Halt(NOMEM, s)
    else Next(State(next, s.super, Bump(s.toks, s.super) + [Token(k, a, b, 0)]))
  }

  function CommaSuper(s: State): (r: int)
    requires Wf(s)
    ensures -1 <= r < |s.toks|
  {
    if s.super == -1 || IsContainer(s.toks[s.super].kind) then s.super
    else
      var i := LastOpenContainer(s.toks, |s.toks|);
      if i == -1 then s.super else i
  }

  /** One turn of the main loop. */
  function Step(js: string, cap: nat, s: State): (r: StepResult)
    requires Wf(s) && More(js, s.pos)
    ensures r.Next? ==> Wf(r.s) && s.pos < r.s.pos <= |js| && |s.toks| <= |r.s.toks|
    ensures r.Halt? ==> r.h == s && r.code < 0
  {
    var c := js[s.pos];
    if c == '{' then StepOpen(s, cap, Object)
    else if c == '[' then StepOpen(s, cap, Array)
    else if c == '}' then StepClose(s, Object)
    else if c == ']' then StepClose(s, Array)
    else if c == '\"' then
      var l := ScanString(js, s.pos + 1);
      if l.Bad? then Halt(l.code, s) else StepScalar(s, cap, Str, s.pos + 1, l.pos, l.pos + 1)
    else if IsSpace(c) then Next(s.(pos := s.pos + 1))
    else if c == ':' then Next(s.(pos := s.pos + 1, super := |s.toks| - 1))
    else if c == ',' then Next(s.(pos := s.pos + 1, super := CommaSuper(s)))
    else
      var l := ScanPrimitive(js, s.pos);
      if l.Bad? then Halt(l.code, s)
      else PrimitiveAdvances(js, s.pos); StepScalar(s, cap, Primitive, s.pos, l.pos, l.pos)
  }

  lemma {:induction false} PrimitiveAdvances(js: string, p: nat)
    requires More(js, p) && !EndsPrimitive(js[p])
    ensures ScanPrimitive(js, p).End? ==> p < ScanPrimitive(js, p).pos <= |js|
  {
  }

  /** What one call returns, and the parser and tokens it leaves. */
  datatype Outcome = Outcome(code: int, s: State)

  function Run(js: string, cap: nat, s: State): (r: Outcome)
    requires Wf(s)
    ensures Wf(r.s)
    ensures r.code == |r.s.toks| || r.code == NOMEM || r.code == INVAL || r.code == PART
    decreases |js| - s.pos
  {
    if !More(js, s.pos) then
      Outcome(if LastOpen(s.toks, |s.toks|) == -1 then |s.toks| else PART, s)
    else
      match Step(js, cap, s)
      case Next(t) => Run(js, cap, t)
      case Halt(code, t) => Outcome(code, t)
  }

  /** The first turn of a run, for proofs that keep `Run` hidden. */
  lemma {:induction false} RunTurn(js: string, cap: nat, s: State)
    requires Wf(s)
    ensures !More(js, s.pos) ==>
              Run(js, cap, s) == Outcome(if LastOpen(s.toks, |s.toks|) == -1 then |s.toks| else PART, s)
    ensures More(js, s.pos) && Step(js, cap, s).Next? ==> Run(js, cap, s) == Run(js, cap, Step(js, cap, s).s)
    ensures More(js, s.pos) && Step(js, cap, s).Halt? ==> Run(js, cap, s) == Outcome(Step(js, cap, s).code, s)
  {
  }

  // ---------------------------------------------------------------- counting mode

  datatype CountState = CountState(pos: nat, super: int, count: nat)

  datatype CountResult = Go(s: CountState) | Stop(code: int)

  /** One turn with `tokens == NULL`; `next` is the parser's unchanged `toknext`. */
  function CountStep(js: string, next: nat, s: CountState): (r: CountResult)
    requires More(js, s.pos)
    ensures r.Go? ==> s.pos < r.s.pos <= |js| && s.count <= r.s.count
    ensures r.Stop? ==> r.code == INVAL || r.code == PART
  {
    var c := js[s.pos];
    if c == '{' || c == '[' then Go(s.(pos := s.pos + 1, count := s.count + 1))
    else if c == '\"' then
      var l := ScanString(js, s.pos + 1);
      if l.Bad? then Stop(l.code) else Go(s.(pos := l.pos + 1, count := s.count + 1))
    else if c == ':' then Go(s.(pos := s.pos + 1, super := next - 1))
    else if IsSpace(c) || c == ',' || c == '}' || c == ']' then Go(s.(pos := s.pos + 1))
    else
      var l := ScanPrimitive(js, s.pos);
      if l.Bad? then Stop(l.code)
      else PrimitiveAdvances(js, s.pos); Go(s.(pos := l.pos, count := s.count + 1))
  }

  function RunCount(js: string, next: nat, s: CountState): (r: (int, CountState))
    ensures r.0 == r.1.count || r.0 == INVAL || r.0 == PART
    ensures s.count <= r.1.count
    decreases |js| - s.pos
  {
    if !More(js, s.pos) then (s.count, s)
    else
      match CountStep(js, next, s)
      case Go(t) => RunCount(js, next, t)
      case Stop(code) => (code, s)
  }

  lemma {:induction false} CountTurn(js: string, next: nat, s: CountState)
    ensures !More(js, s.pos) ==> RunCount(js, next, s) == (s.count, s)
    ensures More(js, s.pos) && CountStep(js, next, s).Go? ==> RunCount(js, next, s) == RunCount(js, next, CountStep(js, next, s).s)
    ensures More(js, s.pos) && CountStep(js, next, s).Stop? ==> RunCount(js, next, s) == (CountStep(js, next, s).code, s)
  {
  }

  // ---------------------------------------------------------------- the C code

  class Parser {
    var pos: nat
    var toknext: nat
    var toksuper: int

    constructor ()
      ensures pos == Init.pos && toknext == |Init.toks| && toksuper == Init.super
    {
      pos, toknext, toksuper := 0, 0, -1;
    }

    predicate Ready(tokens: array<Token>, numTokens: nat)
      reads this
    {
      -1 <= toksuper < toknext && toknext <= numTokens <= tokens.Length
    }

    /** The parser together with the tokens in use, as a value. */
    function View(tokens: array<Token>): (s: State)
      requires toknext <= tokens.Length
      reads this, tokens
    {
      State(pos, toksuper, tokens[..toknext])
    }

    /** `i` is the index of the fresh token, or -1 when the array is full. */
    method AllocToken(tokens: array<Token>, numTokens: nat) returns (i: int)
      requires Ready(tokens, numTokens)
      modifies this`toknext, tokens
      ensures i == -1 <==> old(toknext) >= numTokens
      ensures i == -1 ==> toknext == old(toknext) && tokens[..] == old(tokens[..])
      ensures i != -1 ==> i == old(toknext) && toknext == i + 1 && tokens[..i] == old(tokens[..i])
      ensures i != -1 ==> tokens[i].start == tokens[i].end == -1 && tokens[i].size == 0
      ensures i != -1 ==> tokens[i + 1..] == old(tokens[toknext + 1..])
    {
      if toknext >= numTokens {
        return -1;
      }
      i := toknext;
      toknext := toknext + 1;
      tokens[i] := tokens[i].(start := -1, end := -1, size := 0);
    }

    /** The shared ending of the two lexeme readers: token [a, b) or NOMEM, with `pos` put back. */
    method FillNext(tokens: array<Token>, numTokens: nat, k: Kind, start: nat, a: nat, b: nat) returns (r: int)
      requires Ready(tokens, numTokens)
      modifies this`toknext, this`pos, tokens
      ensures toknext <= numTokens && tokens[toknext..] == old(tokens[..])[toknext..]
      ensures old(toknext) >= numTokens ==> r == NOMEM && pos == start && toknext == old(toknext) && tokens[..] == old(tokens[..])
      ensures old(toknext) < numTokens ==>
                r == 0 && pos == old(pos) && tokens[..toknext] == old(tokens[..toknext]) + [Token(k, a, b, 0)]
    {
      var i := AllocToken(tokens, numTokens);
      if i == -1 {
        pos := start;
        return NOMEM;
      }
      tokens[i] := Token(k, a, b, 0);
      assert tokens[..toknext] == tokens[..i] + [tokens[i]];
      return 0;
    }

    /** Reads a primitive; `pos` is left on its last byte.  In counting mode nothing is stored. */
    method ParsePrimitive(js: string, tokens: array?<Token>, numTokens: nat) returns (r: int)
      requires tokens != null ==> Ready(tokens, numTokens)
      requires More(js, pos) && !EndsPrimitive(js[pos])
      modifies this`toknext, this`pos, tokens
      ensures tokens == null ==> toknext == old(toknext)
      ensures tokens != null ==> toknext <= numTokens && tokens[toknext..] == old(tokens[..])[toknext..]
      ensures var l := ScanPrimitive(js, old(pos));
              if l.Bad? || (tokens != null && old(toknext) >= numTokens) then
                r == (if l.Bad? then l.code else NOMEM) && pos == old(pos) && toknext == old(toknext)
                && (tokens != null ==> tokens[..] == old(tokens[..]))
              else
                r == 0 && pos == l.pos - 1
                && (tokens != null ==> tokens[..toknext] == old(tokens[..toknext]) + [Token(Primitive, old(pos), l.pos, 0)])
    {
      var start := pos;
      while pos < |js| && js[pos] != '\0' && !EndsPrimitive(js[pos])
        invariant start <= pos <= |js|
        invariant ScanPrimitive(js, start) == ScanPrimitive(js, pos)
        invariant toknext == old(toknext)
        invariant tokens != null ==> tokens[..] == old(tokens[..])
        decreases |js| - pos
      {
        if js[pos] < 32 as char || js[pos] >= 127 as char {
          pos := start;
          return INVAL;
        }
        pos := pos + 1;
      }
      PrimitiveAdvances(js, start);
      if tokens == null {
        pos := pos - 1;
        return 0;
      }
      r := FillNext(tokens, numTokens, Primitive, start, start, pos);
      if r == 0 {
        pos := pos - 1;
      }
    }

    /** Skips the digits of a \u escape. */
    method SkipHex(js: string) returns (ok: bool)
      requires pos <= |js|
      modifies this`pos
      ensures ok == ScanHex(js, old(pos), 4).End?
      ensures ok ==> pos == ScanHex(js, old(pos), 4).pos
    {
      var i := 0;
      while i < 4 && pos < |js| && js[pos] != '\0'
        invariant 0 <= i <= 4 && pos <= |js|
        invariant ScanHex(js, old(pos), 4) == ScanHex(js, pos, 4 - i)
      {
        if !IsHex(js[pos]) {
          return false;
        }
        pos := pos + 1;
        i := i + 1;
      }
      return true;
    }

    /** Reads a string; `pos` is left on its closing quote. */
    method ParseString(js: string, tokens: array?<Token>, numTokens: nat) returns (r: int)
      requires tokens != null ==> Ready(tokens, numTokens)
      requires More(js, pos)
      modifies this`toknext, this`pos, tokens
      ensures tokens == null ==> toknext == old(toknext)
      ensures tokens != null ==> toknext <= numTokens && tokens[toknext..] == old(tokens[..])[toknext..]
      ensures var l := ScanString(js, old(pos) + 1);
              if l.Bad? || (tokens != null && old(toknext) >= numTokens) then
                r == (if l.Bad? then l.code else NOMEM) && pos == old(pos) && toknext == old(toknext)
                && (tokens != null ==> tokens[..] == old(tokens[..]))
              else
                r == 0 && pos == l.pos
                && (tokens != null ==> tokens[..toknext] == old(tokens[..toknext]) + [Token(Str, old(pos) + 1, l.pos, 0)])
    {
      hide ScanString, ScanHex;
      var start := pos;
      pos := pos + 1;
      while pos < |js| && js[pos] != '\0'
        invariant start < pos <= |js|
        invariant ScanString(js, start + 1) == ScanString(js, pos)
        invariant toknext == old(toknext)
        invariant tokens != null ==> tokens[..] == old(tokens[..])
        decreases |js| - pos
      {
        StringTurn(js, pos);
        var c := js[pos];
        if c == '\"' {
          if tokens == null {
            return 0;
          }
          r := FillNext(tokens, numTokens, Str, start, start + 1, pos);
          return;
        }
        if c == '\\' && pos + 1 < |js| {
          pos := pos + 1;
          if IsSimpleEscape(js[pos]) {
          } else if js[pos] == 'u' {
            pos := pos + 1;
            var ok := SkipHex(js);
            if !ok {
              pos := start;
              return INVAL;
            }
            pos := pos - 1;
          } else {
            pos := start;
            return INVAL;
          }
        }
        pos := pos + 1;
      }
      StringTurn(js, pos);
      pos := start;
      return PART;
    }

    /** The backward scan for the last open token below `n`. */
    method FindOpen(tokens: array<Token>, n: nat, ghost all: nat) returns (i: int)
      requires n <= all <= tokens.Length
      ensures i == LastOpen(tokens[..all], n)
    {
      i := n - 1;
      while i >= 0
        invariant -1 <= i < n
        invariant LastOpen(tokens[..all], n) == LastOpen(tokens[..all], i + 1)
      {
        if tokens[i].start != -1 && tokens[i].end == -1 {
          return;
        }
        i := i - 1;
      }
    }

    method OpenBracket(tokens: array<Token>, numTokens: nat, k: Kind) returns (r: int)
      requires Ready(tokens, numTokens)
      modifies this`toknext, this`toksuper, tokens
      ensures Ready(tokens, numTokens) && tokens[toknext..] == old(tokens[..])[toknext..]
      ensures match old(StepOpen(View(tokens), numTokens, k))
              case Next(t) => r == 0 && View(tokens) == t.(pos := pos)
              case Halt(code, t) => r == code && View(tokens) == t
    {
      var i := AllocToken(tokens, numTokens);
      if i == -1 {
        return NOMEM;
      }
      if toksuper != -1 {
        tokens[toksuper] := tokens[toksuper].(size := tokens[toksuper].size + 1);
      }
      tokens[i] := tokens[i].(kind := k, start := pos);
      toksuper := toknext - 1;
      assert tokens[..toknext] == tokens[..i] + [tokens[i]];
      return 0;
    }

    method CloseBracket(tokens: array<Token>, numTokens: nat, k: Kind) returns (r: int)
      requires Ready(tokens, numTokens)
      modifies this`toksuper, tokens
      ensures Ready(tokens, numTokens) && tokens[toknext..] == old(tokens[toknext..])
      ensures match old(StepClose(View(tokens), k))
              case Next(t) => r == 0 && View(tokens) == t.(pos := pos)
              case Halt(code, t) => r == code && View(tokens) == t
    {
      ghost var was := tokens[..toknext];
      var i := FindOpen(tokens, toknext, toknext);
      if i == -1 {
        return INVAL;
      }
      if tokens[i].kind != k {
        return INVAL;
      }
      toksuper := -1;
      tokens[i] := tokens[i].(end := pos + 1);
      LastOpenSkips(was, tokens[..toknext], i);
      i := FindOpen(tokens, i + 1, toknext);
      if i >= 0 {
        toksuper := i;
      }
      return 0;
    }

    method Comma(tokens: array<Token>, numTokens: nat)
      requires Ready(tokens, numTokens)
      modifies this`toksuper
      ensures toksuper == old(CommaSuper(View(tokens)))
    {
      if toksuper != -1 && tokens[toksuper].kind != Array && tokens[toksuper].kind != Object {
        var i := toknext - 1;
        while i >= 0
          invariant -1 <= i < toknext
          invariant toksuper == old(toksuper)
          invariant LastOpenContainer(tokens[..toknext], toknext) == LastOpenContainer(tokens[..toknext], i + 1)
        {
          if tokens[i].kind == Array || tokens[i].kind == Object {
            if tokens[i].start != -1 && tokens[i].end == -1 {
              toksuper := i;
              break;
            }
          }
          i := i - 1;
        }
      }
    }

    /** Counts the token just stored into its superior token. */
    method CountChild(tokens: array<Token>)
      requires 0 < toknext <= tokens.Length && -1 <= toksuper < toknext - 1
      modifies tokens
      ensures tokens[..toknext] == Bump(old(tokens[..toknext - 1]), toksuper) + [old(tokens[toknext - 1])]
      ensures tokens[toknext..] == old(tokens[toknext..])
    {
      if toksuper != -1 {
        tokens[toksuper] := tokens[toksuper].(size := tokens[toksuper].size + 1);
      }
      assert tokens[..toknext] == tokens[..toknext - 1] + [tokens[toknext - 1]];
    }

    /** One turn of the main loop, up to and including `pos++`; `r` is what it adds to `count`. */
    method Turn(js: string, tokens: array<Token>, numTokens: nat) returns (r: int)
      requires Ready(tokens, numTokens) && More(js, pos)
      modifies this, tokens
      ensures Ready(tokens, numTokens) && tokens[toknext..] == old(tokens[..])[toknext..]
      ensures match old(Step(js, numTokens, View(tokens)))
              case Next(t) => r == toknext - old(toknext) && View(tokens) == t
              case Halt(code, t) => r == code && View(tokens) == t
    {
      r := 0;
      var c := js[pos];
      if c == '{' || c == '[' {
        r := OpenBracket(tokens, numTokens, if c == '{' then Object else Array);
        if r < 0 { return; }
        r := 1;
      } else if c == '}' || c == ']' {
        r := CloseBracket(tokens, numTokens, if c == '}' then Object else Array);
        if r < 0 { return; }
      } else if IsSpace(c) {
      } else if c == ':' {
        toksuper := toknext - 1;
      } else if c == ',' {
        Comma(tokens, numTokens);
      } else {
        r := ScalarTurn(js, tokens, numTokens);
        if r < 0 { return; }
        r := 1;
      }
      pos := pos + 1;
    }

    /** A string or a primitive, counted into its superior token. */
    method ScalarTurn(js: string, tokens: array<Token>, numTokens: nat) returns (r: int)
      requires Ready(tokens, numTokens) && More(js, pos)
      requires js[pos] != '{' && js[pos] != '[' && !EndsPrimitive(js[pos])
      modifies this`pos, this`toknext, tokens
      ensures Ready(tokens, numTokens) && tokens[toknext..] == old(tokens[..])[toknext..]
      ensures match old(Step(js, numTokens, View(tokens)))
              case Next(t) => r == 0 && View(tokens) == t.(pos := t.pos - 1)
              case Halt(code, t) => r == code && View(tokens) == t
    {
      ghost var was := tokens[..toknext];
      if js[pos] == '\"' {
        r := ParseString(js, tokens, numTokens);
      } else {
        r := ParsePrimitive(js, tokens, numTokens);
      }
      if r < 0 { return; }
      assert tokens[..toknext - 1] == was;
      CountChild(tokens);
    }

    /** `jsmn_parse` with a token array. */
    method Parse(js: string, tokens: array<Token>, numTokens: nat) returns (r: int)
      requires Ready(tokens, numTokens)
      modifies this, tokens
      ensures Ready(tokens, numTokens) && tokens[toknext..] == old(tokens[..])[toknext..]
      ensures Outcome(r, View(tokens)) == old(Run(js, numTokens, View(tokens)))
    {
      hide Run, Step;
      var count := toknext;
      ghost var goal := Run(js, numTokens, View(tokens));
      while pos < |js| && js[pos] != '\0'
        invariant Ready(tokens, numTokens) && tokens[toknext..] == old(tokens[..])[toknext..]
        invariant count == toknext
        invariant Run(js, numTokens, View(tokens)) == goal
        decreases |js| - pos
      {
        RunTurn(js, numTokens, View(tokens));
        r := Turn(js, tokens, numTokens);
        if r < 0 { return; }
        count := count + r;
      }
      RunTurn(js, numTokens, View(tokens));
      var i := FindOpen(tokens, toknext, toknext);
      if i >= 0 {
        return PART;
      }
      return count;
    }

    /** `jsmn_parse` with `tokens == NULL`. */
    method Count(js: string) returns (r: int)
      modifies this
      ensures toknext == old(toknext)
      ensures var g := RunCount(js, toknext, CountState(old(pos), old(toksuper), toknext));
              r == g.0 && pos == g.1.pos && toksuper == g.1.super
    {
      hide RunCount;
      var count := toknext;
      ghost var goal := RunCount(js, toknext, CountState(pos, toksuper, count));
      while pos < |js| && js[pos] != '\0'
        invariant toknext == old(toknext)
        invariant RunCount(js, toknext, CountState(pos, toksuper, count)) == goal
        decreases |js| - pos
      {
        CountTurn(js, toknext, CountState(pos, toksuper, count));
        var c := js[pos];
        if c == '{' || c == '[' {
          count := count + 1;
        } else if c == '}' || c == ']' {
        } else if c == '\"' {
          r := ParseString(js, null, 0);
          if r < 0 { return; }
          count := count + 1;
        } else if IsSpace(c) {
        } else if c == ':' {
          toksuper := toknext - 1;
        } else if c == ',' {
        } else {
          r := ParsePrimitive(js, null, 0);
          if r < 0 { return; }
          count := count + 1;
        }
        pos := pos + 1;
      }
      CountTurn(js, toknext, CountState(pos, toksuper, count));
      return count;
    }
  }

  /** Closing token `i` does not change what the scan below it finds. */
  lemma LastOpenSkips(a: seq<Token>, b: seq<Token>, i: nat)
    requires i < |a| == |b| && a[..i] == b[..i] && !Open(b[i])
    ensures LastOpen(b, i + 1) == LastOpen(a, i)
  {
  }

  lemma {:induction false} SameBelow(a: seq<Token>, b: seq<Token>, n: nat)
    requires n <= |a| && n <= |b| && forall j :: 0 <= j < n ==> Open(a[j]) == Open(b[j])
    ensures LastOpen(a, n) == LastOpen(b, n)
  {
  }
}
