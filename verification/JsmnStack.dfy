/** The tokenizer with an explicit stack of open tokens in place of the backward scans, and
    the characters it acts on written out: a reference for the whole state of `jsmn_parse`,
    on every input. */
module JsmnStack {
  import opened Jsmn
  import opened JsonDocs

  /** The stack holds the indices of the open tokens, outermost first. */
  datatype Ref = Ref(pos: nat, super: int, stack: seq<nat>, toks: seq<Token>)

  datatype RefResult = On(x: Ref) | Off(code: int)

  predicate RefOk(x: Ref) {
    -1 <= x.super < |x.toks| && forall k :: 0 <= k < |x.stack| ==> x.stack[k] < |x.toks|
  }

  function Top(stack: seq<nat>): (i: int) {
    if stack == [] then -1 else stack[|stack| - 1]
  }

  /** A new token, counted as a child of the superior one. */
  function Child(x: Ref, t: Token): (toks: seq<Token>)
    requires RefOk(x)
    ensures |toks| == |x.toks| + 1
  {
    (if x.super == -1 then x.toks else x.toks[x.super := x.toks[x.super].(size := x.toks[x.super].size + 1)]) + [t]
  }

  function RefOpen(x: Ref, cap: nat, kind: Kind): (r: RefResult)
    requires RefOk(x)
  {
    if |x.toks| >= cap then Off(-1)
    else On(Ref(x.pos + 1, |x.toks|, x.stack + [|x.toks|], Child(x, Token(kind, x.pos, -1, 0))))
  }

  function RefClose(x: Ref, kind: Kind): (r: RefResult)
    requires RefOk(x)
  {
    var i := Top(x.stack);
    if i == -1 || x.toks[i].kind != kind then Off(-2)
    else
      var rest := x.stack[..|x.stack| - 1];
      On(Ref(x.pos + 1, Top(rest), rest, x.toks[i := x.toks[i].(end := x.pos + 1)]))
  }

  function RefLeaf(x: Ref, cap: nat, kind: Kind, a: nat, b: nat, next: nat): (r: RefResult)
    requires RefOk(x)
  {
    if |x.toks| >= cap then Off(-1) else On(x.(pos := next, toks := Child(x, Token(kind, a, b, 0))))
  }

  function RefStep(js: string, cap: nat, x: Ref): (r: RefResult)
    requires RefOk(x) && x.pos < |js| && js[x.pos] != '\0'
    ensures r.On? ==> RefOk(r.x) && x.pos < r.x.pos
  {
    var c := js[x.pos];
    if c == '{' then RefOpen(x, cap, Object)
    else if c == '[' then RefOpen(x, cap, Array)
    else if c == '}' then RefClose(x, Object)
    else if c == ']' then RefClose(x, Array)
    else if c == '\"' then
      var l := ScanString(js, x.pos + 1);
      if l.Bad? then Off(l.code) else RefLeaf(x, cap, Str, x.pos + 1, l.pos, l.pos + 1)
    else if c == '\t' || c == '\r' || c == '\n' || c == ' ' then On(x.(pos := x.pos + 1))
    else if c == ':' then On(x.(pos := x.pos + 1, super := |x.toks| - 1))
    else if c == ',' then
      var inKey := x.super != -1 && x.toks[x.super].kind != Object && x.toks[x.super].kind != Array;
      On(x.(pos := x.pos + 1, super := if inKey && x.stack != [] then Top(x.stack) else x.super))
    else
      var l := ScanPrimitive(js, x.pos);
      if l.Bad? then Off(l.code)
      else PrimitiveAdvances(js, x.pos); RefLeaf(x, cap, Primitive, x.pos, l.pos, l.pos)
  }

  /** The stack is the open tokens of `s`, which are all arrays and objects. */
  ghost predicate Agree(s: State, x: Ref) {
    && Wf(s) && RefOk(x) && x.pos == s.pos && x.super == s.super && x.toks == s.toks
    && (forall i, j :: 0 <= i < j < |x.stack| ==> x.stack[i] < x.stack[j])
    && (forall k :: 0 <= k < |x.stack| ==> Open(s.toks[x.stack[k]]) && IsContainer(s.toks[x.stack[k]].kind))
    && (forall i :: 0 <= i < |s.toks| && Open(s.toks[i]) ==> i in x.stack)
  }

  /** The first scan finds the top of the stack, the second what is below it. */
  lemma ScansFind(s: State, x: Ref)
    requires Agree(s, x)
    ensures LastOpen(s.toks, |s.toks|) == Top(x.stack)
    ensures x.stack != [] ==> LastOpen(s.toks, Top(x.stack)) == Top(x.stack[..|x.stack| - 1])
  {
    var n := |x.stack|;
    if n > 0 {
      var top := x.stack[n - 1];
      var i := LastOpen(s.toks, |s.toks|);
      assert top <= i;
      assert i in x.stack;
      var j := LastOpen(s.toks, top);
      if n > 1 {
        assert x.stack[n - 2] <= j;
        assert j in x.stack;
      }
    }
  }

  lemma {:induction false} CommaScan(toks: seq<Token>, n: nat)
    requires n <= |toks| && forall i :: 0 <= i < n && Open(toks[i]) ==> IsContainer(toks[i].kind)
    ensures LastOpenContainer(toks, n) == LastOpen(toks, n)
  {
    if n > 0 && !Open(toks[n - 1]) {
      CommaScan(toks, n - 1);
    }
  }

  lemma OpenAgrees(s: State, x: Ref, cap: nat, kind: Kind)
    requires Agree(s, x) && IsContainer(kind)
    ensures StepAgrees(StepOpen(s, cap, kind), RefOpen(x, cap, kind))
  {
    if |s.toks| < cap {
      var y := RefOpen(x, cap, kind).x;
      forall i | 0 <= i < |y.toks| && Open(y.toks[i]) ensures i in y.stack {
        if i < |s.toks| {
          assert Open(s.toks[i]);
        } else {
          assert y.stack[|x.stack|] == i;
        }
      }
    }
  }

  lemma CloseAgrees(s: State, x: Ref, kind: Kind)
    requires Agree(s, x)
    ensures StepAgrees(StepClose(s, kind), RefClose(x, kind))
  {
    ScansFind(s, x);
    var i := Top(x.stack);
    if i != -1 && s.toks[i].kind == kind {
      var y := RefClose(x, kind).x;
      forall j | 0 <= j < |y.toks| && Open(y.toks[j]) ensures j in y.stack {
        assert Open(s.toks[j]) && j != i;
        assert j in x.stack;
      }
    }
  }

  lemma LeafAgrees(s: State, x: Ref, cap: nat, kind: Kind, a: nat, b: nat, next: nat)
    requires Agree(s, x)
    ensures StepAgrees(StepScalar(s, cap, kind, a, b, next), RefLeaf(x, cap, kind, a, b, next))
  {
    if |s.toks| < cap {
      var y := RefLeaf(x, cap, kind, a, b, next).x;
      forall i | 0 <= i < |y.toks| && Open(y.toks[i]) ensures i in y.stack {
        assert i < |s.toks| && Open(s.toks[i]);
      }
    }
  }

  ghost predicate StepAgrees(r: StepResult, q: RefResult) {
    if r.Next? then q.On? && Agree(r.s, q.x) else q == Off(r.code)
  }

  lemma StepsAgree(js: string, cap: nat, s: State, x: Ref)
    requires Agree(s, x) && More(js, s.pos)
    ensures StepAgrees(Step(js, cap, s), RefStep(js, cap, x))
  {
    hide StepAgrees, StepOpen, StepClose, StepScalar, RefOpen, RefClose, RefLeaf, ScanString, ScanPrimitive, LastOpen;
    var c := js[s.pos];
    if c == '{' || c == '[' {
      OpenAgrees(s, x, cap, if c == '{' then Object else Array);
    } else if c == '}' || c == ']' {
      CloseAgrees(s, x, if c == '}' then Object else Array);
    } else if c == '\"' {
      var l := ScanString(js, s.pos + 1);
      if l.End? {
        LeafAgrees(s, x, cap, Str, s.pos + 1, l.pos, l.pos + 1);
      } else {
        Same(Halt(l.code, s), Off(l.code));
      }
    } else if EndsPrimitive(c) {
      ScansFind(s, x);
      CommaScan(s.toks, |s.toks|);
      Moved(Step(js, cap, s), RefStep(js, cap, x), s, x);
    } else {
      var l := ScanPrimitive(js, s.pos);
      if l.End? {
        LeafAgrees(s, x, cap, Primitive, s.pos, l.pos, l.pos);
      } else {
        Same(Halt(l.code, s), Off(l.code));
      }
    }
  }

  lemma Same(r: StepResult, q: RefResult)
    requires r.Halt? && q == Off(r.code)
    ensures StepAgrees(r, q)
  {
  }

  lemma Moved(r: StepResult, q: RefResult, s: State, x: Ref)
    requires Agree(s, x) && r.Next? && q.On? && Wf(r.s) && r.s == s.(pos := r.s.pos, super := r.s.super)
    requires q.x == x.(pos := r.s.pos, super := r.s.super)
    ensures StepAgrees(r, q)
  {
  }

  /** What a call returns and leaves, by the reference. */
  function RefRun(js: string, cap: nat, x: Ref): (r: (int, Ref))
    requires RefOk(x)
    decreases |js| - x.pos
  {
    if x.pos >= |js| || js[x.pos] == '\0' then (if x.stack == [] then |x.toks| else -3, x)
    else
      var r := RefStep(js, cap, x);
      if r.Off? then (r.code, x) else RefRun(js, cap, r.x)
  }

  /** From matching states, `jsmn_parse` returns what the reference returns and leaves its
      tokens, sizes included, its position and its superior token. */
  lemma {:induction false} RunsAgree(js: string, cap: nat, s: State, x: Ref)
    requires Agree(s, x)
    ensures var o, r := Run(js, cap, s), RefRun(js, cap, x);
            o.code == r.0 && o.s.pos == r.1.pos && o.s.super == r.1.super && o.s.toks == r.1.toks
    decreases |js| - s.pos
  {
    hide Run, Step, RefStep, LastOpen;
    RunTurn(js, cap, s);
    if !More(js, s.pos) {
      ScansFind(s, x);
    } else {
      StepsAgree(js, cap, s, x);
      if Step(js, cap, s).Next? {
        RunsAgree(js, cap, Step(js, cap, s).s, RefStep(js, cap, x).x);
      }
    }
  }

  /** On every input and with every token array. */
  lemma {:induction false} ParseIsReference(js: string, cap: nat)
    ensures var o, r := Run(js, cap, Init), RefRun(js, cap, Ref(0, -1, [], []));
            o.code == r.0 && o.s.pos == r.1.pos && o.s.super == r.1.super && o.s.toks == r.1.toks
  {
    RunsAgree(js, cap, Init, Ref(0, -1, [], []));
  }
}
