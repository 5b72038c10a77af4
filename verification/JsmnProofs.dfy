/** What `jsmn_parse` keeps over every input: restarts after NOMEM, the counting mode,
    the stack behind the backward scans, and the layout of the token spans. */
module JsmnProofs {
  import opened Jsmn

  // ---------------------------------------------------------------- restarting after NOMEM

  /** More room changes no turn that succeeded, and only turns NOMEM into success. */
  lemma StepWithMoreRoom(js: string, cap: nat, more: nat, s: State)
    requires Wf(s) && More(js, s.pos) && cap <= more
    requires Step(js, cap, s) != Halt(NOMEM, s)
    ensures Step(js, more, s) == Step(js, cap, s)
  {
  }

  /** A call that ran out of tokens and is repeated with a larger copy of the array
      ends like one call with the larger array from the start. */
  lemma {:induction false} RestartOnce(js: string, cap: nat, more: nat, s: State)
    requires Wf(s) && cap <= more
    requires Run(js, cap, s).code == NOMEM
    ensures Run(js, more, Run(js, cap, s).s) == Run(js, more, s)
    decreases |js| - s.pos
  {
    hide Run;
    RunTurn(js, cap, s);
    RunTurn(js, more, s);
    if More(js, s.pos) && Step(js, cap, s).Next? {
      StepWithMoreRoom(js, cap, more, s);
      RestartOnce(js, cap, more, Step(js, cap, s).s);
    }
  }

  /** A call never uses more tokens than it was given. */
  lemma {:induction false} TokensFit(js: string, cap: nat, s: State)
    requires Wf(s) && |s.toks| <= cap
    ensures |Run(js, cap, s).s.toks| <= cap
    decreases |js| - s.pos
  {
    hide Run;
    RunTurn(js, cap, s);
    if More(js, s.pos) && Step(js, cap, s).Next? {
      TokensFit(js, cap, Step(js, cap, s).s);
    }
  }

  predicate Growing(caps: seq<nat>) {
    forall i, j :: 0 <= i < j < |caps| ==> caps[i] <= caps[j]
  }

  /** Calls with the given array sizes, each one only if the one before returned NOMEM. */
  function RunAll(js: string, caps: seq<nat>, s: State): (r: Outcome)
    requires Wf(s) && |caps| > 0
    ensures Wf(r.s)
    decreases |caps|
  {
    var o := Run(js, caps[0], s);
    if o.code == NOMEM && |caps| > 1 then RunAll(js, caps[1..], o.s) else o
  }

  lemma {:induction false} NoMemNeedsRoom(js: string, cap: nat, more: nat, s: State)
    requires Wf(s) && cap <= more && Run(js, cap, s).code != NOMEM
    ensures Run(js, more, s) == Run(js, cap, s)
    decreases |js| - s.pos
  {
    hide Run;
    RunTurn(js, cap, s);
    RunTurn(js, more, s);
    if More(js, s.pos) {
      StepWithMoreRoom(js, cap, more, s);
      if Step(js, cap, s).Next? {
        NoMemNeedsRoom(js, cap, more, Step(js, cap, s).s);
      }
    }
  }

  /** Any number of restarts with growing arrays is one call with the last array. */
  lemma {:induction false} Restart(js: string, caps: seq<nat>, s: State)
    requires Wf(s) && |caps| > 0 && Growing(caps)
    ensures RunAll(js, caps, s) == Run(js, caps[|caps| - 1], s)
    decreases |caps|
  {
    var last := caps[|caps| - 1];
    if Run(js, caps[0], s).code == NOMEM {
      if |caps| > 1 {
        Restart(js, caps[1..], Run(js, caps[0], s).s);
        RestartOnce(js, caps[0], last, s);
      }
    } else {
      NoMemNeedsRoom(js, caps[0], last, s);
    }
  }

  // ---------------------------------------------------------------- counting mode

  /** A turn that fills is matched by a turn that counts; a turn that runs out of tokens
      is one where counting finds another token. */
  lemma CountStepFollows(js: string, cap: nat, s: State, c: CountState)
    requires Wf(s) && More(js, s.pos) && c.pos == s.pos && c.count == |s.toks|
    ensures match Step(js, cap, s)
            case Next(t) => CountStep(js, 0, c).Go? && CountStep(js, 0, c).s.pos == t.pos
                            && CountStep(js, 0, c).s.count == |t.toks|
            case Halt(code, t) => code == NOMEM ==>
                                    cap <= |s.toks| && CountStep(js, 0, c).Go? && CountStep(js, 0, c).s.count == |s.toks| + 1
  {
  }

  /** From states at the same byte with the same count, counting follows filling. */
  lemma {:induction false} CountFollowsFill(js: string, cap: nat, s: State, c: CountState)
    requires Wf(s) && c.pos == s.pos && c.count == |s.toks|
    ensures Run(js, cap, s).code >= 0 ==> RunCount(js, 0, c).0 == Run(js, cap, s).code
    ensures 0 <= RunCount(js, 0, c).0 <= cap ==> Run(js, cap, s).code != NOMEM
    decreases |js| - s.pos
  {
    hide Run, RunCount, Step, CountStep;
    RunTurn(js, cap, s);
    CountTurn(js, 0, c);
    if More(js, s.pos) {
      CountStepFollows(js, cap, s, c);
      if Step(js, cap, s).Next? {
        CountFollowsFill(js, cap, Step(js, cap, s).s, CountStep(js, 0, c).s);
      }
    }
  }

  /** Counting from a fresh parser returns what filling returns, and an array of that
      many tokens is never too small. */
  lemma {:induction false} CountAgrees(js: string, cap: nat)
    ensures var n := RunCount(js, 0, CountState(0, -1, 0)).0;
            && (Run(js, cap, Init).code >= 0 ==> n == Run(js, cap, Init).code)
            && (0 <= n <= cap ==> Run(js, cap, Init).code != NOMEM)
  {
    CountFollowsFill(js, cap, Init, CountState(0, -1, 0));
  }

  // ---------------------------------------------------------------- the stack

  /** The tokenizer with an explicit stack of the kinds of open brackets in place of
      the token array: the code it returns after `n` tokens. */
  function RunStack(js: string, p: nat, stack: seq<Kind>, n: nat): (code: int)
    decreases |js| - p
  {
    if !More(js, p) then (if stack == [] then n else PART)
    else
      var c := js[p];
      if c == '{' then RunStack(js, p + 1, stack + [Object], n + 1)
      else if c == '[' then RunStack(js, p + 1, stack + [Array], n + 1)
      else if c == '}' || c == ']' then
        if stack != [] && stack[|stack| - 1] == (if c == '}' then Object else Array)
        then RunStack(js, p + 1, stack[..|stack| - 1], n)
        else INVAL
      else if c == '\"' then
        var l := ScanString(js, p + 1);
        if l.Bad? then l.code else RunStack(js, l.pos + 1, stack, n + 1)
      else if IsSpace(c) || c == ':' || c == ',' then RunStack(js, p + 1, stack, n)
      else
        var l := ScanPrimitive(js, p);
        if l.Bad? then l.code
        else PrimitiveAdvances(js, p); RunStack(js, l.pos, stack, n + 1)
  }

  /** The kinds of the open tokens, outermost first: the stack kept in the token array. */
  ghost function OpenKinds(toks: seq<Token>): (r: seq<Kind>) {
    if toks == [] then []
    else
      var t := toks[|toks| - 1];
      OpenKinds(toks[..|toks| - 1]) + if Open(t) then [t.kind] else []
  }

  lemma {:induction false} SameKinds(a: seq<Token>, b: seq<Token>)
    requires |a| == |b| && forall i :: 0 <= i < |a| ==> Open(a[i]) == Open(b[i]) && a[i].kind == b[i].kind
    ensures OpenKinds(a) == OpenKinds(b)
  {
    if a != [] {
      SameKinds(a[..|a| - 1], b[..|b| - 1]);
    }
  }

  /** The backward scan finds the top of the stack. */
  lemma {:induction false} ScanFindsTop(toks: seq<Token>)
    ensures var i := LastOpen(toks, |toks|);
            var k := OpenKinds(toks);
            && (i == -1 <==> k == [])
            && (i != -1 ==> k[|k| - 1] == toks[i].kind && k[..|k| - 1] == OpenKinds(toks[..i]))
  {
    if toks != [] {
      var rest := toks[..|toks| - 1];
      SameBelow(toks, rest, |rest|);
      if !Open(toks[|toks| - 1]) {
        ScanFindsTop(rest);
        var i := LastOpen(toks, |toks|);
        if i != -1 {
          assert rest[..i] == toks[..i];
        }
      }
    }
  }

  lemma {:induction false} ClosedSuffix(toks: seq<Token>, i: nat)
    requires i <= |toks| && forall j :: i <= j < |toks| ==> !Open(toks[j])
    ensures OpenKinds(toks) == OpenKinds(toks[..i])
    decreases |toks|
  {
    if i < |toks| {
      ClosedSuffix(toks[..|toks| - 1], i);
      assert toks[..|toks| - 1][..i] == toks[..i];
    } else {
      assert toks[..i] == toks;
    }
  }

  lemma {:induction false} PushKinds(toks: seq<Token>, super: int, t: Token)
    requires -1 <= super < |toks|
    ensures OpenKinds(Bump(toks, super) + [t]) == OpenKinds(toks) + if Open(t) then [t.kind] else []
  {
    var b := Bump(toks, super) + [t];
    assert b[..|b| - 1] == Bump(toks, super);
    SameKinds(Bump(toks, super), toks);
  }

  /** A closing bracket pops the stack, or is refused exactly when the top does not match. */
  lemma ClosePops(s: State, k: Kind)
    requires Wf(s)
    ensures var st := OpenKinds(s.toks);
            match StepClose(s, k)
            case Next(t) => st != [] && st[|st| - 1] == k && OpenKinds(t.toks) == st[..|st| - 1]
            case Halt(code, t) => st == [] || st[|st| - 1] != k
  {
    ScanFindsTop(s.toks);
    var i := LastOpen(s.toks, |s.toks|);
    if i != -1 && s.toks[i].kind == k {
      var t := s.toks[i := s.toks[i].(end := s.pos + 1)];
      ClosedSuffix(t, i);
      assert t[..i] == s.toks[..i];
    }
  }

  /** How one turn moves the stack. */
  lemma StepKinds(js: string, cap: nat, s: State)
    requires Wf(s) && More(js, s.pos) && Step(js, cap, s).Next?
    ensures var c, st, t := js[s.pos], OpenKinds(s.toks), Step(js, cap, s).s;
            if c == '{' || c == '[' then
              OpenKinds(t.toks) == st + [if c == '{' then Object else Array] && |t.toks| == |s.toks| + 1
            else if c == '}' || c == ']' then
              st != [] && st[|st| - 1] == (if c == '}' then Object else Array)
              && OpenKinds(t.toks) == st[..|st| - 1] && |t.toks| == |s.toks|
            else
              OpenKinds(t.toks) == st && |t.toks| == |s.toks| + if c == '\"' || !EndsPrimitive(c) then 1 else 0
  {
    var c, t := js[s.pos], Step(js, cap, s).s;
    if c == '}' || c == ']' {
      ClosePops(s, if c == '}' then Object else Array);
    } else if |t.toks| > |s.toks| {
      PushKinds(s.toks, s.super, t.toks[|s.toks|]);
      assert OpenKinds(s.toks) + [] == OpenKinds(s.toks);
    }
  }

  /** Every turn that succeeds is a turn of the stack tokenizer. */
  lemma {:induction false} StackTurn(js: string, cap: nat, s: State)
    requires Wf(s) && More(js, s.pos) && Step(js, cap, s).Next?
    ensures var t := Step(js, cap, s).s;
            RunStack(js, s.pos, OpenKinds(s.toks), |s.toks|) == RunStack(js, t.pos, OpenKinds(t.toks), |t.toks|)
  {
    hide ScanString, ScanPrimitive, OpenKinds, LastOpen, LastOpenContainer, Bump;
    StepKinds(js, cap, s);
  }

  /** When a turn halts without running out of tokens, so does the stack tokenizer. */
  lemma {:induction false} HaltCode(js: string, cap: nat, s: State)
    requires Wf(s) && More(js, s.pos)
    requires Step(js, cap, s).Halt? && Step(js, cap, s).code != NOMEM
    ensures RunStack(js, s.pos, OpenKinds(s.toks), |s.toks|) == Step(js, cap, s).code
  {
    var c := js[s.pos];
    if c == '}' || c == ']' {
      ClosePops(s, if c == '}' then Object else Array);
    }
  }

  /** The scans refine the stack: unless it runs out of tokens, `jsmn_parse` returns
      exactly what the stack tokenizer returns, error codes included. */
  lemma {:induction false} ScansRefineStack(js: string, cap: nat, s: State)
    requires Wf(s) && Run(js, cap, s).code != NOMEM
    ensures Run(js, cap, s).code == RunStack(js, s.pos, OpenKinds(s.toks), |s.toks|)
    decreases |js| - s.pos
  {
    hide Run, Step, OpenKinds, LastOpen;
    RunTurn(js, cap, s);
    if !More(js, s.pos) {
      ScanFindsTop(s.toks);
    } else if Step(js, cap, s).Halt? {
      HaltCode(js, cap, s);
    } else {
      var t := Step(js, cap, s).s;
      StackTurn(js, cap, s);
      ScansRefineStack(js, cap, t);
    }
  }

  /** An array with one token per input byte is always large enough. */
  lemma {:induction false} OneTokenPerByte(js: string, cap: nat, s: State)
    requires Wf(s) && s.pos <= |js| && |s.toks| + (|js| - s.pos) <= cap
    ensures Run(js, cap, s).code != NOMEM
    decreases |js| - s.pos
  {
    hide Run;
    RunTurn(js, cap, s);
    if More(js, s.pos) && Step(js, cap, s).Next? {
      OneTokenPerByte(js, cap, Step(js, cap, s).s);
    }
  }

  /** `jsmn_parse` as a stack machine, on every input. */
  lemma {:induction false} BracketsMatch(js: string, cap: nat)
    requires |js| <= cap
    ensures Run(js, cap, Init).code == RunStack(js, 0, [], 0)
  {
    OneTokenPerByte(js, cap, Init);
    ScansRefineStack(js, cap, Init);
  }

  // ---------------------------------------------------------------- the spans

  /** Spans seen so far: inside the input read, starts increasing, later ones inside or
      after earlier ones; only arrays and objects are open. */
  ghost predicate Spans(pos: nat, toks: seq<Token>) {
    && (forall i :: 0 <= i < |toks| ==> var t := toks[i];
          0 <= t.start < pos && (Open(t) ==> IsContainer(t.kind)) && (!Open(t) ==> t.start <= t.end <= pos))
    && (forall i, j :: 0 <= i < j < |toks| ==>
          toks[i].start < toks[j].start && (Open(toks[i]) || Apart(toks[i], toks[j])))
  }

  /** `b`, which starts later, lies after `a` or inside it. */
  ghost predicate Apart(a: Token, b: Token) {
    a.end <= b.start || (!Open(b) && b.end <= a.end)
  }

  lemma AppendSpan(s: State, t: Token, pos: nat)
    requires Wf(s) && Spans(s.pos, s.toks) && s.pos <= t.start < pos
    requires if Open(t) then IsContainer(t.kind) else t.start <= t.end <= pos
    ensures Spans(pos, Bump(s.toks, s.super) + [t])
  {
  }

  lemma CloseSpan(s: State, i: nat)
    requires Wf(s) && Spans(s.pos, s.toks) && i == LastOpen(s.toks, |s.toks|)
    ensures Spans(s.pos + 1, s.toks[i := s.toks[i].(end := s.pos + 1)])
  {
  }

  lemma LaterSpans(pos: nat, later: nat, toks: seq<Token>)
    requires Spans(pos, toks) && pos <= later
    ensures Spans(later, toks)
  {
  }

  lemma StepSpans(js: string, cap: nat, s: State)
    requires Wf(s) && Spans(s.pos, s.toks) && More(js, s.pos) && Step(js, cap, s).Next?
    ensures Spans(Step(js, cap, s).s.pos, Step(js, cap, s).s.toks)
  {
    hide Spans, LastOpen, ScanString, ScanPrimitive, LastOpenContainer;
    var t := Step(js, cap, s).s;
    if |t.toks| > |s.toks| {
      AppendSpan(s, t.toks[|s.toks|], t.pos);
    } else if js[s.pos] == '}' || js[s.pos] == ']' {
      CloseSpan(s, LastOpen(s.toks, |s.toks|));
    } else {
      LaterSpans(s.pos, t.pos, s.toks);
    }
  }

  lemma {:induction false} RunSpans(js: string, cap: nat, s: State)
    requires Wf(s) && Spans(s.pos, s.toks) && s.pos <= |js|
    ensures var t := Run(js, cap, s).s; Spans(t.pos, t.toks) && t.pos <= |js|
    ensures Run(js, cap, s).code >= 0 ==> LastOpen(Run(js, cap, s).s.toks, |Run(js, cap, s).s.toks|) == -1
    decreases |js| - s.pos
  {
    hide Spans, Run, Step;
    RunTurn(js, cap, s);
    if More(js, s.pos) && Step(js, cap, s).Next? {
      StepSpans(js, cap, s);
      RunSpans(js, cap, Step(js, cap, s).s);
    }
  }

  /** After success every span lies in the input, starts strictly increase, and any two
      spans are nested or disjoint. */
  lemma {:induction false} SpansNest(js: string, cap: nat)
    requires Run(js, cap, Init).code >= 0
    ensures var toks := Run(js, cap, Init).s.toks;
            && (forall i :: 0 <= i < |toks| ==> 0 <= toks[i].start <= toks[i].end <= |js|)
            && (forall i, j :: 0 <= i < j < |toks| ==>
                  && toks[i].start < toks[j].start
                  && (toks[i].end <= toks[j].start || toks[j].end <= toks[i].end))
  {
    RunSpans(js, cap, Init);
  }
}
