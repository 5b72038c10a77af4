/** A piece of a longer sequence, found at a given place. */
module Texts {

  ghost predicate At<T>(js: seq<T>, p: nat, s: seq<T>) {
    p + |s| <= |js| && js[p..p + |s|] == s
  }

  lemma AtSplit<T>(js: seq<T>, p: nat, a: seq<T>, b: seq<T>)
    requires At(js, p, a + b)
    ensures At(js, p, a) && At(js, p + |a|, b)
  {
    assert js[p..p + |a|] == (a + b)[..|a|];
    assert js[p + |a|..p + |a| + |b|] == (a + b)[|a|..];
  }

  lemma AtStart<T>(js: seq<T>)
    ensures At(js, 0, js)
  {
  }

  lemma AtChar<T>(js: seq<T>, p: nat, s: seq<T>, i: nat)
    requires At(js, p, s) && i < |s|
    ensures p + i < |js| && js[p + i] == s[i]
  {
  }

  /** The C string `t` stands in the buffer at `off`. */
  ghost predicate CString(b: seq<char>, off: nat, t: string) {
    && off + |t| < |b| && b[off + |t|] == '\0'
    && (forall k :: 0 <= k < |t| ==> b[off + k] == t[k] && t[k] != '\0')
  }
}
