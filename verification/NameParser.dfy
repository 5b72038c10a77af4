/** `parse_name` of the example CA: "/type0=value0/type1=value1+type2=..." with '\' as
    escape character, into parallel arrays of C strings.  Turning them into an X509_NAME is
    OpenSSL's business and left out. */
module NameParser {
  import opened Options
  import opened Texts

  /** One name element; `multi` joins it to the element before it. */
  datatype Entry = Entry(typ: string, value: string, multi: bool)

  // ---------------------------------------------------------------- the grammar

  /** A type up to its '=' and the offset behind it. */
  function TakeType(s: string, i: nat, acc: string): (r: Option<(string, nat)>)
    ensures r.Some? ==> i < r.value.1 <= |s|
    decreases |s| - i
  {
    if i >= |s| then None
    else if s[i] == '\\' then
      if i + 1 < |s| then TakeType(s, i + 2, acc + [s[i + 1]]) else None
    else if s[i] == '=' then Some((acc, i + 1))
    else TakeType(s, i + 1, acc + [s[i]])
  }

  datatype Separator = Slash | Plus | EndOfName

  /** A value, the offset behind its separator, and the separator. */
  function TakeValue(s: string, i: nat, acc: string, multirdn: bool): (r: Option<(string, nat, Separator)>)
    requires i <= |s|
    ensures r.Some? ==> i <= r.value.1 <= |s|
    ensures r.Some? && i < |s| ==> i < r.value.1
    ensures r.Some? && r.value.2 == EndOfName ==> r.value.1 == |s|
    decreases |s| - i
  {
    if i >= |s| then Some((acc, i, EndOfName))
    else if s[i] == '\\' then
      if i + 1 < |s| then TakeValue(s, i + 2, acc + [s[i + 1]], multirdn) else None
    else if s[i] == '/' then Some((acc, i + 1, Slash))
    else if s[i] == '+' && multirdn then Some((acc, i + 1, Plus))
    else TakeValue(s, i + 1, acc + [s[i]], multirdn)
  }

  /** One element from offset `i`; a name may not end right behind '='. */
  function TakeEntry(s: string, i: nat, multi: bool, multirdn: bool): (r: Option<(Entry, nat, Separator)>)
    ensures r.Some? ==> i + 2 <= r.value.1 <= |s|
    ensures r.Some? && r.value.2 == EndOfName ==> r.value.1 == |s|
  {
    var t := TakeType(s, i, "");
    if t.None? || t.value.1 == |s| then None
    else
      var v := TakeValue(s, t.value.1, "", multirdn);
      if v.None? then None else Some((Entry(t.value.0, v.value.0, multi), v.value.1, v.value.2))
  }

  function TakeEntries(s: string, i: nat, multi: bool, multirdn: bool): (r: Option<seq<Entry>>)
    requires i <= |s|
    decreases |s| - i
  {
    if i == |s| then Some([])
    else
      var e := TakeEntry(s, i, multi, multirdn);
      if e.None? then None
      else
        var rest := TakeEntries(s, e.value.1, e.value.2 == Plus, multirdn);
        if rest.None? then None else Some([e.value.0] + rest.value)
  }

  function ParseName(s: string, multirdn: bool): (r: Option<seq<Entry>>) {
    if s == [] || s[0] != '/' then None else TakeEntries(s, 1, false, multirdn)
  }

  // ---------------------------------------------------------------- the C code

  ghost predicate NulFree(s: string) {
    forall k :: 0 <= k < |s| ==> s[k] != '\0'
  }

  method CollectType(s: string, buf: array<char>, sp0: nat, bp0: nat) returns (ok: bool, sp: nat, bp: nat)
    requires bp0 < sp0 <= |s| < buf.Length && NulFree(s)
    modifies buf
    ensures ok == TakeType(s, sp0, "").Some? && bp0 <= bp < sp <= |s|
    ensures ok ==> sp == TakeType(s, sp0, "").value.1 && bp == bp0 + |TakeType(s, sp0, "").value.0| + 1
                   && CString(buf[..], bp0, TakeType(s, sp0, "").value.0)
    ensures forall k :: 0 <= k < bp0 ==> buf[k] == old(buf[k])
  {
    sp, bp := sp0, bp0;
    ghost var acc := "";
    while sp < |s|
      invariant sp0 <= sp <= |s| && bp == bp0 + |acc| && bp < sp
      invariant TakeType(s, sp0, "") == TakeType(s, sp, acc)
      invariant NulFree(acc) && forall k :: 0 <= k < |acc| ==> buf[bp0 + k] == acc[k]
      invariant forall k :: 0 <= k < bp0 ==> buf[k] == old(buf[k])
      decreases |s| - sp
    {
      if s[sp] == '\\' {
        sp := sp + 1;
        if sp < |s| {
          buf[bp], acc := s[sp], acc + [s[sp]];
          bp, sp := bp + 1, sp + 1;
        } else {
          ok := false;
          return;
        }
      } else if s[sp] == '=' {
        sp := sp + 1;
        buf[bp] := '\0';
        bp := bp + 1;
        ok := true;
        return;
      } else {
        buf[bp], acc := s[sp], acc + [s[sp]];
        bp, sp := bp + 1, sp + 1;
      }
    }
    ok := false;
  }

  method CollectValue(s: string, buf: array<char>, sp0: nat, bp0: nat, multirdn: bool)
      returns (ok: bool, sp: nat, bp: nat, sep: Separator)
    requires bp0 < sp0 <= |s| < buf.Length && NulFree(s)
    modifies buf
    ensures ok == TakeValue(s, sp0, "", multirdn).Some? && bp0 <= bp <= sp <= |s|
    ensures ok ==> var v := TakeValue(s, sp0, "", multirdn).value;
                   sp == v.1 && sep == v.2 && bp == bp0 + |v.0| + 1 && (sep != EndOfName ==> bp < sp) && CString(buf[..], bp0, v.0)
    ensures forall k :: 0 <= k < bp0 ==> buf[k] == old(buf[k])
  {
    sp, bp, sep := sp0, bp0, EndOfName;
    ghost var acc := "";
    while sp < |s|
      invariant sp0 <= sp <= |s| && bp == bp0 + |acc| && bp < sp && sep == EndOfName
      invariant TakeValue(s, sp0, "", multirdn) == TakeValue(s, sp, acc, multirdn)
      invariant NulFree(acc) && forall k :: 0 <= k < |acc| ==> buf[bp0 + k] == acc[k]
      invariant forall k :: 0 <= k < bp0 ==> buf[k] == old(buf[k])
      decreases |s| - sp
    {
      if s[sp] == '\\' {
        sp := sp + 1;
        if sp < |s| {
          buf[bp], acc := s[sp], acc + [s[sp]];
          bp, sp := bp + 1, sp + 1;
        } else {
          ok := false;
          return;
        }
      } else if s[sp] == '/' {
        sp, sep := sp + 1, Slash;
        break;
      } else if s[sp] == '+' && multirdn {
        sp, sep := sp + 1, Plus;
        break;
      } else {
        buf[bp], acc := s[sp], acc + [s[sp]];
        bp, sp := bp + 1, sp + 1;
      }
    }
    buf[bp] := '\0';
    bp := bp + 1;
    ok := true;
  }

  /** The parallel arrays hold the elements `es`, below offset `bp` of the buffer. */
  ghost predicate Holds(es: seq<Entry>, b: seq<char>, types: seq<nat>, values: seq<nat>, bp: nat) {
    && |es| <= |types| && |es| <= |values|
    && forall k :: 0 <= k < |es| ==>
         && CString(b, types[k], es[k].typ) && types[k] + |es[k].typ| < bp
         && CString(b, values[k], es[k].value) && values[k] + |es[k].value| < bp
  }

  ghost predicate Flags(es: seq<Entry>, mval: seq<int>) {
    |es| <= |mval| && forall k :: 0 <= k < |es| ==> mval[k] == if es[k].multi then -1 else 0
  }

  lemma HoldsStays(es: seq<Entry>, b: seq<char>, c: seq<char>, types: seq<nat>, values: seq<nat>, bp: nat, more: nat)
    requires Holds(es, b, types, values, bp) && |b| == |c| && bp <= more && bp <= |b|
    requires forall k :: 0 <= k < bp ==> c[k] == b[k]
    ensures Holds(es, c, types, values, more)
  {
  }

  /** What the elements read so far and the rest of the name make together. */
  function Prepend(es: seq<Entry>, r: Option<seq<Entry>>): (p: Option<seq<Entry>>) {
    if r.None? then None else Some(es + r.value)
  }

  lemma PrependMore(es: seq<Entry>, e: Entry, r: Option<seq<Entry>>)
    ensures Prepend(es, Prepend([e], r)) == Prepend(es + [e], r)
  {
    if r.Some? {
      assert es + ([e] + r.value) == es + [e] + r.value;
    }
  }

  lemma EmptyPrepend(r: Option<seq<Entry>>)
    ensures Prepend([], r) == r
  {
    if r.Some? {
      assert [] + r.value == r.value;
    }
  }

  lemma TakeTurn(s: string, i: nat, multi: bool, multirdn: bool)
    requires i <= |s|
    ensures i == |s| ==> TakeEntries(s, i, multi, multirdn) == Some([])
    ensures i < |s| && TakeEntry(s, i, multi, multirdn).None? ==> TakeEntries(s, i, multi, multirdn) == None
    ensures i < |s| && TakeEntry(s, i, multi, multirdn).Some? ==>
              var e := TakeEntry(s, i, multi, multirdn).value;
              TakeEntries(s, i, multi, multirdn) == Prepend([e.0], TakeEntries(s, e.1, e.2 == Plus, multirdn))
  {
  }

  lemma NothingHeld(b: seq<char>, types: seq<nat>, values: seq<nat>, mval: seq<int>)
    ensures Holds([], b, types, values, 0) && Flags([], mval)
  {
  }

  lemma FlagsGrow(es: seq<Entry>, e: Entry, m0: seq<int>, m1: seq<int>)
    requires Flags(es, m0) && |es| < |m0| == |m1| && m0[|es|] == if e.multi then -1 else 0
    requires forall k :: 0 <= k <= |es| ==> m1[k] == m0[k]
    ensures Flags(es + [e], m1)
  {
  }

  lemma HeldGrows(es: seq<Entry>, e: Entry, b0: seq<char>, b1: seq<char>, b2: seq<char>,
                  t0: seq<nat>, t1: seq<nat>, v0: seq<nat>, v1: seq<nat>, bp0: nat, mid: nat, bp: nat)
    requires Holds(es, b0, t0, v0, bp0) && bp0 <= mid <= bp <= |b0| == |b1| == |b2|
    requires |es| < |t0| && t1 == t0[|es| := bp0] && |es| < |v0| && v1 == v0[|es| := mid]
    requires forall k :: 0 <= k < bp0 ==> b1[k] == b0[k]
    requires forall k :: 0 <= k < mid ==> b2[k] == b1[k]
    requires CString(b1, bp0, e.typ) && bp0 + |e.typ| < mid
    requires CString(b2, mid, e.value) && mid + |e.value| < bp
    ensures Holds(es + [e], b2, t1, v1, bp)
  {
  }

  /** The body of the loop: one more element behind `es`, and the flag of the one after it. */
  method CollectEntry(s: string, buf: array<char>, types: array<nat>, values: array<nat>, mval: array<int>,
                      sp0: nat, bp0: nat, n: nat, multirdn: bool, ghost es: seq<Entry>, ghost multi: bool)
      returns (ok: bool, sp: nat, bp: nat, sep: Separator)
    requires NulFree(s) && bp0 < sp0 < |s| < buf.Length && n == |es|
    requires n + 1 < types.Length && n + 1 < values.Length && n + 1 < mval.Length && types != values
    requires Holds(es, buf[..], types[..], values[..], bp0) && Flags(es, mval[..]) && mval[n] == if multi then -1 else 0
    modifies buf, types, values, mval
    ensures ok == TakeEntry(s, sp0, multi, multirdn).Some?
    ensures ok ==> var e := TakeEntry(s, sp0, multi, multirdn).value;
                   && sp == e.1 && sep == e.2 && bp <= sp && (sep != EndOfName ==> bp < sp)
                   && Holds(es + [e.0], buf[..], types[..], values[..], bp) && Flags(es + [e.0], mval[..])
                   && (sep != EndOfName ==> mval[n + 1] == if sep == Plus then -1 else 0)
  {
    hide Holds, Flags, TakeType, TakeValue, CString;
    ghost var b0, t0, v0, m0 := buf[..], types[..], values[..], mval[..];
    sep := EndOfName;
    types[n] := bp0;
    ok, sp, bp := CollectType(s, buf, sp0, bp0);
    if !ok {
      return;
    }
    if sp == |s| {
      ok := false;
      return;
    }
    ghost var b1, mid := buf[..], bp;
    values[n] := bp;
    ok, sp, bp, sep := CollectValue(s, buf, sp, bp, multirdn);
    if !ok {
      return;
    }
    if sep != EndOfName {
      mval[n + 1] := if sep == Plus then -1 else 0;
    }
    ghost var e := TakeEntry(s, sp0, multi, multirdn).value.0;
    HeldGrows(es, e, b0, b1, buf[..], t0, types[..], v0, values[..], bp0, mid, bp);
    FlagsGrow(es, e, m0, mval[..]);
  }

  /** `parse_name` up to its X509_NAME: for every C string, accepted or not, all writes stay
      inside the four arrays. */
  method ParseIntoArrays(s: string, multirdn: bool)
      returns (ok: bool, n: nat, buf: array<char>, types: array<nat>, values: array<nat>, mval: array<int>)
    requires NulFree(s)
    ensures buf.Length == |s| + 1 && types.Length == values.Length == mval.Length == (|s| + 1) / 2 + 1
    ensures ok == ParseName(s, multirdn).Some?
    ensures ok ==> var es := ParseName(s, multirdn).value;
                   n == |es| && Holds(es, buf[..], types[..], values[..], buf.Length) && Flags(es, mval[..])
  {
    hide TakeEntries, Holds, Flags, TakeEntry;
    var maxNe := (|s| + 1) / 2 + 1;
    buf, types, values, mval := new char[|s| + 1](_ => '\0'), new nat[maxNe](_ => 0), new nat[maxNe](_ => 0), new int[maxNe](_ => 0);
    n, ok := 0, false;
    if s == [] || s[0] != '/' {
      return;
    }
    var sp: nat, bp: nat := 1, 0;
    mval[0] := 0;
    ghost var es: seq<Entry>, multi := [], false;
    NothingHeld(buf[..], types[..], values[..], mval[..]);
    EmptyPrepend(TakeEntries(s, 1, false, multirdn));
    while sp < |s|
      invariant n == |es| && 1 + 2 * n <= sp <= |s| && bp <= sp && (sp < |s| ==> bp < sp)
      invariant sp < |s| ==> mval[n] == if multi then -1 else 0
      invariant ParseName(s, multirdn) == Prepend(es, TakeEntries(s, sp, multi, multirdn))
      invariant Holds(es, buf[..], types[..], values[..], bp) && Flags(es, mval[..])
      decreases |s| - sp
    {
      TakeTurn(s, sp, multi, multirdn);
      ghost var e := TakeEntry(s, sp, multi, multirdn);
      var sep;
      ok, sp, bp, sep := CollectEntry(s, buf, types, values, mval, sp, bp, n, multirdn, es, multi);
      if !ok {
        return;
      }
      PrependMore(es, e.value.0, TakeEntries(s, sp, sep == Plus, multirdn));
      es, multi, n := es + [e.value.0], sep == Plus, n + 1;
    }
    TakeTurn(s, sp, multi, multirdn);
    HoldsStays(es, buf[..], buf[..], types[..], values[..], bp, buf.Length);
    assert es + [] == es;
    ok := true;
  }
}
