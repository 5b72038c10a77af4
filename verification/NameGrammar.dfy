/** The texts of distinguished names, character by character: any character may be escaped, and
    those with a meaning have to be.  `parse_name` accepts exactly these texts and gives back
    what they stand for. */
module NameGrammar {
  import opened NameParser
  import opened Options
  import opened Texts

  /** A character of a type or value, written plainly or behind a '\'. */
  datatype Ch = Ch(c: char, escaped: bool)

  /** A name element and what separates it from the next one. */
  datatype Elem = Elem(typ: seq<Ch>, value: seq<Ch>, sep: Separator)

  // ---------------------------------------------------------------- the grammar

  predicate ValidType(t: seq<Ch>) {
    forall i :: 0 <= i < |t| ==> t[i].escaped || (t[i].c != '\\' && t[i].c != '=')
  }

  predicate ValidValue(v: seq<Ch>, multirdn: bool) {
    forall i :: 0 <= i < |v| ==> v[i].escaped || (v[i].c != '\\' && v[i].c != '/' && !(v[i].c == '+' && multirdn))
  }

  /** Separated by '/' or, with `multirdn`, by '+'.  The last one may have a separator behind it
      too; only if it has none must its value not be empty. */
  predicate ValidElems(es: seq<Elem>, multirdn: bool) {
    && (forall i :: 0 <= i < |es| ==>
          ValidType(es[i].typ) && ValidValue(es[i].value, multirdn) && (es[i].sep == Plus ==> multirdn))
    && (forall i :: 0 <= i < |es| - 1 ==> es[i].sep != EndOfName)
    && (es != [] && es[|es| - 1].sep == EndOfName ==> es[|es| - 1].value != [])
  }

  function ChText(t: seq<Ch>): (s: string) {
    if t == [] then "" else (if t[0].escaped then ['\\', t[0].c] else [t[0].c]) + ChText(t[1..])
  }

  function Chars(t: seq<Ch>): (s: string) {
    if t == [] then "" else [t[0].c] + Chars(t[1..])
  }

  function SepText(sep: Separator): (s: string) {
    match sep
    case Slash => "/"
    case Plus => "+"
    case EndOfName => ""
  }

  function ElemText(e: Elem): (s: string) {
    (ChText(e.typ) + "=") + (ChText(e.value) + SepText(e.sep))
  }

  function ElemsText(es: seq<Elem>): (s: string) {
    if es == [] then "" else ElemText(es[0]) + ElemsText(es[1..])
  }

  /** What they stand for; an element behind a '+' belongs to the one before. */
  function Meaning(es: seq<Elem>, multi: bool): (r: seq<Entry>)
    decreases |es|
  {
    if es == [] then []
    else [Entry(Chars(es[0].typ), Chars(es[0].value), multi)] + Meaning(es[1..], es[0].sep == Plus)
  }

  // ---------------------------------------------------------------- texts are parsed

  lemma {:induction false} TypeReads(s: string, i: nat, acc: string, t: seq<Ch>)
    requires ValidType(t) && At(s, i, ChText(t) + "=")
    ensures TakeType(s, i, acc) == Some((acc + Chars(t), i + |ChText(t)| + 1))
    decreases |t|
  {
    hide At;
    if t == [] {
      AtChar(s, i, ChText(t) + "=", 0);
      assert acc + "" == acc;
    } else {
      var c := if t[0].escaped then ['\\', t[0].c] else [t[0].c];
      assert ChText(t) + "=" == c + (ChText(t[1..]) + "=");
      AtSplit(s, i, c, ChText(t[1..]) + "=");
      AtChar(s, i, c, 0);
      AtChar(s, i, c, |c| - 1);
      TypeReads(s, i + |c|, acc + [t[0].c], t[1..]);
      assert acc + [t[0].c] + Chars(t[1..]) == acc + Chars(t);
    }
  }

  lemma {:induction false} SepReads(s: string, i: nat, acc: string, sep: Separator, multirdn: bool)
    requires At(s, i, SepText(sep)) && (sep == Plus ==> multirdn) && (sep == EndOfName ==> i == |s|)
    ensures i <= |s| && TakeValue(s, i, acc, multirdn) == Some((acc, i + |SepText(sep)|, sep))
  {
  }

  lemma CharReads(s: string, i: nat, acc: string, c: Ch, multirdn: bool)
    requires ValidValue([c], multirdn) && At(s, i, if c.escaped then ['\\', c.c] else [c.c])
    ensures var k := i + if c.escaped then 2 else 1;
            k <= |s| && TakeValue(s, i, acc, multirdn) == TakeValue(s, k, acc + [c.c], multirdn)
  {
    assert [c][0] == c;
  }

  lemma {:induction false} ValueReads(s: string, i: nat, acc: string, t: seq<Ch>, sep: Separator, multirdn: bool)
    requires ValidValue(t, multirdn) && (sep == Plus ==> multirdn) && At(s, i, ChText(t) + SepText(sep))
    requires sep == EndOfName ==> i + |ChText(t)| == |s|
    ensures i <= |s| && TakeValue(s, i, acc, multirdn) == Some((acc + Chars(t), i + |ChText(t)| + |SepText(sep)|, sep))
    decreases |t|
  {
    hide At, TakeValue, SepText;
    AtSplit(s, i, ChText(t), SepText(sep));
    if t == [] {
      SepReads(s, i, acc, sep, multirdn);
      assert acc + "" == acc;
    } else {
      var c := if t[0].escaped then ['\\', t[0].c] else [t[0].c];
      assert ChText(t) + SepText(sep) == c + (ChText(t[1..]) + SepText(sep));
      AtSplit(s, i, c, ChText(t[1..]) + SepText(sep));
      CharReads(s, i, acc, t[0], multirdn);
      ValueReads(s, i + |c|, acc + [t[0].c], t[1..], sep, multirdn);
      assert acc + [t[0].c] + Chars(t[1..]) == acc + Chars(t);
    }
  }

  lemma ElemReads(s: string, i: nat, e: Elem, rest: string, multi: bool, multirdn: bool)
    requires ValidType(e.typ) && ValidValue(e.value, multirdn) && (e.sep == Plus ==> multirdn)
    requires At(s, i, ElemText(e) + rest) && (e.sep == EndOfName ==> rest == "" && i + |ElemText(e)| == |s|)
    ensures var j := i + |ElemText(e)|;
            && At(s, j, rest)
            && TakeEntry(s, i, multi, multirdn) ==
               if e.sep == EndOfName && e.value == [] then None
               else Some((Entry(Chars(e.typ), Chars(e.value), multi), j, e.sep))
  {
    hide At, ChText, TakeType, TakeValue, Chars;
    AtSplit(s, i, ElemText(e), rest);
    AtSplit(s, i, ChText(e.typ) + "=", ChText(e.value) + SepText(e.sep));
    TypeReads(s, i, "", e.typ);
    ValueReads(s, i + |ChText(e.typ)| + 1, "", e.value, e.sep, multirdn);
    assert "" + Chars(e.typ) == Chars(e.typ) && "" + Chars(e.value) == Chars(e.value);
    ChTextEmpty(e.value);
  }

  lemma {:induction false} ChTextEmpty(t: seq<Ch>)
    ensures ChText(t) == "" <==> t == []
  {
  }

  lemma {:induction false} ElemsRead(s: string, i: nat, es: seq<Elem>, multi: bool, multirdn: bool)
    requires ValidElems(es, multirdn) && At(s, i, ElemsText(es)) && i + |ElemsText(es)| == |s|
    ensures TakeEntries(s, i, multi, multirdn) == Some(Meaning(es, multi))
    decreases |es|
  {
    hide At, TakeEntry, ElemText, ValidType, ValidValue, Chars;
    if es != [] {
      var e, rest := es[0], ElemsText(es[1..]);
      if e.sep == EndOfName {
        assert es[1..] == [];
      }
      ElemReads(s, i, e, rest, multi, multirdn);
      ElemsRead(s, i + |ElemText(e)|, es[1..], e.sep == Plus, multirdn);
    }
  }

  /** Every text of the grammar is accepted and gives what it stands for. */
  lemma {:induction false} TextsParse(es: seq<Elem>, multirdn: bool)
    requires ValidElems(es, multirdn)
    ensures ParseName("/" + ElemsText(es), multirdn) == Some(Meaning(es, false))
  {
    hide At, ElemsText, TakeEntries;
    var s := "/" + ElemsText(es);
    AtStart(s);
    AtSplit(s, 0, "/", ElemsText(es));
    ElemsRead(s, 1, es, false, multirdn);
  }

  // ---------------------------------------------------------------- nothing else is

  lemma AtSlice(s: string, i: nat, j: nat)
    requires i <= j <= |s|
    ensures At(s, i, s[i..j])
  {
  }

  lemma AtJoin(s: string, i: nat, a: string, b: string)
    requires At(s, i, a) && At(s, i + |a|, b)
    ensures At(s, i, a + b)
  {
    assert s[i..i + |a| + |b|] == s[i..i + |a|] + s[i + |a|..i + |a| + |b|];
  }

  lemma {:induction false} TypeFound(s: string, i: nat, acc: string) returns (t: seq<Ch>)
    requires TakeType(s, i, acc).Some?
    ensures ValidType(t) && At(s, i, ChText(t) + "=")
    ensures TakeType(s, i, acc).value == (acc + Chars(t), i + |ChText(t)| + 1)
    decreases |s| - i
  {
    hide At, ChText, Chars;
    if s[i] == '=' {
      t := [];
      EmptyCh();
      AtSlice(s, i, i + 1);
      assert s[i..i + 1] == "" + "=" && acc + "" == acc;
    } else {
      var k := if s[i] == '\\' then i + 2 else i + 1;
      var c := Ch(s[k - 1], s[i] == '\\');
      var rest := TypeFound(s, k, acc + [c.c]);
      t := [c] + rest;
      Prepend(s, i, c, rest, "=", acc);
    }
  }

  lemma {:induction false} ValueFound(s: string, i: nat, acc: string, multirdn: bool) returns (t: seq<Ch>, sep: Separator)
    requires i <= |s| && TakeValue(s, i, acc, multirdn).Some?
    ensures ValidValue(t, multirdn) && At(s, i, ChText(t) + SepText(sep)) && (sep == Plus ==> multirdn)
    ensures TakeValue(s, i, acc, multirdn).value == (acc + Chars(t), i + |ChText(t)| + |SepText(sep)|, sep)
    ensures sep == EndOfName ==> i + |ChText(t)| == |s|
    decreases |s| - i
  {
    hide At, TakeValue, ChText, Chars;
    ValueTurn(s, i, acc, multirdn);
    if i == |s| || s[i] == '/' || (s[i] == '+' && multirdn) {
      t, sep := [], if i == |s| then EndOfName else if s[i] == '/' then Slash else Plus;
      EmptyCh();
      AtSlice(s, i, i + |SepText(sep)|);
      assert s[i..i + |SepText(sep)|] == "" + SepText(sep) && acc + "" == acc;
    } else {
      var k := if s[i] == '\\' then i + 2 else i + 1;
      var c := Ch(s[k - 1], s[i] == '\\');
      var rest;
      rest, sep := ValueFound(s, k, acc + [c.c], multirdn);
      t := [c] + rest;
      Prepend(s, i, c, rest, SepText(sep), acc);
    }
  }

  lemma ValueTurn(s: string, i: nat, acc: string, multirdn: bool)
    requires i <= |s|
    ensures i == |s| ==> TakeValue(s, i, acc, multirdn) == Some((acc, i, EndOfName))
    ensures i < |s| && s[i] == '/' ==> TakeValue(s, i, acc, multirdn) == Some((acc, i + 1, Slash))
    ensures i < |s| && s[i] == '+' && multirdn ==> TakeValue(s, i, acc, multirdn) == Some((acc, i + 1, Plus))
    ensures i < |s| && s[i] != '\\' && s[i] != '/' && !(s[i] == '+' && multirdn) ==>
              TakeValue(s, i, acc, multirdn) == TakeValue(s, i + 1, acc + [s[i]], multirdn)
    ensures i < |s| && s[i] == '\\' ==>
              TakeValue(s, i, acc, multirdn) == if i + 1 < |s| then TakeValue(s, i + 2, acc + [s[i + 1]], multirdn) else None
  {
  }

  lemma EmptyCh()
    ensures ChText([]) == "" && Chars([]) == ""
  {
  }

  /** One more character in front. */
  lemma {:induction false} Prepend(s: string, i: nat, c: Ch, rest: seq<Ch>, tail: string, acc: string)
    requires var k := if c.escaped then i + 2 else i + 1;
             k <= |s| && s[k - 1] == c.c && (c.escaped ==> s[i] == '\\') && At(s, k, ChText(rest) + tail)
    ensures At(s, i, ChText([c] + rest) + tail)
    ensures |ChText([c] + rest)| == |ChText(rest)| + if c.escaped then 2 else 1
    ensures acc + [c.c] + Chars(rest) == acc + Chars([c] + rest)
  {
    var k := if c.escaped then i + 2 else i + 1;
    assert ([c] + rest)[1..] == rest;
    AtSlice(s, i, k);
    assert s[i..k] == if c.escaped then ['\\', c.c] else [c.c];
    AtJoin(s, i, s[i..k], ChText(rest) + tail);
    assert s[i..k] + (ChText(rest) + tail) == ChText([c] + rest) + tail;
  }

  lemma ElemFound(s: string, i: nat, multi: bool, multirdn: bool) returns (e: Elem)
    requires TakeEntry(s, i, multi, multirdn).Some?
    ensures ValidType(e.typ) && ValidValue(e.value, multirdn) && (e.sep == Plus ==> multirdn) && At(s, i, ElemText(e))
    ensures TakeEntry(s, i, multi, multirdn).value == (Entry(Chars(e.typ), Chars(e.value), multi), i + |ElemText(e)|, e.sep)
    ensures e.sep == EndOfName ==> e.value != [] && i + |ElemText(e)| == |s|
  {
    hide At, TakeType, TakeValue, ChText, Chars;
    var t := TypeFound(s, i, "");
    var j := TakeType(s, i, "").value.1;
    var v, sep := ValueFound(s, j, "", multirdn);
    e := Elem(t, v, sep);
    assert "" + Chars(t) == Chars(t) && "" + Chars(v) == Chars(v);
    AtJoin(s, i, ChText(t) + "=", ChText(v) + SepText(sep));
    ChTextEmpty(v);
  }

  lemma {:induction false} ElemsFound(s: string, i: nat, multi: bool, multirdn: bool) returns (es: seq<Elem>)
    requires i <= |s| && TakeEntries(s, i, multi, multirdn).Some?
    ensures ValidElems(es, multirdn) && At(s, i, ElemsText(es)) && i + |ElemsText(es)| == |s|
    ensures TakeEntries(s, i, multi, multirdn).value == Meaning(es, multi)
    decreases |s| - i
  {
    hide At, TakeEntry, ElemText, ValidType, ValidValue, Chars;
    if i == |s| {
      es := [];
      AtSlice(s, i, i);
      assert s[i..i] == ElemsText(es);
    } else {
      var e := ElemFound(s, i, multi, multirdn);
      var rest := ElemsFound(s, i + |ElemText(e)|, e.sep == Plus, multirdn);
      if e.sep == EndOfName {
        NoText(rest);
      }
      es := [e] + rest;
      assert es[1..] == rest;
      AtJoin(s, i, ElemText(e), ElemsText(rest));
      assert forall k :: 1 <= k < |es| ==> es[k] == rest[k - 1];
    }
  }

  lemma {:induction false} NoText(es: seq<Elem>)
    requires ElemsText(es) == ""
    ensures es == []
  {
  }

  /** `parse_name` accepts a text with a given result if and only if it is the text of elements
      that stand for this result. */
  lemma AcceptsExactly(s: string, multirdn: bool, r: seq<Entry>)
    ensures ParseName(s, multirdn) == Some(r) <==>
            exists es :: ValidElems(es, multirdn) && s == "/" + ElemsText(es) && Meaning(es, false) == r
  {
    hide TakeEntries, ValidElems, ElemsText, Meaning;
    if ParseName(s, multirdn) == Some(r) {
      var es := ElemsFound(s, 1, false, multirdn);
      assert s == "/" + ElemsText(es);
    }
    forall es | ValidElems(es, multirdn) && s == "/" + ElemsText(es) && Meaning(es, false) == r
      ensures ParseName(s, multirdn) == Some(r)
    {
      TextsParse(es, multirdn);
    }
  }

  // ---------------------------------------------------------------- round trip and refusals

  /** A string with the characters of `esc` escaped. */
  function Marked(t: string, esc: set<char>): (r: seq<Ch>) {
    seq(|t|, i requires 0 <= i < |t| => Ch(t[i], t[i] in esc))
  }

  lemma {:induction false} MarkedChars(t: string, esc: set<char>)
    ensures Chars(Marked(t, esc)) == t
    decreases |t|
  {
    if t != [] {
      assert Marked(t, esc)[1..] == Marked(t[1..], esc);
      MarkedChars(t[1..], esc);
      assert t == [t[0]] + t[1..];
    }
  }

  /** A list of elements, printed with at least the characters that have a meaning escaped. */
  function Printed(es: seq<Entry>, escT: set<char>, escV: set<char>): (r: seq<Elem>) {
    seq(|es|, i requires 0 <= i < |es| =>
      Elem(Marked(es[i].typ, escT), Marked(es[i].value, escV),
           if i + 1 == |es| then EndOfName else if es[i + 1].multi then Plus else Slash))
  }

  function PrintName(es: seq<Entry>, escT: set<char>, escV: set<char>): (s: string) {
    "/" + ElemsText(Printed(es, escT, escV))
  }

  lemma {:induction false} PrintedMeans(es: seq<Entry>, escT: set<char>, escV: set<char>)
    ensures Meaning(Printed(es, escT, escV), es != [] && es[0].multi) == es
    decreases |es|
  {
    if es != [] {
      var p := Printed(es, escT, escV);
      assert p[1..] == Printed(es[1..], escT, escV);
      MarkedChars(es[0].typ, escT);
      MarkedChars(es[0].value, escV);
      PrintedMeans(es[1..], escT, escV);
      assert es == [es[0]] + es[1..];
      if |es| > 1 {
        assert (p[0].sep == Plus) == es[1].multi;
      } else {
        assert es[1..] == [] && p[1..] == [];
      }
    }
  }

  /** Every list whose first element is not joined, and whose last value is not empty, comes
      back from its printed form. */
  lemma ParsePrinted(es: seq<Entry>, escT: set<char>, escV: set<char>, multirdn: bool)
    requires {'\\', '='} <= escT && {'\\', '/'} <= escV && (multirdn ==> '+' in escV)
    requires (es != [] ==> !es[0].multi && es[|es| - 1].value != "") && (!multirdn ==> forall i :: 0 <= i < |es| ==> !es[i].multi)
    ensures ParseName(PrintName(es, escT, escV), multirdn) == Some(es)
  {
    hide ParseName, ElemsText, Meaning;
    PrintedMeans(es, escT, escV);
    TextsParse(Printed(es, escT, escV), multirdn);
  }

  lemma NoSlash(s: string, multirdn: bool)
    requires s == [] || s[0] != '/'
    ensures ParseName(s, multirdn) == None
  {
  }

  lemma {:induction false} TypeEnds(s: string, i: nat, acc: string, t: seq<Ch>, end: string)
    requires ValidType(t) && At(s, i, ChText(t) + end) && i + |ChText(t) + end| == |s|
    requires end == "" || end == "=" || end == "\\"
    ensures TakeType(s, i, acc).None? || (end == "=" && TakeType(s, i, acc).value.1 == |s|)
    decreases |t|
  {
    hide At;
    if t == [] {
      if end != "" {
        AtChar(s, i, ChText(t) + end, 0);
      }
    } else {
      var c := if t[0].escaped then ['\\', t[0].c] else [t[0].c];
      assert ChText(t) + end == c + (ChText(t[1..]) + end);
      AtSplit(s, i, c, ChText(t[1..]) + end);
      AtChar(s, i, c, 0);
      AtChar(s, i, c, |c| - 1);
      TypeEnds(s, i + |c|, acc + [t[0].c], t[1..], end);
    }
  }

  lemma {:induction false} ElemsThenEnd(s: string, i: nat, es: seq<Elem>, t: seq<Ch>, end: string, multi: bool, multirdn: bool)
    requires ValidElems(es, multirdn) && (es != [] ==> es[|es| - 1].sep != EndOfName) && ValidType(t)
    requires At(s, i, ElemsText(es) + (ChText(t) + end)) && i + |ElemsText(es) + (ChText(t) + end)| == |s|
    requires (end == "" && ChText(t) != "") || end == "=" || end == "\\"
    ensures TakeEntries(s, i, multi, multirdn) == None
    decreases |es|
  {
    hide At, TakeEntry, ElemText, ValidType, ValidValue, Chars, ChText;
    if es == [] {
      assert ElemsText(es) + (ChText(t) + end) == ChText(t) + end;
      TypeEnds(s, i, "", t, end);
      NoEntry(s, i, multi, multirdn);
    } else {
      var rest := ElemsText(es[1..]) + (ChText(t) + end);
      assert ElemsText(es) + (ChText(t) + end) == ElemText(es[0]) + rest;
      ElemReads(s, i, es[0], rest, multi, multirdn);
      ElemsThenEnd(s, i + |ElemText(es[0])|, es[1..], t, end, es[0].sep == Plus, multirdn);
    }
  }

  lemma {:induction false} NoEntry(s: string, i: nat, multi: bool, multirdn: bool)
    requires TakeType(s, i, "").None? || TakeType(s, i, "").value.1 == |s|
    ensures TakeEntry(s, i, multi, multirdn) == None
  {
  }

  /** A name whose last element has no '=', nothing behind it, or ends in a '\\' is refused. */
  lemma {:induction false} BadEnd(es: seq<Elem>, t: seq<Ch>, end: string, multirdn: bool)
    requires ValidElems(es, multirdn) && (es != [] ==> es[|es| - 1].sep != EndOfName) && ValidType(t)
    requires (end == "" && ChText(t) != "") || end == "=" || end == "\\"
    ensures ParseName("/" + (ElemsText(es) + (ChText(t) + end)), multirdn) == None
  {
    hide At, ElemsText, ChText, TakeEntries;
    var s := "/" + (ElemsText(es) + (ChText(t) + end));
    AtStart(s);
    AtSplit(s, 0, "/", ElemsText(es) + (ChText(t) + end));
    ElemsThenEnd(s, 1, es, t, end, false, multirdn);
  }
}
