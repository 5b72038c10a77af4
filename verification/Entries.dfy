/** Sequences of entries that have an object type: X509 names and X509 extension lists. */
module Entries {

  datatype Entry = Entry(obj: nat, data: string)

  /** The entries of one type, in order. */
  function Of(es: seq<Entry>, obj: nat): (r: seq<Entry>) {
    if es == [] then []
    else
      var e := es[|es| - 1];
      Of(es[..|es| - 1], obj) + if e.obj == obj then [e] else []
  }

  /** `Of` is what it says: exactly the entries of that type. */
  lemma {:induction false} OfMembers(es: seq<Entry>, obj: nat)
    ensures forall e :: e in Of(es, obj) <==> e in es && e.obj == obj
    ensures Of(es, obj) == [] <==> forall e :: e in es ==> e.obj != obj
  {
    if es != [] {
      OfMembers(es[..|es| - 1], obj);
      assert es == es[..|es| - 1] + [es[|es| - 1]];
      assert es[|es| - 1] in es;
    }
  }

  /** Entries of other types do not matter. */
  lemma {:induction false} OfSkips(es: seq<Entry>, obj: nat, a: nat, b: nat)
    requires a <= b <= |es| && forall k :: a <= k < b ==> es[k].obj != obj
    ensures Of(es[..b], obj) == Of(es[..a], obj)
    decreases b
  {
    if a < b {
      OfSkips(es, obj, a, b - 1);
      assert es[..b][..b - 1] == es[..b - 1];
    }
  }

  /** The next entry of the type, at `j`, is the next one listed. */
  lemma {:induction false} OfNext(es: seq<Entry>, obj: nat, a: nat, j: nat)
    requires a <= j < |es| && es[j].obj == obj && forall k :: a <= k < j ==> es[k].obj != obj
    ensures Of(es[..j + 1], obj) == Of(es[..a], obj) + [es[j]]
  {
    OfSkips(es, obj, a, j);
    assert es[..j + 1][..j] == es[..j];
  }

  lemma {:induction false} OfEnd(es: seq<Entry>, obj: nat, a: nat)
    requires a <= |es| && forall k :: a <= k < |es| ==> es[k].obj != obj
    ensures Of(es[..a], obj) == Of(es, obj)
  {
    OfSkips(es, obj, a, |es|);
    assert es[..|es|] == es;
  }

  lemma {:induction false} OfConcat(a: seq<Entry>, b: seq<Entry>, obj: nat)
    ensures Of(a + b, obj) == Of(a, obj) + Of(b, obj)
    decreases |b|
  {
    if b == [] {
      assert a + b == a;
    } else {
      assert (a + b)[..|a + b| - 1] == a + b[..|b| - 1];
      OfConcat(a, b[..|b| - 1], obj);
    }
  }

  predicate Has(es: seq<Entry>, obj: nat) {
    Of(es, obj) != []
  }

  lemma {:induction false} OfOne(e: Entry, obj: nat)
    ensures Of([e], obj) == if e.obj == obj then [e] else []
  {
  }

  lemma HasConcat(a: seq<Entry>, b: seq<Entry>, obj: nat)
    ensures Has(a + b, obj) <==> Has(a, obj) || Has(b, obj)
  {
    OfConcat(a, b, obj);
  }

  lemma HasOne(e: Entry, obj: nat)
    ensures Has([e], obj) <==> e.obj == obj
  {
    OfOne(e, obj);
  }
}
