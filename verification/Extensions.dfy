/** `copy_extensions` of the example CA: extensions of a request are copied into the
    certificate, either only where the type is missing or replacing what is there. */
module Extensions {
  import opened Entries

  datatype CopyType = CopyNone | CopyAdd | CopyAll

  // ---------------------------------------------------------------- the specification

  /** The first occurrence in the request of every type that the certificate lacks. */
  function Missing(x: seq<Entry>, req: seq<Entry>): (r: seq<Entry>) {
    if req == [] then []
    else
      var before, e := req[..|req| - 1], req[|req| - 1];
      Missing(x, before) + if Has(x, e.obj) || Has(before, e.obj) then [] else [e]
  }

  /** The entries whose type does not occur in `types`. */
  function Others(x: seq<Entry>, types: seq<Entry>): (r: seq<Entry>) {
    if x == [] then []
    else (if Has(types, x[0].obj) then [] else [x[0]]) + Others(x[1..], types)
  }

  /** The last occurrence of every type. */
  function Lasts(req: seq<Entry>): (r: seq<Entry>) {
    if req == [] then []
    else (if Has(req[1..], req[0].obj) then [] else [req[0]]) + Lasts(req[1..])
  }

  function Copied(x: seq<Entry>, req: seq<Entry>, how: CopyType): (r: seq<Entry>) {
    match how
    case CopyNone => x
    case CopyAdd => x + Missing(x, req)
    case CopyAll => Others(x, req) + Lasts(req)
  }

  // ---------------------------------------------------------------- what the result holds, type by type

  lemma {:induction false} MissingOf(x: seq<Entry>, req: seq<Entry>, obj: nat)
    ensures Of(Missing(x, req), obj) == if Has(x, obj) || !Has(req, obj) then [] else [Of(req, obj)[0]]
    decreases |req|
  {
    if req != [] {
      var before, e := req[..|req| - 1], req[|req| - 1];
      MissingOf(x, before, obj);
      OfConcat(Missing(x, before), if Has(x, e.obj) || Has(before, e.obj) then [] else [e], obj);
      OfOne(e, obj);
    }
  }

  lemma {:induction false} OthersOf(x: seq<Entry>, types: seq<Entry>, obj: nat)
    ensures Of(Others(x, types), obj) == if Has(types, obj) then [] else Of(x, obj)
    decreases |x|
  {
    if x != [] {
      OthersOf(x[1..], types, obj);
      OfConcat(if Has(types, x[0].obj) then [] else [x[0]], Others(x[1..], types), obj);
      OfConcat([x[0]], x[1..], obj);
      assert [x[0]] + x[1..] == x;
      OfOne(x[0], obj);
    }
  }

  lemma {:induction false} LastsOf(req: seq<Entry>, obj: nat)
    ensures Of(Lasts(req), obj) == if Has(req, obj) then [Of(req, obj)[|Of(req, obj)| - 1]] else []
    decreases |req|
  {
    if req != [] {
      LastsOf(req[1..], obj);
      var a := if Has(req[1..], req[0].obj) then [] else [req[0]];
      OfConcat(a, Lasts(req[1..]), obj);
      OfConcat([req[0]], req[1..], obj);
      assert [req[0]] + req[1..] == req;
      OfOne(req[0], obj);
    }
  }

  /** For every type: adding keeps what is there and otherwise takes the first occurrence in the
      request; copying all leaves exactly one entry, the last occurrence in the request, and
      touches no other type. */
  lemma {:induction false} CopiedOf(x: seq<Entry>, req: seq<Entry>, obj: nat)
    ensures Of(Copied(x, req, CopyAdd), obj) ==
            (if Has(x, obj) || !Has(req, obj) then Of(x, obj) else [Of(req, obj)[0]])
    ensures Of(Copied(x, req, CopyAll), obj) ==
            (if Has(req, obj) then [Of(req, obj)[|Of(req, obj)| - 1]] else Of(x, obj))
    ensures Copied(x, req, CopyNone) == x <= Copied(x, req, CopyAdd)
  {
    hide Missing, Others, Lasts;
    MissingOf(x, req, obj);
    OthersOf(x, req, obj);
    LastsOf(req, obj);
    OfConcat(x, Missing(x, req), obj);
    OfConcat(Others(x, req), Lasts(req), obj);
  }

  // ---------------------------------------------------------------- one more request entry

  lemma {:induction false} OthersMore(x: seq<Entry>, types: seq<Entry>, e: Entry)
    ensures Others(Others(x, types), [e]) == Others(x, types + [e])
    decreases |x|
  {
    hide Has;
    if x != [] {
      OthersMore(x[1..], types, e);
      HasConcat(types, [e], x[0].obj);
      var a := if Has(types, x[0].obj) then [] else [x[0]];
      OthersConcat(a, Others(x[1..], types), [e]);
      OthersOne(x[0], e);
    }
  }

  lemma OthersOne(x: Entry, e: Entry)
    ensures Others([x], [e]) == if Has([e], x.obj) then [] else [x]
    ensures Has([e], x.obj) <==> e.obj == x.obj
  {
    assert [x][1..] == [];
    HasOne(e, x.obj);
  }

  lemma {:induction false} OthersConcat(a: seq<Entry>, b: seq<Entry>, types: seq<Entry>)
    ensures Others(a + b, types) == Others(a, types) + Others(b, types)
    decreases |a|
  {
    hide Has;
    if a == [] {
      assert a + b == b;
    } else {
      assert (a + b)[1..] == a[1..] + b;
      OthersConcat(a[1..], b, types);
    }
  }

  lemma {:induction false} LastsMore(req: seq<Entry>, e: Entry)
    ensures Lasts(req + [e]) == Others(Lasts(req), [e]) + [e]
    decreases |req|
  {
    if req == [] {
      assert req + [e] == [e] && [e][1..] == [];
    } else {
      hide Has, Others;
      assert (req + [e])[1..] == req[1..] + [e];
      LastsMore(req[1..], e);
      var a := if Has(req[1..], req[0].obj) then [] else [req[0]];
      OthersConcat(a, Lasts(req[1..]), [e]);
      HasConcat(req[1..], [e], req[0].obj);
      OthersOne(req[0], e);
      OthersNone(e);
    }
  }

  lemma OthersNone(e: Entry)
    ensures Others([], [e]) == []
  {
  }

  // ---------------------------------------------------------------- the C code

  class Certificate {
    var exts: seq<Entry>

    /** `X509_get_ext_by_OBJ(x, obj, -1)` */
    method GetExtByObj(obj: nat) returns (idx: int)
      ensures idx == -1 <==> !Has(exts, obj)
      ensures idx != -1 ==> 0 <= idx < |exts| && exts[idx].obj == obj && forall k :: 0 <= k < idx ==> exts[k].obj != obj
    {
      idx := 0;
      while idx < |exts|
        invariant 0 <= idx <= |exts|
        invariant forall k :: 0 <= k < idx ==> exts[k].obj != obj
      {
        if exts[idx].obj == obj {
          OfMembers(exts, obj);
          return;
        }
        idx := idx + 1;
      }
      idx := -1;
      OfMembers(exts, obj);
    }

    /** The do-while loop that deletes every extension of the type of `e`. */
    method DeleteAll(e: Entry, first: int)
      requires 0 <= first < |exts| && exts[first].obj == e.obj
      modifies this
      ensures exts == Others(old(exts), [e])
    {
      var idx := first;
      OfMembers(exts, e.obj);
      assert exts[first] in exts;
      while idx != -1
        invariant idx == -1 <==> !Has(exts, e.obj)
        invariant idx != -1 ==> 0 <= idx < |exts| && exts[idx].obj == e.obj
        invariant Others(exts, [e]) == Others(old(exts), [e])
        decreases |exts|
      {
        DropOne(exts, idx, e);
        exts := exts[..idx] + exts[idx + 1..];
        idx := GetExtByObj(e.obj);
      }
      NothingToDrop(exts, e);
    }

    method CopyExtensions(req: seq<Entry>, how: CopyType)
      modifies this
      ensures exts == Copied(old(exts), req, how)
    {
      hide Missing, Others, Lasts;
      if how == CopyNone {
        return;
      }
      var i := 0;
      StartCopy(exts, how);
      while i < |req|
        invariant 0 <= i <= |req|
        invariant exts == Copied(old(exts), req[..i], how)
      {
        var ext := req[i];
        ghost var x, before := old(exts), req[..i];
        assert req[..i + 1] == before + [ext];
        CopyMore(x, before, ext);
        var idx := GetExtByObj(ext.obj);
        NothingToDropAt(exts, ext);
        i := i + 1;
        if idx != -1 {
          if how == CopyAdd {
            continue;
          }
          DeleteAll(ext, idx);
        }
        exts := exts + [ext];
      }
      assert req[..|req|] == req;
    }
  }

  lemma {:induction false} NothingToDrop(x: seq<Entry>, e: Entry)
    requires !Has(x, e.obj)
    ensures Others(x, [e]) == x
    decreases |x|
  {
    hide Has;
    if x != [] {
      assert [x[0]] + x[1..] == x;
      HasConcat([x[0]], x[1..], e.obj);
      HasOne(x[0], e.obj);
      HasOne(e, x[0].obj);
      NothingToDrop(x[1..], e);
    }
  }

  lemma {:induction false} NothingToDropAt(x: seq<Entry>, e: Entry)
    ensures !Has(x, e.obj) ==> Others(x, [e]) == x
  {
    if !Has(x, e.obj) {
      NothingToDrop(x, e);
    }
  }

  lemma {:induction false} DropOne(x: seq<Entry>, idx: nat, e: Entry)
    requires idx < |x| && x[idx].obj == e.obj
    ensures Others(x[..idx] + x[idx + 1..], [e]) == Others(x, [e])
  {
    hide Others, Has;
    var a, b := x[..idx], x[idx + 1..];
    OthersConcat(a, b, [e]);
    OthersConcat(a, [x[idx]] + b, [e]);
    OthersConcat([x[idx]], b, [e]);
    assert a + ([x[idx]] + b) == x;
    OthersOne(x[idx], e);
  }

  lemma StartCopy(x: seq<Entry>, how: CopyType)
    ensures Copied(x, [], how) == x
  {
    if how == CopyAll {
      NoTypes(x);
    }
  }

  lemma {:induction false} NoTypes(x: seq<Entry>)
    ensures Others(x, []) == x
    decreases |x|
  {
    if x != [] {
      NoTypes(x[1..]);
      assert [x[0]] + x[1..] == x;
    }
  }

  /** How one more request entry changes the specified result. */
  lemma CopyMore(x: seq<Entry>, before: seq<Entry>, e: Entry)
    ensures Copied(x, before + [e], CopyAdd) ==
            (var y := Copied(x, before, CopyAdd); if Has(y, e.obj) then y else y + [e])
    ensures Copied(x, before + [e], CopyAll) == Others(Copied(x, before, CopyAll), [e]) + [e]
  {
    hide Has, Others, Lasts;
    assert (before + [e])[..|before|] == before;
    HasAdded(x, before, e.obj);
    OthersConcat(Others(x, before), Lasts(before), [e]);
    OthersMore(x, before, e);
    LastsMore(before, e);
  }

  lemma {:induction false} HasAdded(x: seq<Entry>, req: seq<Entry>, obj: nat)
    ensures Has(x + Missing(x, req), obj) <==> Has(x, obj) || Has(req, obj)
  {
    HasConcat(x, Missing(x, req), obj);
    MissingOf(x, req, obj);
  }
}
