/** The policy check of the example CA: which entries of the requested name make up the
    subject of the certificate, and whether the request is acceptable at all.
    X509 names are sequences of entries; an entry has an object type and a value. */
module Policy {
  import opened Entries
  import opened Options

  type Name = seq<Entry>

  datatype Kind = Optional | Supplied | Match | Unknown

  /** A line of the policy section; `obj` is None for a type OpenSSL does not know. */
  datatype Rule = Rule(obj: Option<nat>, kind: Kind)

  // ---------------------------------------------------------------- the specification

  predicate RuleAccepts(rule: Rule, name: Name, ca: Name) {
    && rule.obj.Some? && rule.kind != Unknown
    && (rule.kind == Supplied || rule.kind == Match ==> Of(name, rule.obj.value) != [])
    && (rule.kind == Match ==> forall e :: e in name && e.obj == rule.obj.value ==> e in ca)
  }

  predicate Accepts(policy: seq<Rule>, name: Name, ca: Name) {
    forall i :: 0 <= i < |policy| ==> RuleAccepts(policy[i], name, ca)
  }

  /** In policy order, the request's entries of each listed type. */
  function Subject(policy: seq<Rule>, name: Name): (r: Name)
    requires forall i :: 0 <= i < |policy| ==> policy[i].obj.Some?
  {
    if policy == [] then []
    else Subject(policy[..|policy| - 1], name) + Of(name, policy[|policy| - 1].obj.value)
  }

  /** The subject of a longer policy is that of its first part followed by that of the rest,
      and a single line gives the request's entries of its type in their order. */
  lemma {:induction false} SubjectInOrder(p: seq<Rule>, q: seq<Rule>, name: Name)
    requires forall i :: 0 <= i < |p + q| ==> (p + q)[i].obj.Some?
    requires (forall i :: 0 <= i < |p| ==> p[i].obj.Some?) && (forall i :: 0 <= i < |q| ==> q[i].obj.Some?)
    ensures Subject(p + q, name) == Subject(p, name) + Subject(q, name)
    ensures |p| == 1 ==> Subject(p, name) == Of(name, p[0].obj.value)
    decreases |q|
  {
    hide Of;
    if q == [] {
      assert p + q == p;
    } else {
      assert (p + q)[..|p + q| - 1] == p + q[..|q| - 1];
      SubjectInOrder(p, q[..|q| - 1], name);
    }
    if |p| == 1 {
      assert p[..0] == [];
    }
  }

  // ---------------------------------------------------------------- the C code

  /** `X509_NAME_get_index_by_OBJ`: the next entry of the type behind `last`, or -1. */
  method IndexByObj(name: Name, obj: nat, last: int) returns (j: int)
    requires -1 <= last < |name| || (last == -1 && name == [])
    ensures j == -1 || last < j < |name|
    ensures j != -1 ==> name[j].obj == obj
    ensures forall k :: last < k < (if j == -1 then |name| else j) ==> name[k].obj != obj
  {
    j := last + 1;
    while j < |name|
      invariant last < j <= |name|
      invariant forall k :: last < k < j ==> name[k].obj != obj
    {
      if name[j].obj == obj {
        return;
      }
      j := j + 1;
    }
    j := -1;
  }

  /** The search from label `again2`: an entry of the CA's name that equals `tne`. */
  method MatchInCa(tne: Entry, ca: Name, obj: nat) returns (ok: bool, push: Entry)
    requires tne.obj == obj
    ensures ok <==> tne in ca
    ensures ok ==> push == tne
  {
    push := tne;
    var last2 := -1;
    while true
      invariant -1 <= last2 < |ca| || (last2 == -1 && ca == [])
      invariant forall k :: 0 <= k <= last2 ==> ca[k] != tne
      decreases |ca| - last2
    {
      var j := IndexByObj(ca, obj, last2);
      if j < 0 && last2 == -1 {
        return false, push;
      }
      if j >= 0 {
        push := ca[j];
        last2 := j;
        if tne.data != push.data {
          continue;
        }
      }
      if j < 0 {
        return false, push;
      }
      return true, push;
    }
  }

  /** What one entry (or the absence of any) means under a policy: refuse it, or push it. */
  method Decide(kind: Kind, tne: Option<Entry>, ca: Name, obj: nat) returns (ok: bool, push: Option<Entry>)
    requires tne.Some? ==> tne.value.obj == obj
    ensures ok == (kind == Optional || (kind == Supplied && tne.Some?) || (kind == Match && tne.Some? && tne.value in ca))
    ensures ok ==> push == tne
  {
    push := None;
    if kind == Optional {
      if tne.Some? {
        push := tne;
      }
    } else if kind == Supplied {
      if tne.None? {
        return false, None;
      }
      push := tne;
    } else if kind == Match {
      if tne.None? {
        return false, None;
      }
      var found, p := MatchInCa(tne.value, ca, obj);
      if !found {
        return false, None;
      }
      push := Some(p);
    } else {
      return false, None;
    }
    return true, push;
  }

  /** One line of the policy: the loop over the matching entries of the request. */
  method ApplyRule(rule: Rule, name: Name, ca: Name, subject0: Name) returns (ok: bool, subject: Name)
    ensures ok == RuleAccepts(rule, name, ca)
    ensures ok ==> subject == subject0 + Of(name, rule.obj.value)
  {
    hide Of;
    subject := subject0;
    if rule.obj.None? {
      return false, subject;
    }
    var obj := rule.obj.value;
    OfMembers(name, obj);
    OfMembers(name[..0], obj);
    var last := -1;
    while true
      invariant last == -1 || (0 <= last < |name| && name[last].obj == obj && rule.kind != Unknown)
      invariant subject == subject0 + Of(name[..last + 1], obj)
      invariant rule.kind == Match ==> forall k :: 0 <= k <= last && name[k].obj == obj ==> name[k] in ca
      decreases |name| - last
    {
      var j := IndexByObj(name, obj, last);
      var tne: Option<Entry>;
      if j < 0 {
        OfEnd(name, obj, last + 1);
        if last != -1 {
          break;
        }
        tne := None;
      } else {
        tne := Some(name[j]);
        OfNext(name, obj, last + 1, j);
      }
      last := j;
      var fine, push := Decide(rule.kind, tne, ca, obj);
      if !fine {
        return false, subject;
      }
      if push.Some? {
        subject := subject + [push.value];
      }
      if j < 0 {
        break;
      }
    }
    return true, subject;
  }

  /** The policy loop: it accepts exactly what the policy allows, and then builds exactly the
      subject the policy describes. */
  method CheckPolicy(policy: seq<Rule>, name: Name, ca: Name) returns (ok: bool, subject: Name)
    ensures ok == Accepts(policy, name, ca)
    ensures ok <==> forall i :: 0 <= i < |policy| ==>
              && policy[i].obj.Some? && policy[i].kind in {Optional, Supplied, Match}
              && (policy[i].kind != Optional ==> exists e :: e in name && e.obj == policy[i].obj.value)
              && (policy[i].kind == Match ==> forall e :: e in name && e.obj == policy[i].obj.value ==> e in ca)
    ensures ok ==> subject == Subject(policy, name)
  {
    forall i | 0 <= i < |policy| && policy[i].obj.Some?
      ensures Of(name, policy[i].obj.value) != [] <==> exists e :: e in name && e.obj == policy[i].obj.value
    {
      OfMembers(name, policy[i].obj.value);
    }
    hide Of;
    subject := [];
    var i := 0;
    while i < |policy|
      invariant 0 <= i <= |policy|
      invariant Accepts(policy[..i], name, ca) && subject == Subject(policy[..i], name)
    {
      assert policy[..i + 1][..i] == policy[..i];
      ok, subject := ApplyRule(policy[i], name, ca, subject);
      if !ok {
        return;
      }
      assert Accepts(policy[..i + 1], name, ca);
      i := i + 1;
    }
    assert policy[..|policy|] == policy;
    ok := true;
  }
}
