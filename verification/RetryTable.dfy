/** The table of the example server that makes a client ask twice: a singly linked list of
    the public keys seen once.  Decoding a request is OpenSSL's business; a request that does
    not decode has no key. */
module RetryTable {
  import opened Options

  type Key = seq<int>

  // ---------------------------------------------------------------- comparing keys

  /** `memcmp` on keys of one length: the sign of the first difference. */
  function MemCmp(a: Key, b: Key): (r: int)
    requires |a| == |b|
    decreases |a|
  {
    if a == [] then 0 else if a[0] > b[0] then 1 else if a[0] < b[0] then -1 else MemCmp(a[1..], b[1..])
  }

  function Compare(a: Key, b: Key): (r: int) {
    if |a| > |b| then 1 else if |a| < |b| then -1 else MemCmp(a, b)
  }

  lemma {:induction false} MemCmpEqual(a: Key, b: Key)
    requires |a| == |b|
    ensures MemCmp(a, b) == 0 <==> a == b
    ensures MemCmp(a, b) == -MemCmp(b, a)
    decreases |a|
  {
    if a != [] {
      MemCmpEqual(a[1..], b[1..]);
      assert a == [a[0]] + a[1..] && b == [b[0]] + b[1..];
    }
  }

  lemma CompareEqual(a: Key, b: Key)
    ensures Compare(a, b) == 0 <==> a == b
  {
    if |a| == |b| {
      MemCmpEqual(a, b);
    }
  }

  // ---------------------------------------------------------------- the abstract table

  /** The keys after a request, and its answer: 1 lets the enrollment go on, 0 asks for a retry. */
  function Toggle(keys: set<Key>, request: Option<Key>): (r: (int, set<Key>)) {
    if request.None? then (1, keys)
    else if request.value in keys then (1, keys - {request.value})
    else (0, keys + {request.value})
  }

  function RunTable(keys: set<Key>, requests: seq<Option<Key>>): (r: set<Key>)
    decreases |requests|
  {
    if requests == [] then keys
    else Toggle(RunTable(keys, requests[..|requests| - 1]), requests[|requests| - 1]).1
  }

  function Times(requests: seq<Option<Key>>, k: Key): (n: nat) {
    if requests == [] then 0
    else Times(requests[..|requests| - 1], k) + if requests[|requests| - 1] == Some(k) then 1 else 0
  }

  /** Over any run from the empty table, the i-th request is answered 0 and 1 alternately for
      its key, whatever other requests come in between; undecodable requests are let through. */
  lemma {:induction false} AnswersAlternate(requests: seq<Option<Key>>, request: Option<Key>)
    ensures Toggle(RunTable({}, requests), request).0 ==
            if request.None? then 1 else Times(requests, request.value) % 2
  {
    if request.Some? {
      Parity(requests, request.value);
    }
  }

  lemma {:induction false} Parity(requests: seq<Option<Key>>, k: Key)
    ensures k in RunTable({}, requests) <==> Times(requests, k) % 2 == 1
    decreases |requests|
  {
    if requests != [] {
      Parity(requests[..|requests| - 1], k);
    }
  }

  // ---------------------------------------------------------------- the linked list

  class Node {
    const data: Key
    var next: Node?

    constructor (data: Key)
      ensures this.data == data && next == null
    {
      this.data := data;
      next := null;
    }
  }

  class Table {
    var root: Node?
    ghost var nodes: seq<Node>

    /** `nodes` is the list from `root` on: it ends, and no node or key occurs twice. */
    ghost predicate Valid()
      reads this, nodes
    {
      && IsList()
      && (forall i, j :: 0 <= i < j < |nodes| ==> nodes[i].data != nodes[j].data)
    }

    ghost predicate IsList()
      reads this, nodes
    {
      && (root == if nodes == [] then null else nodes[0])
      && (forall i {:trigger nodes[i].next} :: 0 <= i < |nodes| ==>
            nodes[i].next == if i + 1 < |nodes| then nodes[i + 1] else null)
      && (forall i, j :: 0 <= i < j < |nodes| ==> nodes[i] != nodes[j])
    }

    ghost function Keys(): (s: set<Key>)
      reads this
    {
      set i | 0 <= i < |nodes| :: nodes[i].data
    }

    constructor ()
      ensures Valid() && nodes == [] && Keys() == {}
    {
      root, nodes := null, [];
    }

    /** `search_list` */
    method Search(target: Key) returns (tmp: Node?)
      requires Valid()
      ensures tmp != null <==> target in Keys()
      ensures tmp != null ==> tmp in nodes && tmp.data == target
    {
      tmp := root;
      ghost var i := 0;
      while tmp != null && Compare(tmp.data, target) != 0
        invariant 0 <= i <= |nodes| && tmp == if i < |nodes| then nodes[i] else null
        invariant forall k :: 0 <= k < i ==> nodes[k].data != target
        decreases |nodes| - i
      {
        CompareEqual(tmp.data, target);
        tmp := tmp.next;
        i := i + 1;
      }
      if tmp != null {
        CompareEqual(tmp.data, target);
      }
    }

    /** `delete_lookup_entry`, whose result becomes the new root: NULL if the key is missing. */
    method Delete(target: Key)
      requires Valid()
      modifies this, nodes
      ensures Valid() && Keys() == if target in old(Keys()) then old(Keys()) - {target} else {}
    {
      var tmp: Node? := root;
      var prev: Node? := null;
      ghost var i := 0;
      while tmp != null && Compare(tmp.data, target) != 0
        invariant 0 <= i <= |nodes| && tmp == if i < |nodes| then nodes[i] else null
        invariant prev == if i == 0 then null else nodes[i - 1]
        invariant forall k :: 0 <= k < i ==> nodes[k].data != target
        invariant Valid() && nodes == old(nodes)
        decreases |nodes| - i
      {
        CompareEqual(tmp.data, target);
        prev := tmp;
        tmp := tmp.next;
        i := i + 1;
      }
      if tmp == null {
        root, nodes := null, [];
        return;
      }
      CompareEqual(tmp.data, target);
      if tmp == root {
        root := root.next;
      } else {
        prev.next := tmp.next;
      }
      nodes := nodes[..i] + nodes[i + 1..];
      KeysWithout(old(nodes), i);
    }

    /** `add_entry`: to the end of a list that is not empty.  It does not look at the keys;
        they stay different exactly if the new one is not there yet. */
    method Append(n: Node)
      requires IsList() && nodes != [] && n !in nodes && n.next == null
      modifies this, nodes
      ensures IsList() && nodes == old(nodes) + [n]
      ensures old(Valid()) ==> (Valid() <==> n.data !in old(Keys()))
    {
      var tmp := root;
      ghost var i := 0;
      while tmp.next != null
        invariant 0 <= i < |nodes| && tmp == nodes[i]
        decreases |nodes| - i
      {
        tmp := tmp.next;
        i := i + 1;
      }
      ghost var was := nodes;
      tmp.next := n;
      nodes := nodes + [n];
      assert nodes[|was|] == n && forall k :: 0 <= k < |was| ==> nodes[k] == was[k];
    }

    /** `lookup_pkcs10_request` */
    method Lookup(request: Option<Key>) returns (rv: int)
      requires Valid()
      modifies this, nodes
      ensures Valid() && (rv, Keys()) == Toggle(old(Keys()), request)
    {
      if request.None? {
        return 1;
      }
      var key := request.value;
      var found := Search(key);
      if found != null {
        Delete(key);
        rv := 1;
      } else {
        var n := new Node(key);
        if root == null {
          root, nodes := n, [n];
        } else {
          Append(n);
        }
        assert old(nodes) + [n] == nodes;
        KeysWith(old(nodes), n);
        rv := 0;
      }
    }

    static lemma KeysWithout(nodes: seq<Node>, i: nat)
      requires i < |nodes| && forall a, b :: 0 <= a < b < |nodes| ==> nodes[a].data != nodes[b].data
      ensures var rest := nodes[..i] + nodes[i + 1..];
              (set k | 0 <= k < |rest| :: rest[k].data) == (set k | 0 <= k < |nodes| :: nodes[k].data) - {nodes[i].data}
    {
      var rest := nodes[..i] + nodes[i + 1..];
      forall k | 0 <= k < |nodes| && k != i ensures nodes[k].data in (set k | 0 <= k < |rest| :: rest[k].data) {
        var r := if k < i then k else k - 1;
        assert rest[r] == nodes[k];
      }
      forall k | 0 <= k < |rest| ensures rest[k].data in (set k | 0 <= k < |nodes| :: nodes[k].data) && rest[k].data != nodes[i].data {
        var r := if k < i then k else k + 1;
        assert rest[k] == nodes[r];
      }
    }

    static lemma KeysWith(nodes: seq<Node>, n: Node)
      ensures var more := nodes + [n];
              (set k | 0 <= k < |more| :: more[k].data) == (set k | 0 <= k < |nodes| :: nodes[k].data) + {n.data}
    {
      var more := nodes + [n];
      assert more[|nodes|] == n;
      forall k | 0 <= k < |nodes| ensures nodes[k].data in (set k | 0 <= k < |more| :: more[k].data) {
        assert more[k] == nodes[k];
      }
    }
  }
}
