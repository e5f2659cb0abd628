/**
  The list-and-map structure behind both LRU caches. A std::list iterator is modelled by the identity of
  the node it points to: nodes keep their identity while the list around them changes.
 */
module Recency {

  datatype Node = Node(id: nat, key: nat)

  function Without(s: seq<nat>, k: nat): seq<nat> {
    if s == [] then [] else if s[0] == k then Without(s[1..], k) else [s[0]] + Without(s[1..], k)
  }

  ghost predicate Distinct(s: seq<nat>) {
    forall i, j :: 0 <= i < j < |s| ==> s[i] != s[j]
  }

  lemma {:induction false} WithoutFacts(s: seq<nat>, k: nat)
    ensures forall x :: x in Without(s, k) <==> x in s && x != k
    ensures k !in s ==> Without(s, k) == s
    ensures Distinct(s) ==> Distinct(Without(s, k))
    ensures Distinct(s) && k in s ==> |Without(s, k)| == |s| - 1
  {
    if s != [] {
      WithoutFacts(s[1..], k);
      assert s == [s[0]] + s[1..];
      assert Distinct(s) ==> Distinct(s[1..]) && s[0] !in s[1..];
      if Distinct(s) {
        var rest := Without(s[1..], k);
        assert forall j :: 0 <= j < |rest| ==> rest[j] in s[1..];
      }
    }
  }

  ghost function Elements(s: seq<nat>): set<nat> {
    set x | x in s
  }

  lemma {:induction false} DistinctSize(s: seq<nat>)
    requires Distinct(s)
    ensures |Elements(s)| == |s|
  {
    if s == [] {
      assert Elements(s) == {};
    } else {
      DistinctSize(s[1..]);
      assert s[0] !in Elements(s[1..]);
      assert Elements(s) == Elements(s[1..]) + {s[0]};
    }
  }

  lemma {:induction false} WithoutAt(s: seq<nat>, i: nat)
    requires i < |s| && Distinct(s)
    ensures Without(s, s[i]) == s[..i] + s[i + 1..]
  {
    if i == 0 {
      WithoutFacts(s[1..], s[0]);
      assert s[0] !in s[1..];
    } else {
      WithoutAt(s[1..], i - 1);
      assert s[1..][..i - 1] == s[1..i] && s[1..][i..] == s[i + 1..];
      assert s[..i] == [s[0]] + s[1..i];
    }
  }

  function Keys(nodes: seq<Node>): seq<nat> {
    seq(|nodes|, i requires 0 <= i < |nodes| => nodes[i].key)
  }

  lemma CutKeys(nodes: seq<Node>, i: nat)
    requires i < |nodes|
    ensures Keys(nodes[..i] + nodes[i + 1..]) == Keys(nodes)[..i] + Keys(nodes)[i + 1..]
  {
  }

  predicate HasKey(nodes: seq<Node>, k: nat) {
    exists i :: 0 <= i < |nodes| && nodes[i].key == k
  }

  /** Every key of the map has one node, and the map names that node. */
  ghost predicate Linked(nodes: seq<Node>, index: map<nat, nat>, nextId: nat) {
    && (forall i :: 0 <= i < |nodes| ==>
          nodes[i].id < nextId && nodes[i].key in index && index[nodes[i].key] == nodes[i].id)
    && (forall i, j :: 0 <= i < j < |nodes| ==> nodes[i].id != nodes[j].id && nodes[i].key != nodes[j].key)
    && (forall k :: k in index ==> HasKey(nodes, k))
  }

  lemma LinkedKeys(nodes: seq<Node>, index: map<nat, nat>, nextId: nat)
    requires Linked(nodes, index, nextId)
    ensures Distinct(Keys(nodes)) && forall k :: k in Keys(nodes) <==> k in index
  {
    forall k | k in index ensures k in Keys(nodes) {
      assert HasKey(nodes, k);
      var i :| 0 <= i < |nodes| && nodes[i].key == k;
      assert Keys(nodes)[i] == k;
    }
    forall k | k in Keys(nodes) ensures k in index {
      var i :| 0 <= i < |nodes| && Keys(nodes)[i] == k;
    }
  }

  /** list::erase(iterator) */
  function Erase(nodes: seq<Node>, id: nat): seq<Node> {
    if nodes == [] then [] else if nodes[0].id == id then nodes[1..] else [nodes[0]] + Erase(nodes[1..], id)
  }

  lemma {:induction false} EraseAt(nodes: seq<Node>, i: nat)
    requires i < |nodes| && forall j :: 0 <= j < i ==> nodes[j].id != nodes[i].id
    ensures Erase(nodes, nodes[i].id) == nodes[..i] + nodes[i + 1..]
  {
    if i > 0 {
      EraseAt(nodes[1..], i - 1);
      assert nodes[1..][..i - 1] == nodes[1..i] && nodes[1..][i..] == nodes[i + 1..];
      assert nodes[..i] == [nodes[0]] + nodes[1..i];
    }
  }

  lemma CutLinks(nodes: seq<Node>, index: map<nat, nat>, nextId: nat, i: nat)
    requires Linked(nodes, index, nextId) && i < |nodes|
    ensures Linked(nodes[..i] + nodes[i + 1..], index - {nodes[i].key}, nextId)
  {
    var rest, k := nodes[..i] + nodes[i + 1..], nodes[i].key;
    assert forall j :: 0 <= j < |rest| ==> rest[j] == nodes[if j < i then j else j + 1];
    assert forall j :: 0 <= j < |nodes| && j != i ==> nodes[j].key != k;
    forall x | x in index - {k} ensures HasKey(rest, x) {
      assert HasKey(nodes, x);
      CutHasKey(nodes, i, x);
    }
  }

  lemma CutHasKey(nodes: seq<Node>, i: nat, x: nat)
    requires i < |nodes| && HasKey(nodes, x) && nodes[i].key != x
    ensures HasKey(nodes[..i] + nodes[i + 1..], x)
  {
    var rest := nodes[..i] + nodes[i + 1..];
    var j :| 0 <= j < |nodes| && nodes[j].key == x;
    assert rest[if j < i then j else j - 1].key == x;
  }

  /** Erasing through the map removes exactly that key from the recency order, and keeps the rest linked. */
  lemma EraseUnlinks(nodes: seq<Node>, index: map<nat, nat>, nextId: nat, k: nat)
    requires Linked(nodes, index, nextId) && k in index
    ensures var rest := Erase(nodes, index[k]);
            Keys(rest) == Without(Keys(nodes), k) && Linked(rest, index - {k}, nextId)
  {
    assert HasKey(nodes, k);
    var i :| 0 <= i < |nodes| && nodes[i].key == k;
    EraseAt(nodes, i);
    LinkedKeys(nodes, index, nextId);
    WithoutAt(Keys(nodes), i);
    CutLinks(nodes, index, nextId, i);
    CutKeys(nodes, i);
  }

  lemma PushedHasKey(nodes: seq<Node>, n: Node, x: nat)
    ensures HasKey([n] + nodes, x) <==> x == n.key || HasKey(nodes, x)
  {
    var nodes' := [n] + nodes;
    if x == n.key {
      assert nodes'[0].key == x;
    } else if i :| 0 <= i < |nodes| && nodes[i].key == x {
      assert nodes'[i + 1].key == x;
    }
  }

  lemma PushLinks(nodes: seq<Node>, index: map<nat, nat>, nextId: nat, k: nat)
    requires Linked(nodes, index, nextId) && k !in index
    ensures Linked([Node(nextId, k)] + nodes, index[k := nextId], nextId + 1)
    ensures Keys([Node(nextId, k)] + nodes) == [k] + Keys(nodes)
  {
    var nodes' := [Node(nextId, k)] + nodes;
    assert forall i :: 0 < i < |nodes'| ==> nodes'[i] == nodes[i - 1];
    forall x | x in index[k := nextId] ensures HasKey(nodes', x) {
      PushedHasKey(nodes, Node(nextId, k), x);
    }
  }

  /** The last node, the least recently used one, is unlinked with its map entry. */
  lemma PopUnlinks(nodes: seq<Node>, index: map<nat, nat>, nextId: nat)
    requires Linked(nodes, index, nextId) && nodes != []
    ensures var n := |nodes| - 1;
            Linked(nodes[..n], index - {nodes[n].key}, nextId) && Keys(nodes[..n]) == Keys(nodes)[..n]
  {
    var n := |nodes| - 1;
    CutLinks(nodes, index, nextId, n);
    CutKeys(nodes, n);
    assert nodes[..n] + nodes[n + 1..] == nodes[..n];
  }

  /** Erase through the map, push a new node to the front and point the map at it. */
  lemma RefreshLinks(nodes: seq<Node>, index: map<nat, nat>, nextId: nat, k: nat)
    requires Linked(nodes, index, nextId) && k in index
    ensures var nodes' := [Node(nextId, k)] + Erase(nodes, index[k]);
            Linked(nodes', index[k := nextId], nextId + 1) && Keys(nodes') == [k] + Without(Keys(nodes), k)
  {
    EraseUnlinks(nodes, index, nextId, k);
    PushLinks(Erase(nodes, index[k]), index - {k}, nextId, k);
    assert (index - {k})[k := nextId] == index[k := nextId];
  }
}
