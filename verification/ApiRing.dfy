/** The list an API reply is built in: heap nodes in a ring, doubly linked, reached through
    the first one. */
module ApiRing {
  import opened Basics

  const NULL_TEXT := "(null)"

  class Node {
    var name: string
    var text: string
    var prev: Node?
    var next: Node?

    constructor (name: string, text: string)
      ensures this.name == name && this.text == text
    {
      this.name, this.text, prev, next := name, text, null, null;
    }
  }

  function After(i: nat, n: nat): nat {
    if i + 1 < n then i + 1 else 0
  }

  function Before(i: nat, n: nat): nat
    requires n > 0
  {
    if i > 0 then i - 1 else n - 1
  }

  /** `nodes` is the ring read from `root` along `next`; `prev` is the way back. */
  ghost predicate Ring(root: Node?, nodes: seq<Node>)
    reads nodes`prev, nodes`next
  {
    && (root == null <==> nodes == [])
    && (root != null ==> nodes[0] == root)
    && Distinct(nodes)
    && (forall i :: 0 <= i < |nodes| ==> nodes[i].next == nodes[After(i, |nodes|)])
    && (forall i :: 0 <= i < |nodes| ==> nodes[i].prev == nodes[Before(i, |nodes|)])
  }

  /** Appends an item: a missing value is shown as a constant. */
  method AddData(root: Node?, name: string, data: Option<string>, ghost nodes: seq<Node>)
    returns (first: Node, ghost nodes': seq<Node>)
    requires Ring(root, nodes)
    modifies nodes`prev, nodes`next
    ensures Ring(first, nodes') && |nodes'| == |nodes| + 1 && nodes'[..|nodes|] == nodes && fresh(nodes'[|nodes|])
    ensures nodes'[|nodes|].name == name && nodes'[|nodes|].text == data.GetOr(NULL_TEXT)
    ensures root != null ==> first == root
  {
    hide Ring;
    var item := new Node(name, data.GetOr(NULL_TEXT));
    nodes' := nodes + [item];
    if root == null {
      NoNode(root, nodes);
      first := item;
      first.prev := first;
      first.next := first;
      OneNode(item);
      assert nodes' == [item];
    } else {
      RingParts(root, nodes);
      first := root;
      item.prev := root.prev;
      root.prev := item;
      item.next := root;
      item.prev.next := item;
      JoinedRing(root, item, nodes, [item]);
    }
  }

  lemma OneNode(item: Node)
    requires item.prev == item && item.next == item
    ensures Ring(item, [item])
  {
  }

  /** Splices a second ring in behind the first one. */
  method AddExtra(root: Node?, extra: Node?, ghost nodes: seq<Node>, ghost more: seq<Node>) returns (first: Node?)
    requires Ring(root, nodes) && Ring(extra, more)
    requires forall i, j :: 0 <= i < |nodes| && 0 <= j < |more| ==> nodes[i] != more[j]
    modifies nodes`prev, nodes`next, more`prev, more`next
    ensures Ring(first, nodes + more)
    ensures root != null ==> first == root
  {
    if root != null {
      if extra != null {
        Splice(root, extra, nodes, more);
      } else {
        assert nodes + more == nodes;
      }
      first := root;
    } else {
      first := extra;
      assert nodes + more == more;
    }
  }

  method Splice(root: Node, extra: Node, ghost nodes: seq<Node>, ghost more: seq<Node>)
    requires Ring(root, nodes) && Ring(extra, more)
    requires forall i, j :: 0 <= i < |nodes| && 0 <= j < |more| ==> nodes[i] != more[j]
    modifies nodes`prev, nodes`next, more`prev, more`next
    ensures Ring(root, nodes + more)
  {
    hide Ring;
    RingParts(root, nodes);
    RingParts(extra, more);
    ghost var n, m := |nodes|, |more|;
    var tail := extra.prev;
    extra.prev := root.prev;
    root.prev.next := extra;
    tail.next := root;
    root.prev := tail;
    JoinedRing(root, extra, nodes, more);
  }

  lemma RingParts(root: Node, nodes: seq<Node>)
    requires Ring(root, nodes)
    ensures nodes != [] && nodes[0] == root && Distinct(nodes)
    ensures root.prev == nodes[|nodes| - 1] && nodes[|nodes| - 1].next == root
    ensures forall i :: 0 <= i < |nodes| - 1 ==> nodes[i].next == nodes[i + 1]
    ensures forall i :: 1 <= i < |nodes| ==> nodes[i].prev == nodes[i - 1]
  {
  }

  /** Two chains tied end to start both ways are one ring. */
  lemma JoinedRing(root: Node, extra: Node, nodes: seq<Node>, more: seq<Node>)
    requires nodes != [] && more != [] && nodes[0] == root && more[0] == extra
    requires Distinct(nodes) && Distinct(more)
    requires forall i, j :: 0 <= i < |nodes| && 0 <= j < |more| ==> nodes[i] != more[j]
    requires nodes[|nodes| - 1].next == extra && more[|more| - 1].next == root
    requires extra.prev == nodes[|nodes| - 1] && root.prev == more[|more| - 1]
    requires forall i :: 0 <= i < |nodes| - 1 ==> nodes[i].next == nodes[i + 1]
    requires forall i :: 0 <= i < |more| - 1 ==> more[i].next == more[i + 1]
    requires forall i :: 1 <= i < |nodes| ==> nodes[i].prev == nodes[i - 1]
    requires forall i :: 1 <= i < |more| ==> more[i].prev == more[i - 1]
    ensures Ring(root, nodes + more)
  {
    var all, n := nodes + more, |nodes|;
    forall i | 0 <= i < |all|
      ensures all[i].next == all[After(i, |all|)] && all[i].prev == all[Before(i, |all|)]
    {
      if i < n {
        assert all[i] == nodes[i];
      } else {
        assert all[i] == more[i - n];
      }
    }
  }

  /** Takes the first node out of a ring. */
  method Unlink(root: Node, ghost nodes: seq<Node>) returns (first: Node?)
    requires Ring(root, nodes)
    modifies nodes`prev, nodes`next
    ensures Ring(first, nodes[1..])
  {
    if root.next == root {
      first := null;
      OnlyNode(root, nodes);
    } else {
      first := root.next;
      assert first == nodes[1] && root.prev == nodes[|nodes| - 1];
      first.prev := root.prev;
      first.prev.next := first;
    }
  }

  lemma OnlyNode(root: Node, nodes: seq<Node>)
    requires Ring(root, nodes) && root.next == root
    ensures |nodes| == 1
  {
    assert nodes[0].next == nodes[After(0, |nodes|)];
  }

  /** Prints and frees the ring: each item once, in order, until nothing is left. */
  method PrintData(start: Node?, ghost nodes: seq<Node>)
    returns (root: Node?, shown: seq<(string, string)>, freed: seq<Node>)
    requires Ring(start, nodes)
    modifies nodes`prev, nodes`next
    ensures root == null && freed == nodes
    ensures |shown| == |nodes| && forall i :: 0 <= i < |nodes| ==> shown[i] == (nodes[i].name, nodes[i].text)
  {
    hide Ring;
    root, shown, freed := start, [], [];
    assert nodes[0..] == nodes;
    while root != null
      invariant |freed| <= |nodes| && freed == nodes[..|freed|] && |shown| == |freed|
      invariant Ring(root, nodes[|freed|..])
      invariant forall i :: 0 <= i < |shown| ==> shown[i] == (nodes[i].name, nodes[i].text)
      decreases |nodes| - |freed|
    {
      ghost var left := nodes[|freed|..];
      FirstNode(root, left);
      var tmp := root;
      shown := shown + [(tmp.name, tmp.text)];
      root := Unlink(tmp, left);
      assert left[1..] == nodes[|freed| + 1..];
      freed := freed + [tmp];
    }
    NoNode(root, nodes[|freed|..]);
  }

  lemma FirstNode(root: Node, nodes: seq<Node>)
    requires Ring(root, nodes)
    ensures nodes != [] && nodes[0] == root
  {
  }

  lemma NoNode(root: Node?, nodes: seq<Node>)
    requires Ring(root, nodes) && root == null
    ensures nodes == []
  {
  }
}
