/** The server's list: singly linked nodes that end in an empty node, so that a list is never without
    nodes. Every operation is proved against the sequence of its data. */
module LinkedList {
  import opened Wrappers

  // The sequence without element i.
  function Removed<T>(s: seq<T>, i: nat): (r: seq<T>)
    requires i < |s|
    ensures |r| == |s| - 1
  {
    s[..i] + s[i + 1..]
  }

  class Node<T(0)> {
    var next: Node?<T>
    var data: T
  }

  class List<T(0)> {
    var head: Node<T>
    // The nodes from the head on, the empty one last, and the data of the others.
    ghost var nodes: seq<Node<T>>
    ghost var contents: seq<T>

    // All that the list may change.
    ghost var repr: set<object>

    ghost predicate Shaped()
      reads this
    {
      && |nodes| == |contents| + 1
      && this in repr && forall i :: 0 <= i < |nodes| ==> nodes[i] in repr
    }

    ghost predicate Linked(i: nat)
      reads this, repr
      requires Shaped()
    {
      if i < |contents| then nodes[i].data == contents[i] && nodes[i].next == nodes[i + 1]
      else i == |contents| ==> nodes[i].next == null
    }

    ghost predicate Valid()
      reads this, repr
    {
      && Shaped() && nodes[0] == head
      && (forall i :: 0 <= i <= |contents| ==> Linked(i))
      && forall i, j :: 0 <= i < j < |nodes| ==> nodes[i] != nodes[j]
    }

    // An empty list.
    constructor ()
      ensures Valid() && contents == [] && fresh(repr) && this in repr
    {
      var n := new Node<T>;
      n.next := null;
      head := n;
      nodes, contents, repr := [n], [], {this, n};
    }

    method AddStart(data: T)
      requires Valid()
      modifies repr
      ensures Valid() && contents == [data] + old(contents) && old(repr) <= repr && fresh(repr - old(repr))
    {
      var n := new Node<T>;
      n.data := data;
      n.next := head;
      head := n;
      nodes, contents, repr := [n] + nodes, [data] + contents, repr + {n};
      forall i | 0 <= i <= |contents| ensures Linked(i) {
        assert i > 0 ==> old(Linked(i - 1));
      }
    }

    // A node's place is where the chain reaches the empty node.
    lemma AtEnd(i: nat)
      requires Valid() && i < |nodes|
      ensures nodes[i].next == null <==> i == |contents|
      ensures i < |contents| ==> nodes[i].next == nodes[i + 1] && nodes[i].data == contents[i]
    {
      assert Linked(i);
    }

    // Puts a node between the i-th node and the next.
    method LinkAfter(n: Node<T>, curr: Node<T>, ghost i: nat)
      requires Valid() && i < |contents| && curr == nodes[i] && n !in nodes
      modifies this`nodes, this`contents, this`repr, curr`next, n`next
      ensures Valid() && nodes == old(nodes[..i + 1] + [n] + nodes[i + 1..])
      ensures contents == old(contents[..i + 1] + [n.data] + contents[i + 1..]) && repr == old(repr) + {n}
    {
      AtEnd(i);
      n.next := curr.next;
      curr.next := n;
      nodes := nodes[..i + 1] + [n] + nodes[i + 1..];
      contents := contents[..i + 1] + [n.data] + contents[i + 1..];
      repr := repr + {n};
      forall j | 0 <= j <= |contents| ensures Linked(j) {
        assert old(Linked(if j <= i then j else if j == i + 1 then i else j - 1));
      }
    }

    // The last node that has data.
    method Last() returns (curr: Node<T>, ghost k: nat)
      requires Valid() && contents != []
      ensures k == |contents| - 1 && curr == nodes[k]
    {
      curr, k := head, 0;
      AtEnd(0);
      AtEnd(1);
      while curr.next.next != null
        invariant k < |contents| && curr == nodes[k] && curr.next == nodes[k + 1]
        decreases |contents| - k
      {
        AtEnd(k + 1);
        curr := curr.next;
        k := k + 1;
        AtEnd(k);
        AtEnd(k + 1);
      }
      AtEnd(k + 1);
    }

    method AddLast(data: T)
      requires Valid()
      modifies repr
      ensures Valid() && contents == old(contents) + [data] && old(repr) <= repr && fresh(repr - old(repr))
    {
      AtEnd(0);
      if head.next == null {
        AddStart(data);
        return;
      }
      var curr;
      ghost var k, before := 0, contents;
      curr, k := Last();
      var n := new Node<T>;
      n.data := data;
      LinkAfter(n, curr, k);
      assert contents == before + [data];
    }

    // The data at an index, if there is any.
    method Get(index: int) returns (r: Option<T>)
      requires Valid()
      ensures r == if 0 <= index < |contents| then Some(contents[index]) else None
    {
      if index < 0 {
        return None;
      }
      var i, node := 0, head;
      AtEnd(0);
      while node.next != null
        invariant 0 <= i <= |contents| && i <= index && node == nodes[i]
        decreases |contents| - i
      {
        AtEnd(i);
        if i == index {
          return Some(node.data);
        }
        node := node.next;
        i := i + 1;
        AtEnd(i);
      }
      AtEnd(i);
      return None;
    }

    // The first index whose data matches, or -1.
    method Find(matches: T -> bool) returns (index: int)
      requires Valid()
      ensures -1 <= index < |contents|
      ensures index >= 0 ==> matches(contents[index]) && forall j :: 0 <= j < index ==> !matches(contents[j])
      ensures index < 0 ==> forall j :: 0 <= j < |contents| ==> !matches(contents[j])
    {
      var curr := head;
      index := 0;
      while curr.next != null
        invariant 0 <= index <= |contents| && curr == nodes[index]
        invariant forall j :: 0 <= j < index ==> !matches(contents[j])
        decreases |contents| - index
      {
        AtEnd(index);
        if matches(curr.data) {
          return;
        }
        curr := curr.next;
        index := index + 1;
      }
      AtEnd(index);
      index := -1;
    }

    // Removes the data at an index; an index out of range removes nothing.
    method Delete(target: int) returns (r: int)
      requires Valid()
      modifies repr
      ensures Valid() && repr == old(repr)
      ensures 0 <= target < |old(contents)| ==> r == 1 && contents == Removed(old(contents), target) && nodes == Removed(old(nodes), target)
      ensures !(0 <= target < |old(contents)|) ==> r == -1 && contents == old(contents) && nodes == old(nodes)
    {
      r := -1;
      AtEnd(0);
      if target < 0 || head.next == null {
        return;
      }
      if target == 0 {
        head := head.next;
        nodes, contents := Removed(nodes, 0), Removed(contents, 0);
        forall j | 0 <= j <= |contents| ensures Linked(j) {
          assert old(Linked(j + 1));
        }
        return 1;
      }
      var prev, curr, i := head, head, 0;
      while curr.next != null
        invariant Valid() && contents == old(contents) && nodes == old(nodes) && repr == old(repr)
        invariant 0 <= i <= |contents| && i <= target && curr == nodes[i] && (i > 0 ==> prev == nodes[i - 1])
        decreases |contents| - i
      {
        AtEnd(i);
        if i == target {
          Unlink(prev, curr, i);
          return 1;
        }
        prev := curr;
        curr := curr.next;
        i := i + 1;
      }
      AtEnd(i);
    }

    // Takes the i-th node out of the chain.
    method Unlink(prev: Node<T>, curr: Node<T>, ghost i: nat)
      requires Valid() && 0 < i < |contents| && prev == nodes[i - 1] && curr == nodes[i]
      modifies this`nodes, this`contents, prev`next
      ensures Valid() && nodes == Removed(old(nodes), i) && contents == Removed(old(contents), i)
    {
      AtEnd(i);
      prev.next := curr.next;
      nodes, contents := Removed(nodes, i), Removed(contents, i);
      forall j | 0 <= j <= |contents| ensures Linked(j) {
        assert old(Linked(if j < i - 1 then j else j + 1));
        assert old(Linked(i - 1));
      }
    }

    // Changes the data of a node in place.
    method Set(index: nat, data: T)
      requires Valid() && index < |contents|
      modifies repr
      ensures Valid() && contents == old(contents)[index := data] && nodes == old(nodes) && repr == old(repr)
    {
      var i, node := 0, head;
      while i < index
        invariant i <= index && node == nodes[i]
        modifies {}
      {
        AtEnd(i);
        node := node.next;
        i := i + 1;
      }
      node.data := data;
      contents := contents[index := data];
      forall j | 0 <= j <= |contents| ensures Linked(j) {
        assert old(Linked(j));
      }
    }
  }
}
