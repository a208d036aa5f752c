// IntrusiveList<T> of MyIntrusiveList.h: the same doubly linked shape as List,
// with its own Node (payload, next, prev). Unlike List, find hands back the node
// itself (or null) and remove quietly does nothing when the value is absent.

module IntrusiveLists {
  import opened Common

  /** Node<T>: the payload and both neighbours, unlinked when created. */
  class Node<T> {
    var data: T
    var next: Node?<T>
    var prev: Node?<T>

    constructor (value: T)
      ensures data == value && next == null && prev == null
    {
      data := value;
      next := null;
      prev := null;
    }
  }

  class IntrusiveList<T(==)> {
    var head: Node?<T>
    var tail: Node?<T>
    var size: nat
    ghost var nodes: seq<Node<T>>
    ghost var Contents: seq<T>
    ghost var Repr: set<object>

    /**
     * `nodes` is the chain from head to tail: distinct nodes carrying the
     * elements in order, each `next` the successor and each `prev` the
     * predecessor (null at the ends); head and tail are null exactly when empty.
     */
    ghost predicate Valid()
      reads this, Repr
    {
      this in Repr &&
      |nodes| == size && |Contents| == size &&
      (forall i :: 0 <= i < size ==> nodes[i] in Repr && nodes[i].data == Contents[i]) &&
      (forall i, j :: 0 <= i < j < size ==> nodes[i] != nodes[j]) &&
      (forall i {:trigger nodes[i].next} :: 0 <= i < size ==> nodes[i].next == if i + 1 < size then nodes[i + 1] else null) &&
      (forall i {:trigger nodes[i].prev} :: 0 <= i < size ==> nodes[i].prev == if i > 0 then nodes[i - 1] else null) &&
      head == (if size == 0 then null else nodes[0]) &&
      tail == (if size == 0 then null else nodes[size - 1])
    }

    /** IntrusiveList(): head and tail null, size zero. */
    constructor ()
      ensures Valid() && fresh(Repr) && Contents == []
    {
      head, tail, size := null, null, 0;
      nodes, Contents := [], [];
      Repr := {this};
    }

    /** getSize: the number of linked nodes. */
    function GetSize(): (n: nat)
      reads this, Repr
      requires Valid()
      ensures n == |Contents|
    {
      size
    }

    /** empty: whether getSize() is zero. */
    function Empty(): (e: bool)
      reads this, Repr
      requires Valid()
      ensures e <==> Contents == []
    {
      size == 0
    }

    /** push_back: a new node after the tail (or as the only node). */
    method PushBack(value: T)
      requires Valid()
      modifies Repr
      ensures Valid() && fresh(Repr - old(Repr))
      ensures Contents == old(Contents) + [value]
    {
      var newNode := new Node(value);
      if head == null {
        head, tail := newNode, newNode;
      } else {
        tail.next := newNode;
        newNode.prev := tail;
        tail := newNode;
      }
      size := size + 1;
      nodes := nodes + [newNode];
      Contents := Contents + [value];
      Repr := Repr + {newNode};
    }

    /** push_front: a new node before the head (or as the only node). */
    method PushFront(value: T)
      requires Valid()
      modifies Repr
      ensures Valid() && fresh(Repr - old(Repr))
      ensures Contents == [value] + old(Contents)
    {
      var newNode := new Node(value);
      if head == null {
        head, tail := newNode, newNode;
      } else {
        newNode.next := head;
        head.prev := newNode;
        head := newNode;
      }
      size := size + 1;
      nodes := [newNode] + nodes;
      Contents := [value] + Contents;
      Repr := Repr + {newNode};
    }

    /** pop_front: "Cannot pop from an empty list" when empty, otherwise the head
        goes and the tail is cleared with the last node. */
    method PopFront() returns (st: Status)
      requires Valid()
      modifies Repr
      ensures Valid() && Repr <= old(Repr)
      ensures old(Contents) == [] ==> st == Failed(ListEmpty) && Contents == old(Contents)
      ensures old(Contents) != [] ==> st == Done && Contents == old(Contents)[1..]
      ensures Contents == [] <==> head == null && tail == null
    {
      if head == null {
        return Failed(ListEmpty);
      }
      var temp := head;
      head := head.next;
      if head != null {
        head.prev := null;
      } else {
        tail := null;
      }
      size := size - 1;
      nodes := nodes[1..];
      Contents := Contents[1..];
      Repr := Repr - {temp};
      return Done;
    }

    /** pop_back: the same failure when empty, otherwise the tail goes and the
        head is cleared with the last node. */
    method PopBack() returns (st: Status)
      requires Valid()
      modifies Repr
      ensures Valid() && Repr <= old(Repr)
      ensures old(Contents) == [] ==> st == Failed(ListEmpty) && Contents == old(Contents)
      ensures old(Contents) != [] ==> st == Done && Contents == old(Contents)[..|old(Contents)| - 1]
      ensures Contents == [] <==> head == null && tail == null
    {
      if tail == null {
        return Failed(ListEmpty);
      }
      var temp := tail;
      tail := tail.prev;
      if tail != null {
        tail.next := null;
      } else {
        head := null;
      }
      size := size - 1;
      nodes := nodes[..size];
      Contents := Contents[..size];
      Repr := Repr - {temp};
      return Done;
    }

    /** find: walks `next` from the head and returns the first node whose payload
        is `value`, or null when no node holds it. */
    method Find(value: T) returns (r: Node?<T>)
      requires Valid()
      ensures r == null <==> value !in Contents
      ensures r != null ==> r == nodes[IndexOf(Contents, value)]
    {
      var current := head;
      ghost var j := 0;
      while current != null
        invariant 0 <= j <= size && current == (if j < size then nodes[j] else null)
        invariant value !in Contents[..j]
        decreases size - j
      {
        if current.data == value {
          assert Contents[..j + 1] == Contents[..j] + [value];
          return current;
        }
        assert Contents[..j + 1] == Contents[..j] + [Contents[j]];
        current := current.next;
        j := j + 1;
      }
      assert Contents[..j] == Contents;
      return null;
    }

    /** remove: unlinks the node find returns, mending the neighbour links or head
        and tail at the ends; nothing happens when the value is absent. */
    method Remove(value: T)
      requires Valid()
      modifies Repr
      ensures Valid() && Repr <= old(Repr)
      ensures value !in old(Contents) ==> Contents == old(Contents)
      ensures value in old(Contents) ==> Contents == EraseAt(old(Contents), IndexOf(old(Contents), value))
    {
      var nodeToRemove := Find(value);
      if nodeToRemove != null {
        Unlink(nodeToRemove, IndexOf(Contents, value));
      }
    }

    /** The unlinking step of remove for the node at `index`: its predecessor, or
        the head when it has none, skips forward past it. */
    method Unlink(node: Node<T>, ghost index: nat)
      requires Valid() && index < size && node == nodes[index]
      modifies Repr
      ensures Valid() && Repr == old(Repr) - {node}
      ensures Contents == EraseAt(old(Contents), index)
    {
      if node.prev != null {
        node.prev.next := node.next;
      } else {
        head := node.next;
      }
      MendBackward(node, index);
    }

    /**
     * Valid() halfway through unlinking the node at `index`: the forward link
     * into it (its predecessor's `next`, or the head) already skips it, every
     * other link is as Valid() has it.
     */
    ghost predicate ForwardBypassed(index: nat)
      reads this, Repr
    {
      this in Repr && index < size &&
      |nodes| == size && |Contents| == size &&
      (forall i :: 0 <= i < size ==> nodes[i] in Repr && nodes[i].data == Contents[i]) &&
      (forall i, j :: 0 <= i < j < size ==> nodes[i] != nodes[j]) &&
      (forall i {:trigger nodes[i].next} :: 0 <= i < size && i + 1 != index ==> nodes[i].next == if i + 1 < size then nodes[i + 1] else null) &&
      (forall i {:trigger nodes[i].prev} :: 0 <= i < size ==> nodes[i].prev == if i > 0 then nodes[i - 1] else null) &&
      (index > 0 ==> nodes[index - 1].next == if index + 1 < size then nodes[index + 1] else null) &&
      head == (if index > 0 then nodes[0] else if 1 < size then nodes[1] else null) &&
      tail == nodes[size - 1]
    }

    /** The second half of the unlinking: the successor, or the tail when there is
        none, points back past the node; then the node leaves the chain. */
    method MendBackward(node: Node<T>, ghost index: nat)
      requires ForwardBypassed(index) && node == nodes[index]
      modifies Repr
      ensures Valid() && Repr == old(Repr) - {node}
      ensures Contents == EraseAt(old(Contents), index)
    {
      if node.next != null {
        node.next.prev := node.prev;
      } else {
        tail := node.prev;
      }
      size := size - 1;
      EraseAtShifts(nodes, index);
      EraseAtShifts(Contents, index);
      nodes := EraseAt(nodes, index);
      Contents := EraseAt(Contents, index);
      Repr := Repr - {node};
    }

    /** print: the payloads met walking `next` from the head. */
    method Print() returns (s: seq<T>)
      requires Valid()
      ensures s == Contents
    {
      var current := head;
      s := [];
      while current != null
        invariant |s| <= size && s == Contents[..|s|]
        invariant current == if |s| < size then nodes[|s|] else null
        decreases size - |s|
      {
        s := s + [current.data];
        current := current.next;
      }
    }

    /** reversePrint: the payloads met walking `prev` from the tail. */
    method ReversePrint() returns (s: seq<T>)
      requires Valid()
      ensures s == Reverse(Contents)
    {
      var current := tail;
      s := [];
      while current != null
        invariant |s| <= size && s == Reverse(Contents)[..|s|]
        invariant current == if |s| < size then nodes[size - 1 - |s|] else null
        decreases size - |s|
      {
        s := s + [current.data];
        current := current.prev;
      }
    }

    /** front: the head's payload, or "List is empty". The source names the payload
        `data`, a member Node does not have; `m_data` is the one meant. */
    method Front() returns (r: Result<T>)
      requires Valid()
      ensures r == if Contents == [] then Err(ListEmpty) else Ok(Contents[0])
    {
      if head == null {
        return Err(ListEmpty);
      }
      return Ok(head.data);
    }

    /** back: the tail's payload, or "List is empty". */
    method Back() returns (r: Result<T>)
      requires Valid()
      ensures r == if Contents == [] then Err(ListEmpty) else Ok(Contents[|Contents| - 1])
    {
      if tail == null {
        return Err(ListEmpty);
      }
      return Ok(tail.data);
    }
  }

  /** Removing what was just pushed to the back of a list without that value
      restores its elements. */
  method RemovePushed(list: IntrusiveList<int>, value: int)
    requires list.Valid() && value !in list.Contents
    modifies list.Repr
    ensures list.Valid() && list.Contents == old(list.Contents)
  {
    ghost var before := list.Contents;
    list.PushBack(value);
    assert list.Contents[|before|] == value;
    assert IndexOf(list.Contents, value) == |before|;
    list.Remove(value);
    assert list.Contents == EraseAt(before + [value], |before|);
    EraseAtEnds(before + [value]);
  }

  /** push_back 0, 8, -5, then remove(8): [0, -5] remain; removing 8 again is a no-op. */
  method RemoveExample() returns (r: seq<int>, n: nat, back: Result<int>)
    ensures r == [0, -5] && n == 2 && back == Ok(-5)
  {
    var list := new IntrusiveList<int>();
    list.PushBack(0);
    list.PushBack(8);
    list.PushBack(-5);
    assert list.Contents == [0, 8, -5];
    assert IndexOf(list.Contents, 8) == 1;
    list.Remove(8);
    assert list.Contents == [0, -5];
    list.Remove(8);
    r := list.Print();
    n := list.GetSize();
    back := list.Back();
  }

  /** pop_front and pop_back on an empty list fail and leave it empty; popping the
      only element clears head and tail. */
  method PopExample() returns (s1: Status, s2: Status, s3: Status, emptied: bool)
    ensures s1 == Failed(ListEmpty) && s2 == Failed(ListEmpty) && s3 == Done && emptied
  {
    var list := new IntrusiveList<int>();
    s1 := list.PopFront();
    s2 := list.PopBack();
    list.PushFront(1148);
    s3 := list.PopBack();
    emptied := list.head == null && list.tail == null;
  }
}
