// List<T> of MyList.h: a doubly linked chain of heap nodes with head, tail and a
// size counter. The ghost sequence `nodes` lists the chain from head to tail and
// `Contents` the elements they carry; Valid() ties every link to them.

module Lists {
  import opened Common

  /** A link of the chain (List::Node): the element and both neighbours. */
  class Node<T> {
    var data: T
    var next: Node?<T>
    var prev: Node?<T>

    constructor (value: T)
      ensures data == value && next == null && prev == null
    {
      data := value;
      next := null;
      prev := null;
    }
  }

  class List<T(==)> {
    var head: Node?<T>
    var tail: Node?<T>
    var size: nat
    ghost var nodes: seq<Node<T>>
    ghost var Contents: seq<T>
    ghost var Repr: set<object>

    /**
     * The nodes are distinct and carry the elements in order; each one's `next`
     * is its successor and its `prev` its predecessor (null at the ends); head and
     * tail are the first and last node, both null exactly when the list is empty.
     */
    ghost predicate Valid()
      reads this, Repr
    {
      this in Repr &&
      |nodes| == size && |Contents| == size &&
      (forall i :: 0 <= i < size ==> nodes[i] in Repr && nodes[i].data == Contents[i]) &&
      (forall i, j :: 0 <= i < j < size ==> nodes[i] != nodes[j]) &&
      (forall i {:trigger nodes[i].next} :: 0 <= i < size ==> nodes[i].next == if i + 1 < size then nodes[i + 1] else null) &&
      (forall i {:trigger nodes[i].prev} :: 0 <= i < size ==> nodes[i].prev == if i > 0 then nodes[i - 1] else null) &&
      head == (if size == 0 then null else nodes[0]) &&
      tail == (if size == 0 then null else nodes[size - 1])
    }

    constructor ()
      ensures Valid() && fresh(Repr) && Contents == []
    {
      head, tail, size := null, null, 0;
      nodes, Contents := [], [];
      Repr := {this};
    }

    function Size(): (n: nat)
      reads this, Repr
      requires Valid()
      ensures n == |Contents|
    {
      size
    }

    function Empty(): (e: bool)
      reads this, Repr
      requires Valid()
      ensures e <==> Contents == []
    {
      size == 0
    }

    method PushBack(value: T)
      requires Valid()
      modifies Repr
      ensures Valid() && fresh(Repr - old(Repr))
      ensures Contents == old(Contents) + [value]
    {
      var newNode := new Node(value);
      if tail != null {
        tail.next := newNode;
        newNode.prev := tail;
        tail := newNode;
      } else {
        head, tail := newNode, newNode;
      }
      size := size + 1;
      nodes := nodes + [newNode];
      Contents := Contents + [value];
      Repr := Repr + {newNode};
    }

    method PushFront(value: T)
      requires Valid()
      modifies Repr
      ensures Valid() && fresh(Repr - old(Repr))
      ensures Contents == [value] + old(Contents)
    {
      var newNode := new Node(value);
      if head != null {
        head.prev := newNode;
        newNode.next := head;
        head := newNode;
      } else {
        head, tail := newNode, newNode;
      }
      size := size + 1;
      nodes := [newNode] + nodes;
      Contents := [value] + Contents;
      Repr := Repr + {newNode};
    }

    /** pop_front: "List is empty" on an empty list, otherwise the head goes. */
    method PopFront() returns (st: Status)
      requires Valid()
      modifies Repr
      ensures Valid() && Repr <= old(Repr)
      ensures old(Contents) == [] ==> st == Failed(ListEmpty) && Contents == old(Contents)
      ensures old(Contents) != [] ==> st == Done && Contents == old(Contents)[1..]
    {
      if head == null {
        return Failed(ListEmpty);
      }
      var temp := head;
      head := head.next;
      if head != null {
        head.prev := null;
      } else {
        tail := null;
      }
      size := size - 1;
      nodes := nodes[1..];
      Contents := Contents[1..];
      Repr := Repr - {temp};
      return Done;
    }

    /** pop_back: "List is empty" on an empty list, otherwise the tail goes. */
    method PopBack() returns (st: Status)
      requires Valid()
      modifies Repr
      ensures Valid() && Repr <= old(Repr)
      ensures old(Contents) == [] ==> st == Failed(ListEmpty) && Contents == old(Contents)
      ensures old(Contents) != [] ==> st == Done && Contents == old(Contents)[..|old(Contents)| - 1]
    {
      if tail == null {
        return Failed(ListEmpty);
      }
      var temp := tail;
      tail := tail.prev;
      if tail != null {
        tail.next := null;
      } else {
        head := null;
      }
      size := size - 1;
      nodes := nodes[..size];
      Contents := Contents[..size];
      Repr := Repr - {temp};
      return Done;
    }

    /** front: the first element, or "List is empty". */
    method Front() returns (r: Result<T>)
      requires Valid()
      ensures r == if Contents == [] then Err(ListEmpty) else Ok(Contents[0])
    {
      if head != null {
        return Ok(head.data);
      }
      return Err(ListEmpty);
    }

    /** back: the last element, or "List is empty". */
    method Back() returns (r: Result<T>)
      requires Valid()
      ensures r == if Contents == [] then Err(ListEmpty) else Ok(Contents[|Contents| - 1])
    {
      if tail != null {
        return Ok(tail.data);
      }
      return Err(ListEmpty);
    }

    /** clear: pop_front until the head is null. */
    method Clear()
      requires Valid()
      modifies Repr
      ensures Valid() && Repr <= old(Repr) && Contents == []
    {
      while head != null
        invariant Valid() && Repr <= old(Repr)
        decreases size
      {
        var _ := PopFront();
      }
    }

    /** The walk from the head, `index` steps along `next`. */
    method NodeAt(index: nat) returns (current: Node<T>)
      requires Valid() && index < size
      ensures current == nodes[index]
    {
      current := head;
      var i := 0;
      while i < index
        invariant 0 <= i <= index && current == nodes[i]
      {
        current := current.next;
        i := i + 1;
      }
    }

    /** Links a fresh node in front of the inner node `current`. */
    method LinkBefore(current: Node<T>, newNode: Node<T>, ghost index: nat)
      requires Valid() && 0 < index < size && current == nodes[index]
      requires newNode !in Repr && newNode.next == null && newNode.prev == null
      modifies Repr, newNode
      ensures Valid() && Repr == old(Repr) + {newNode}
      ensures Contents == InsertAt(old(Contents), index, old(newNode.data))
    {
      newNode.next := current;
      newNode.prev := current.prev;
      if current.prev != null {
        current.prev.next := newNode;
      }
      current.prev := newNode;
      size := size + 1;
      InsertAtShifts(nodes, index, newNode);
      InsertAtShifts(Contents, index, newNode.data);
      nodes := InsertAt(nodes, index, newNode);
      Contents := InsertAt(Contents, index, newNode.data);
      Repr := Repr + {newNode};
    }

    /** Unlinks the inner node `current`, joining its neighbours. */
    method Unlink(current: Node<T>, ghost index: nat)
      requires Valid() && 0 < index < size - 1 && current == nodes[index]
      modifies Repr
      ensures Valid() && Repr == old(Repr) - {current}
      ensures Contents == EraseAt(old(Contents), index)
    {
      current.prev.next := current.next;
      if current.next != null {
        current.next.prev := current.prev;
      }
      size := size - 1;
      EraseAtShifts(nodes, index);
      EraseAtShifts(Contents, index);
      nodes := EraseAt(nodes, index);
      Contents := EraseAt(Contents, index);
      Repr := Repr - {current};
    }

    /** insert(index, value): "Index out of range" when index > size; otherwise the
        value lands at position index (push_front / push_back at the ends). */
    method Insert(index: nat, value: T) returns (st: Status)
      requires Valid()
      modifies Repr
      ensures Valid() && fresh(Repr - old(Repr))
      ensures index > old(size) ==> st == Failed(IndexOutOfRange) && Contents == old(Contents)
      ensures index <= old(size) ==> st == Done && Contents == InsertAt(old(Contents), index, value)
    {
      if index > size {
        return Failed(IndexOutOfRange);
      }
      InsertAtEnds(Contents, value);
      if index == 0 {
        PushFront(value);
      } else if index == size {
        PushBack(value);
      } else {
        var newNode := new Node(value);
        var current := NodeAt(index);
        LinkBefore(current, newNode, index);
      }
      return Done;
    }

    /** erase(index): "Index out of range" when index >= size; otherwise the element
        at that position goes (pop_front / pop_back at the ends). */
    method Erase(index: nat) returns (st: Status)
      requires Valid()
      modifies Repr
      ensures Valid() && Repr <= old(Repr)
      ensures index >= old(size) ==> st == Failed(IndexOutOfRange) && Contents == old(Contents)
      ensures index < old(size) ==> st == Done && Contents == EraseAt(old(Contents), index)
    {
      if index >= size {
        return Failed(IndexOutOfRange);
      }
      var current := NodeAt(index);
      RemoveNode(current, index);
      return Done;
    }

    /** Takes the node at `index` out of the chain: through pop_front at the head,
        otherwise through RemoveAfterHead. */
    method RemoveNode(current: Node<T>, ghost index: nat)
      requires Valid() && index < size && current == nodes[index]
      modifies Repr
      ensures Valid() && Repr <= old(Repr)
      ensures Contents == EraseAt(old(Contents), index)
    {
      EraseAtEnds(Contents);
      if current == head {
        var _ := PopFront();
      } else {
        RemoveAfterHead(current, index);
      }
    }

    /** Takes a node other than the head out: through pop_back at the tail,
        otherwise by joining its neighbours. */
    method RemoveAfterHead(current: Node<T>, ghost index: nat)
      requires Valid() && 0 < index < size && current == nodes[index]
      modifies Repr
      ensures Valid() && Repr <= old(Repr)
      ensures Contents == EraseAt(old(Contents), index)
    {
      EraseAtEnds(Contents);
      if current == tail {
        var _ := PopBack();
      } else {
        Unlink(current, index);
      }
    }

    /** remove(value): the first node holding `value` goes; "Element not found",
        with the list unchanged, when there is none. */
    method Remove(value: T) returns (st: Status)
      requires Valid()
      modifies Repr
      ensures Valid() && Repr <= old(Repr)
      ensures value !in old(Contents) ==> st == Failed(ElementNotFound) && Contents == old(Contents)
      ensures value in old(Contents) ==>
        st == Done && Contents == EraseAt(old(Contents), IndexOf(old(Contents), value))
    {
      var current := head;
      ghost var j := 0;
      while current != null
        invariant 0 <= j <= size && current == (if j < size then nodes[j] else null)
        invariant value !in Contents[..j]
        decreases size - j
      {
        if current.data == value {
          assert Contents[..j + 1] == Contents[..j] + [value];
          RemoveNode(current, j);
          return Done;
        }
        assert Contents[..j + 1] == Contents[..j] + [Contents[j]];
        current := current.next;
        j := j + 1;
      }
      assert Contents[..j] == Contents;
      return Failed(ElementNotFound);
    }

    /** at(index): "Index out of range" when index >= size, otherwise the element
        reached by walking from the head. */
    method At(index: nat) returns (r: Result<T>)
      requires Valid()
      ensures r == if index < |Contents| then Ok(Contents[index]) else Err(IndexOutOfRange)
    {
      if index >= size {
        return Err(IndexOutOfRange);
      }
      var current := NodeAt(index);
      return Ok(current.data);
    }

    /** find(value): the position of the first node holding `value`, or none (the
        end sentinel). */
    method Find(value: T) returns (r: Option<nat>)
      requires Valid()
      ensures r == if value in Contents then Some(IndexOf(Contents, value)) else None
    {
      var current := head;
      var j := 0;
      while current != null
        invariant 0 <= j <= size && current == (if j < size then nodes[j] else null)
        invariant value !in Contents[..j]
        decreases size - j
      {
        if current.data == value {
          assert Contents[..j + 1] == Contents[..j] + [value];
          return Some(j);
        }
        assert Contents[..j + 1] == Contents[..j] + [Contents[j]];
        current := current.next;
        j := j + 1;
      }
      assert Contents[..j] == Contents;
      return None;
    }

    /** The elements met walking `next` from the head (what print emits). */
    method Forward() returns (s: seq<T>)
      requires Valid()
      ensures s == Contents
    {
      var current := head;
      s := [];
      while current != null
        invariant |s| <= size && s == Contents[..|s|]
        invariant current == if |s| < size then nodes[|s|] else null
        decreases size - |s|
      {
        s := s + [current.data];
        current := current.next;
      }
    }

    /** The elements met walking `prev` from the tail (what reversePrint emits). */
    method Backward() returns (s: seq<T>)
      requires Valid()
      ensures s == Reverse(Contents)
    {
      var current := tail;
      s := [];
      while current != null
        invariant |s| <= size && s == Reverse(Contents)[..|s|]
        invariant current == if |s| < size then nodes[size - 1 - |s|] else null
        decreases size - |s|
      {
        s := s + [current.data];
        current := current.prev;
      }
    }

    /** reverse: swaps every node's two links, then head and tail. */
    method ReverseInPlace()
      requires Valid()
      modifies Repr
      ensures Valid() && Repr == old(Repr)
      ensures Contents == Reverse(old(Contents))
    {
      if size <= 1 {
        return;
      }
      ghost var chain := nodes;
      var current := head;
      ghost var j := 0;
      while current != null
        invariant 0 <= j <= size == |chain| && current == (if j < size then chain[j] else null)
        invariant head == old(head) && tail == old(tail) && size == old(size)
        invariant nodes == chain && Contents == old(Contents) && Repr == old(Repr)
        invariant forall k :: 0 <= k < size ==> chain[k] in Repr && chain[k].data == Contents[k]
        invariant forall k, m :: 0 <= k < m < size ==> chain[k] != chain[m]
        invariant forall k {:trigger chain[k].next} :: 0 <= k < size ==>
          chain[k].next == if k < j then (if k > 0 then chain[k - 1] else null)
                           else (if k + 1 < size then chain[k + 1] else null)
        invariant forall k {:trigger chain[k].prev} :: 0 <= k < size ==>
          chain[k].prev == if k < j then (if k + 1 < size then chain[k + 1] else null)
                           else (if k > 0 then chain[k - 1] else null)
        decreases size - j
      {
        var temp := current.prev;
        current.prev := current.next;
        current.next := temp;
        current := current.prev;
        j := j + 1;
      }
      head, tail := tail, head;
      ghost var elems := Contents;
      nodes := Reverse(chain);
      Contents := Reverse(elems);
      ReversedChainValid(chain, elems);
    }

    /** Once every link of `chain` points the other way, the reversed chain is a
        valid list of the reversed elements. */
    lemma ReversedChainValid(chain: seq<Node<T>>, elems: seq<T>)
      requires this in Repr && |chain| == size == |elems| && size > 1
      requires forall k :: 0 <= k < size ==> chain[k] in Repr && chain[k].data == elems[k]
      requires forall k, m :: 0 <= k < m < size ==> chain[k] != chain[m]
      requires forall k {:trigger chain[k].next} :: 0 <= k < size ==>
        chain[k].next == if k > 0 then chain[k - 1] else null
      requires forall k {:trigger chain[k].prev} :: 0 <= k < size ==>
        chain[k].prev == if k + 1 < size then chain[k + 1] else null
      requires head == chain[size - 1] && tail == chain[0]
      requires nodes == Reverse(chain) && Contents == Reverse(elems)
      ensures Valid()
    {
      forall i | 0 <= i < size
        ensures nodes[i] == chain[size - 1 - i]
        ensures nodes[i].next == if i + 1 < size then nodes[i + 1] else null
        ensures nodes[i].prev == if i > 0 then nodes[i - 1] else null
      {
        var k := size - 1 - i;
        assert chain[k].next == if k > 0 then chain[k - 1] else null;
        assert chain[k].prev == if k + 1 < size then chain[k + 1] else null;
      }
      forall i, j | 0 <= i < j < size ensures nodes[i] != nodes[j] {
        assert nodes[i] == chain[size - 1 - i] && nodes[j] == chain[size - 1 - j];
      }
    }
  }

  /** push_back 10, push_back 20, push_front 5: front 5 and back 20; pop_back:
      back 10; pop_front: front 10. */
  method FrontBackExample() returns (f1: Result<int>, b1: Result<int>, b2: Result<int>, f2: Result<int>)
    ensures f1 == Ok(5) && b1 == Ok(20) && b2 == Ok(10) && f2 == Ok(10)
  {
    var list := new List<int>();
    list.PushBack(10);
    list.PushBack(20);
    list.PushFront(5);
    f1 := list.Front();
    b1 := list.Back();
    var _ := list.PopBack();
    b2 := list.Back();
    var _ := list.PopFront();
    f2 := list.Front();
  }

  /** Inserting at size + 1 fails, erasing past the end fails, and removing an
      absent value fails, each leaving [1, 2, 3] as it was. */
  method ErrorExample() returns (r: seq<int>, s1: Status, s2: Status, s3: Status)
    ensures r == [1, 2, 3]
    ensures s1 == Failed(IndexOutOfRange) && s2 == Failed(IndexOutOfRange)
    ensures s3 == Failed(ElementNotFound)
  {
    var list := new List<int>();
    list.PushBack(1);
    list.PushBack(2);
    list.PushBack(3);
    s1 := list.Insert(4, 9);
    s2 := list.Erase(3);
    s3 := list.Remove(7);
    r := list.Forward();
  }

  /** Reversing [1, 2, 3] gives [3, 2, 1]; reversing again restores it. */
  method ReverseExample() returns (once: seq<int>, twice: seq<int>)
    ensures once == [3, 2, 1] && twice == [1, 2, 3]
  {
    var list := new List<int>();
    list.PushBack(1);
    list.PushBack(2);
    list.PushBack(3);
    list.ReverseInPlace();
    once := list.Forward();
    list.ReverseInPlace();
    twice := list.Forward();
  }
}
