/** The generic circular doubly-linked list of circular_doubly_linked_list.c:
    nodes carry a copy of the element, `head` and `tail` are NULL exactly when
    the list is empty, and otherwise `tail.next == head` and `head.prev == tail`. */
module CircularList {
  import opened Words

  class Node<T> {
    var data: T
    var next: Node?<T>
    var prev: Node?<T>

    constructor (d: T)
      ensures data == d && next == null && prev == null
    {
      data := d;
      next := null;
      prev := null;
    }
  }

  class List<T> {
    var head: Node?<T>
    var tail: Node?<T>
    var size: nat

    // public view: the elements from head to tail, and the nodes holding them
    ghost var Contents: seq<T>
    ghost var Nodes: seq<Node<T>>
    ghost var Repr: set<object>

    /** The link invariant of the list. */
    ghost predicate Valid()
      reads this, Repr
    {
      && this in Repr
      && |Nodes| == size && |Contents| == size
      && (forall i :: 0 <= i < size ==> Nodes[i] in Repr)
      && (forall i, j :: 0 <= i < j < size ==> Nodes[i] != Nodes[j])
      && (forall i :: 0 <= i < size ==> Nodes[i].data == Contents[i])
      && (forall i {:trigger Nodes[i].next} :: 0 <= i < size - 1 ==> Nodes[i].next == Nodes[i + 1])
      && (forall i {:trigger Nodes[i].prev} :: 0 < i < size ==> Nodes[i].prev == Nodes[i - 1])
      && (size == 0 ==> head == null && tail == null)
      && (size > 0 ==> head == Nodes[0] && tail == Nodes[size - 1])
      && (size > 0 ==> tail.next == head && head.prev == tail)
    }

    /** create_list: an empty list. */
    constructor ()
      ensures Valid() && fresh(Repr)
      ensures Contents == [] && size == 0 && head == null && tail == null
    {
      head := null;
      tail := null;
      size := 0;
      Contents := [];
      Nodes := [];
      Repr := {this};
    }

    /** get_node: the node at `n mod size`, or NULL for a negative position.
        The C code divides by the size before testing the sign, so an empty
        list is outside its domain. */
    method GetNode(n: int) returns (r: Node?<T>)
      requires Valid() && size > 0
      ensures IsNegative(n) ==> r == null
      ensures !IsNegative(n) ==> r == Nodes[n % size] && r.data == Contents[n % size]
    {
      var current := head;
      var position := n % size;
      if IsNegative(n) {
        return null;
      } else {
        if position == 0 {
          return head;
        }
        if position == size - 1 {
          return tail;
        }
        var i := 0;
        while i < position
          invariant 0 <= i <= position
          invariant current == Nodes[i]
        {
          current := current.next;
          i := i + 1;
        }
      }
      return current;
    }

    /** add_node: a copy of `d` becomes the element at position `n`. */
    method AddNode(n: int, d: T)
      requires Valid()
      requires IsNegative(n) || n <= size
      modifies Repr
      ensures Valid() && fresh(Repr - old(Repr))
      ensures IsNegative(n) ==> Contents == old(Contents) && size == old(size)
      ensures !IsNegative(n) ==> size == old(size) + 1
      ensures !IsNegative(n) ==> Contents == old(Contents)[..n] + [d] + old(Contents)[n..]
      ensures !IsNegative(n) && old(size) == 0 ==>
                head == tail && head.next == head && head.prev == head
    {
      var auxiliary := new Node(d);
      if IsNegative(n) {
        return;
      }
      Insert(n, auxiliary);
    }

    /** The splice of add_node for a non-negative position (circular_doubly_linked_list.c:80-121). */
    method Insert(n: nat, auxiliary: Node<T>)
      requires Valid() && n <= size && auxiliary !in Repr
      modifies Repr, auxiliary
      ensures Valid() && Repr == old(Repr) + {auxiliary}
      ensures size == old(size) + 1
      ensures Contents == old(Contents)[..n] + [old(auxiliary.data)] + old(Contents)[n..]
      ensures old(size) == 0 ==> head == tail && head.next == head && head.prev == head
    {
      if n == 0 {
        if head != null {
          LinkFirst(auxiliary);
        } else {
          LinkOnly(auxiliary);
        }
      } else if n == size {
        LinkLast(auxiliary);
      } else {
        var current := GetNode(n - 1);
        assert (n - 1) % size == n - 1;
        LinkAfter(n - 1, current, auxiliary);
      }
    }

    // The four splicing cases of add_node (circular_doubly_linked_list.c:80-118).

    method LinkOnly(auxiliary: Node<T>)
      requires Valid() && size == 0 && auxiliary !in Repr
      modifies this, auxiliary
      ensures Valid() && Repr == old(Repr) + {auxiliary}
      ensures size == 1 && auxiliary.data == old(auxiliary.data)
      ensures Contents == old(Contents)[..0] + [auxiliary.data] + old(Contents)[0..]
      ensures head == tail == auxiliary && auxiliary.next == auxiliary && auxiliary.prev == auxiliary
    {
      head := auxiliary;
      tail := auxiliary;
      auxiliary.next := head;
      auxiliary.prev := head;
      size := size + 1;
      Nodes := [auxiliary];
      Contents := [auxiliary.data];
      Repr := Repr + {auxiliary};
    }

    method LinkFirst(auxiliary: Node<T>)
      requires Valid() && size > 0 && auxiliary !in Repr
      modifies Repr, auxiliary
      ensures Valid() && Repr == old(Repr) + {auxiliary} && auxiliary.data == old(auxiliary.data)
      ensures size == old(size) + 1
      ensures Contents == old(Contents)[..0] + [auxiliary.data] + old(Contents)[0..]
    {
      auxiliary.next := head;
      auxiliary.prev := tail;
      head.prev := auxiliary;
      tail.next := auxiliary;
      head := auxiliary;
      size := size + 1;
      Nodes := [auxiliary] + Nodes;
      Contents := [auxiliary.data] + Contents;
      Repr := Repr + {auxiliary};
    }

    method LinkLast(auxiliary: Node<T>)
      requires Valid() && size > 0 && auxiliary !in Repr
      modifies Repr, auxiliary
      ensures Valid() && Repr == old(Repr) + {auxiliary} && auxiliary.data == old(auxiliary.data)
      ensures size == old(size) + 1
      ensures Contents == old(Contents)[..old(size)] + [auxiliary.data] + old(Contents)[old(size)..]
    {
      tail.next := auxiliary;
      auxiliary.prev := tail;
      auxiliary.next := head;
      head.prev := auxiliary;
      tail := auxiliary;
      size := size + 1;
      Nodes := Nodes + [auxiliary];
      Contents := Contents + [auxiliary.data];
      Repr := Repr + {auxiliary};
    }

    method LinkAfter(k: nat, current: Node<T>, auxiliary: Node<T>)
      requires Valid() && k < size - 1 && current == Nodes[k] && auxiliary !in Repr
      modifies Repr, auxiliary
      ensures Valid() && Repr == old(Repr) + {auxiliary} && auxiliary.data == old(auxiliary.data)
      ensures size == old(size) + 1
      ensures Contents == old(Contents)[..k + 1] + [auxiliary.data] + old(Contents)[k + 1..]
    {
      assert current.next == Nodes[k + 1];
      auxiliary.next := current.next;
      current.next.prev := auxiliary;
      auxiliary.prev := current;
      current.next := auxiliary;
      size := size + 1;
      Nodes := Nodes[..k + 1] + [auxiliary] + Nodes[k + 1..];
      Contents := Contents[..k + 1] + [auxiliary.data] + Contents[k + 1..];
      Repr := Repr + {auxiliary};
    }

    /** remove_node: unlinks the node at position `n` and hands it back;
        NULL for a negative position or an empty list. */
    method RemoveNode(n: int) returns (r: Node?<T>)
      requires Valid()
      requires IsNegative(n) || size == 0 || n < size
      modifies Repr
      ensures Valid() && Repr == old(Repr)
      ensures IsNegative(n) || old(size) == 0 ==>
                r == null && Contents == old(Contents) && size == old(size)
      ensures !IsNegative(n) && old(size) > 0 ==>
                && r != null && r.data == old(Contents)[n]
                && size == old(size) - 1
                && Contents == old(Contents)[..n] + old(Contents)[n + 1..]
      ensures !IsNegative(n) && old(size) == 1 ==> head == null && tail == null
    {
      if IsNegative(n) {
        return null;
      } else if head == null {
        return null;
      } else if n == 0 {
        r := UnlinkFirst();
      } else if n == size - 1 {
        r := UnlinkLast();
      } else {
        var current := GetNode(n);
        assert n % size == n;
        UnlinkInner(n, current);
        r := current;
      }
    }

    // The three unlinking cases of remove_node (circular_doubly_linked_list.c:145-176).

    method UnlinkFirst() returns (auxiliary: Node<T>)
      requires Valid() && size > 0
      modifies Repr
      ensures Valid() && Repr == old(Repr)
      ensures auxiliary.data == old(Contents)[0] && size == old(size) - 1 && Contents == old(Contents)[1..]
      ensures old(size) == 1 ==> head == null && tail == null
    {
      auxiliary := head;
      assert size > 1 ==> auxiliary.next == Nodes[1];
      head := auxiliary.next;
      head.prev := tail;
      tail.next := head;
      size := size - 1;
      if size == 0 {
        head := null;
        tail := null;
      }
      Nodes := Nodes[1..];
      Contents := Contents[1..];
    }

    method UnlinkLast() returns (auxiliary: Node<T>)
      requires Valid() && size > 1
      modifies Repr
      ensures Valid() && Repr == old(Repr)
      ensures auxiliary.data == old(Contents)[old(size) - 1] && size == old(size) - 1
      ensures Contents == old(Contents)[..old(size) - 1]
    {
      auxiliary := tail;
      assert auxiliary.prev == Nodes[size - 2];
      tail := auxiliary.prev;
      tail.next := head;
      head.prev := tail;
      size := size - 1;
      Nodes := Nodes[..size];
      Contents := Contents[..size];
    }

    method UnlinkInner(k: nat, current: Node<T>)
      requires Valid() && 0 < k < size - 1 && current == Nodes[k]
      modifies Repr
      ensures Valid() && Repr == old(Repr)
      ensures current.data == old(Contents)[k] && size == old(size) - 1
      ensures Contents == old(Contents)[..k] + old(Contents)[k + 1..]
    {
      assert current.prev == Nodes[k - 1] && current.next == Nodes[k + 1];
      current.prev.next := current.next;
      current.next.prev := current.prev;
      size := size - 1;
      Nodes := Nodes[..k] + Nodes[k + 1..];
      Contents := Contents[..k] + Contents[k + 1..];
    }

    /** The write through a node pointer that server_store performs on the
        value of an existing entry: the element at position `i` becomes `d`. */
    method SetData(ghost i: nat, node: Node<T>, d: T)
      requires Valid() && i < size && node == Nodes[i]
      modifies this, node
      ensures Valid() && Repr == old(Repr) && Nodes == old(Nodes) && size == old(size)
      ensures Contents == old(Contents)[i := d]
    {
      node.data := d;
      Contents := Contents[i := d];
    }
  }
}
