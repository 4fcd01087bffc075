/**
 * The unbounded linked-list SPSC of `UnboundedSpscEnqueuer` and
 * `UnboundedSpscDequeuer`.  One enqueuer's channel is a singly linked list
 * from the node in `first` to the node in `last`; the node in `last` is an
 * empty dummy that the next enqueue fills.  `announce`, `help` and
 * `free_later` let the enqueuer read the front while the dequeuer may be
 * unlinking it.  A node's `next` field stands for the one-cell window that
 * holds the pointer to the next node.
 */
module UnboundedSpsc {
  import opened Wrappers

  class Node<T(0)> {
    var value: T
    var next: Node?<T>

    /** `BCL::alloc<node_t>` plus its `next` cell set to null; the value is left unset. */
    constructor ()
      ensures next == null
    {
      next := null;
    }
  }

  class Channel<T(0)> {
    /** The cells `_first`, `_last`, `_announce`, `_free_later` and `_help` of one enqueuer. */
    var first: Node?<T>
    var last: Node?<T>
    var announce: Node?<T>
    var freeLater: Node?<T>
    var help: T

    /** The linked nodes from `first` to `last`, and the values they hold. */
    ghost var nodes: seq<Node<T>>
    ghost var contents: seq<T>
    ghost var Repr: set<object>

    ghost predicate Valid()
      reads this, Repr
    {
      this in Repr &&
      |nodes| >= 1 && |contents| == |nodes| - 1 &&
      (forall i :: 0 <= i < |nodes| ==> nodes[i] in Repr) &&
      first == nodes[0] && last == nodes[|nodes| - 1] && nodes[|nodes| - 1].next == null &&
      freeLater != null &&
      (forall i, j :: 0 <= i < j < |nodes| ==> nodes[i] != nodes[j]) &&
      (forall i :: 0 <= i < |nodes| - 1 ==> nodes[i].next == nodes[i + 1]) &&
      (forall i :: 0 <= i < |contents| ==> nodes[i].value == contents[i])
    }

    /**
     * Both constructors together: `first` and `last` point at the same fresh
     * dummy node, `announce` is null and `free_later` is a fresh node.
     */
    constructor ()
      ensures Valid() && fresh(Repr)
      ensures contents == [] && first == last && announce == null
      ensures freeLater != null && freeLater != first
    {
      var dummy := new Node();
      var spare := new Node();
      first, last := dummy, dummy;
      announce := null;
      freeLater := spare;
      nodes, contents := [dummy], [];
      Repr := {this, dummy};
    }

    /**
     * `enqueue`: the value is stored in the current `last` node, a fresh empty
     * node is linked behind it and becomes `last`.  It always succeeds.
     */
    method Enqueue(x: T) returns (ok: bool)
      requires Valid()
      modifies this, last
      ensures Valid() && fresh(Repr - old(Repr))
      ensures ok && contents == old(contents) + [x]
      ensures first == old(first) && announce == old(announce) && freeLater == old(freeLater) && help == old(help)
      ensures last != old(last) && old(last).value == x && old(last).next == last
    {
      var newNode := new Node();
      var tmp := last;
      tmp.value := x;
      tmp.next := newNode;
      last := newNode;
      nodes, contents := nodes + [newNode], contents + [x];
      Repr := Repr + {newNode};
      ok := true;
    }

    /**
     * The enqueuer's `read_front`: false exactly when `first == last`;
     * otherwise the front node is announced and its value returned (the
     * `help` value is used instead only if `first` moved in between, which a
     * single caller never sees).
     */
    method EnqueuerReadFront() returns (r: Option<T>)
      requires Valid()
      modifies this`announce
      ensures Valid() && contents == old(contents)
      ensures r.Some? <==> contents != []
      ensures r.Some? ==> r.value == contents[0] && announce == first
      ensures r.None? ==> announce == old(announce)
    {
      var tmp := first;
      if tmp == last {
        return None;
      }
      announce := tmp;
      if tmp != first {
        r := Some(help);
      } else {
        r := Some(tmp.value);
      }
    }

    /**
     * `dequeue`: false exactly when `first == last`; otherwise the front
     * node's value is returned and copied to `help`, `first` moves to the next
     * node, and a front node that was announced becomes `free_later`.
     */
    method Dequeue() returns (r: Option<T>)
      requires Valid()
      modifies this`first, this`help, this`freeLater, this`nodes, this`contents
      ensures Valid()
      ensures r.Some? <==> old(contents) != []
      ensures r.Some? ==> r.value == old(contents)[0] && contents == old(contents)[1..] && help == r.value
      ensures r.Some? ==> first == old(first).next
      ensures r.Some? ==> freeLater == if old(first) == announce then old(first) else old(freeLater)
      ensures r.None? ==> first == old(first) && help == old(help) && freeLater == old(freeLater) && contents == old(contents)
      ensures last == old(last) && announce == old(announce)
    {
      var tmp := first;
      if tmp == last {
        return None;
      }
      var out := tmp.value;
      help := out;
      first := tmp.next;
      nodes, contents := nodes[1..], contents[1..];
      if tmp == announce {
        freeLater := tmp;
      }
      r := Some(out);
    }

    /** The dequeuer's `read_front`: the front value, without changing any cell. */
    method DequeuerReadFront() returns (r: Option<T>)
      requires Valid()
      ensures r.Some? <==> contents != []
      ensures r.Some? ==> r.value == contents[0]
    {
      var tmp := first;
      if tmp == last {
        return None;
      }
      r := Some(tmp.value);
    }
  }
}
