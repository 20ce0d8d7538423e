/**
  A queue of strings kept in a singly linked list (queue.c). The queue header
  holds `head`, `tail` and a cached `size`; every node owns its own copy of
  one string. Each C function that takes a possibly-NULL `queue_t *` is a
  method here taking a `Queue?`; the outcome of each `malloc` it performs is
  a parameter, so that both the success and the failure path are modelled.
 */
module Queue {
  import opened CStrings

  /** One list element: an owned string (never containing NUL) and a successor link. */
  class Node {
    var value: seq<char>
    var next: Node?

    constructor ()
      ensures value == [] && next == null
    {
      value := [];
      next := null;
    }
  }

  /** The objects in a sequence of nodes. */
  ghost function Elems(ns: seq<Node>): set<Node>
  {
    set n | n in ns
  }

  lemma ElemsAppend(ns: seq<Node>, n: Node)
    ensures Elems(ns + [n]) == Elems(ns) + {n}
  {
    assert forall m :: m in ns + [n] <==> m in ns || m == n;
  }

  class Queue {
    var head: Node?
    var tail: Node?
    var size: int

    // The list as seen by proofs: its nodes in order, their strings, and a
    // footprint holding the header and every linked node.
    ghost var nodes: seq<Node>
    ghost var Contents: seq<seq<char>>
    ghost var Repr: set<object>

    /** The queue's invariant: `nodes` is the chain from `head`, linked by `next`, ending at `tail`. */
    ghost predicate Valid()
      reads this, Repr
    {
      && this in Repr
      && (forall i | 0 <= i < |nodes| :: nodes[i] in Repr)
      && (forall i, j | 0 <= i < j < |nodes| :: nodes[i] != nodes[j])
      && size == |nodes| == |Contents|
      && (forall i | 0 <= i < |nodes| :: nodes[i].value == Contents[i] && NUL !in Contents[i])
      && (forall i | 0 <= i < |nodes| - 1 :: nodes[i].next == nodes[i + 1])
      && (nodes != [] ==> nodes[|nodes| - 1].next == null)
      && head == (if nodes == [] then null else nodes[0])
      && tail == (if nodes == [] then null else nodes[|nodes| - 1])
    }

    constructor ()
      ensures Valid() && fresh(Repr)
      ensures head == null && tail == null && size == 0
      ensures nodes == [] && Contents == []
    {
      head, tail, size := null, null, 0;
      nodes, Contents := [], [];
      Repr := {this};
    }
  }

  /** Linking a fresh node in front of a valid queue's nodes keeps it valid. */
  twostate lemma PrependKeepsValid(q: Queue, new n: Node)
    requires old(q.Valid()) && unchanged(old(q.nodes)) && fresh(n)
    requires n.next == old(q.head) && NUL !in n.value
    requires q.nodes == [n] + old(q.nodes) && q.Contents == [n.value] + old(q.Contents)
    requires q.head == n && q.tail == (if old(q.head) == null then n else old(q.tail))
    requires q.size == old(q.size) + 1 && q.Repr == old(q.Repr) + {n}
    ensures q.Valid()
  {
  }

  /** Linking a fresh node after a valid queue's last node keeps it valid. */
  twostate lemma AppendKeepsValid(q: Queue, new n: Node)
    requires old(q.Valid()) && fresh(n) && n.next == null && NUL !in n.value
    requires forall i | 0 <= i < |old(q.nodes)| - 1 :: unchanged(old(q.nodes)[i])
    requires old(q.tail) != null ==> old(q.tail).value == old(q.tail.value) && old(q.tail).next == n
    requires q.nodes == old(q.nodes) + [n] && q.Contents == old(q.Contents) + [n.value]
    requires q.head == (if old(q.head) == null then n else old(q.head)) && q.tail == n
    requires q.size == old(q.size) + 1 && q.Repr == old(q.Repr) + {n}
    ensures q.Valid()
  {
  }

  /** Unlinking the first node of a valid, non-empty queue keeps it valid. */
  twostate lemma DropFirstKeepsValid(q: Queue)
    requires old(q.Valid()) && old(q.nodes) != [] && unchanged(old(q.nodes))
    requires q.nodes == old(q.nodes)[1..] && q.Contents == old(q.Contents)[1..]
    requires q.head == old(q.head.next) && q.tail == (if q.head == null then null else old(q.tail))
    requires q.size == old(q.size) - 1 && q.Repr == old(q.Repr) - {old(q.head)}
    ensures q.Valid()
  {
    assert forall i | 1 <= i < |old(q.nodes)| :: old(q.nodes)[0] != old(q.nodes)[i];
  }

  /** Turning every link of a valid, non-empty queue around, with `head` and `tail` swapped, keeps it valid. */
  twostate lemma TurnAroundKeepsValid(q: Queue)
    requires old(q.Valid()) && old(q.nodes) != []
    requires var ns := old(q.nodes);
      && (forall i | 0 <= i < |ns| :: ns[i].value == old(q.Contents)[i])
      && (forall i | 0 < i < |ns| :: ns[i].next == ns[i - 1])
      && ns[0].next == null
    requires q.nodes == Reversed(old(q.nodes)) && q.Contents == Reversed(old(q.Contents))
    requires q.head == old(q.tail) && q.tail == old(q.head)
    requires q.size == old(q.size) && q.Repr == old(q.Repr)
    ensures q.Valid()
  {
    ReversedAll(old(q.nodes));
    ReversedAll(old(q.Contents));
  }

  /** `q_new`: an empty queue, or NULL when the header cannot be allocated. */
  method New(headerAllocated: bool) returns (q: Queue?)
    ensures q != null <==> headerAllocated
    ensures q != null ==> q.Valid() && fresh(q.Repr)
    ensures q != null ==> q.head == null && q.tail == null && q.size == 0 && q.Contents == []
  {
    if !headerAllocated {
      return null;
    }
    q := new Queue();
  }

  /**
    `q_free`: walks the list from `head`, releasing every node (a released
    node leaves `Repr`), and clears the header. Only the header is left.
   */
  method Free(q: Queue?)
    requires q != null ==> q.Valid()
    modifies if q == null then {} else q.Repr
    ensures q != null ==> q.Valid() && q.Repr == old(q.Repr) - Elems(old(q.nodes))
    ensures q != null ==> q.head == null && q.tail == null && q.size == 0 && q.Contents == []
  {
    if q == null {
      return;
    }
    ghost var ns := q.nodes;
    ghost var k := 0;
    var tmp := q.head;
    while tmp != null
      modifies q
      invariant 0 <= k <= |ns|
      invariant tmp == q.head == if k < |ns| then ns[k] else null
      invariant q.Repr == old(q.Repr) - Elems(ns[..k])
      invariant forall i | 0 <= i < |ns| - 1 :: ns[i].next == ns[i + 1]
      invariant ns != [] ==> ns[|ns| - 1].next == null
      decreases |ns| - k
    {
      q.head := q.head.next;
      // free(tmp->value); free(tmp);
      q.Repr := q.Repr - {tmp};
      ElemsAppend(ns[..k], tmp);
      assert ns[..k + 1] == ns[..k] + [tmp];
      k := k + 1;
      tmp := q.head;
    }
    q.head := null;
    q.tail := null;
    q.size := 0;
    q.nodes, q.Contents := [], [];
    assert ns[..k] == ns;
  }

  /**
    `q_insert_head`: fails, changing nothing, when `q` is NULL or either
    allocation fails (a node whose string could not be allocated is released
    and never linked). Otherwise a fresh node holding a copy of the text of
    `s` becomes the new `head`, and also `tail` when the queue was empty.
   */
  method InsertHead(q: Queue?, s: seq<char>, nodeAllocated: bool, valueAllocated: bool)
    returns (ok: bool)
    requires q != null ==> q.Valid()
    requires q != null && nodeAllocated ==> Terminated(s)  // strlen(s) runs only once the node exists
    modifies if q == null then {} else q.Repr
    ensures ok <==> q != null && nodeAllocated && valueAllocated
    ensures q != null ==> q.Valid() && fresh(q.Repr - old(q.Repr))
    ensures q != null && !ok ==> unchanged(q) && unchanged(q.Repr)
    ensures ok ==> q.Contents == [Text(s)] + old(q.Contents) && q.size == old(q.size) + 1
    ensures ok ==> fresh(q.head) && q.nodes == [q.head] + old(q.nodes) && q.Repr == old(q.Repr) + {q.head}
    ensures ok ==> q.head.next == old(q.head) && q.tail == if old(q.head) == null then q.head else old(q.tail)
  {
    if q == null {
      return false;
    }
    if !nodeAllocated {
      return false;
    }
    var newh := new Node();
    if !valueAllocated {
      // free(newh): the node is dropped without ever being linked
      return false;
    }
    newh.value := Text(s);  // strncpy(newh->value, s, len + 1)
    if q.head == null {
      q.tail := newh;
    }
    newh.next := q.head;
    q.head := newh;
    q.size := q.size + 1;
    q.nodes := [newh] + q.nodes;
    q.Contents := [newh.value] + q.Contents;
    q.Repr := q.Repr + {newh};
    PrependKeepsValid(q, newh);
    ok := true;
  }

  /**
    `q_insert_tail`: the same failure cases as `q_insert_head`. Otherwise a
    fresh node with no successor, holding a copy of the text of `s`, is
    linked after the old `tail` (or becomes `head` of an empty queue) and
    becomes `tail`; the list is not traversed.
   */
  method InsertTail(q: Queue?, s: seq<char>, nodeAllocated: bool, valueAllocated: bool)
    returns (ok: bool)
    requires q != null ==> q.Valid()
    requires q != null && nodeAllocated ==> Terminated(s)  // strlen(s) runs only once the node exists
    modifies if q == null then {} else q.Repr
    ensures ok <==> q != null && nodeAllocated && valueAllocated
    ensures q != null ==> q.Valid() && fresh(q.Repr - old(q.Repr))
    ensures q != null && !ok ==> unchanged(q) && unchanged(q.Repr)
    ensures ok ==> q.Contents == old(q.Contents) + [Text(s)] && q.size == old(q.size) + 1
    ensures ok ==> fresh(q.tail) && q.nodes == old(q.nodes) + [q.tail] && q.Repr == old(q.Repr) + {q.tail}
    ensures ok ==> q.tail.next == null && q.head == if old(q.head) == null then q.tail else old(q.head)
  {
    if q == null {
      return false;
    }
    if !nodeAllocated {
      return false;
    }
    var newh := new Node();
    if !valueAllocated {
      // free(newh): the node is dropped without ever being linked
      return false;
    }
    newh.value := Text(s);  // strncpy(newh->value, s, len + 1)
    newh.next := null;
    if q.head == null {
      q.head := newh;
    } else {
      q.tail.next := newh;
    }
    q.tail := newh;
    q.size := q.size + 1;
    q.nodes := q.nodes + [newh];
    q.Contents := q.Contents + [newh.value];
    q.Repr := q.Repr + {newh};
    AppendKeepsValid(q, newh);
    ok := true;
  }

  /**
    `q_remove_head`: fails, changing nothing, when `q` is NULL or empty.
    Otherwise the head node is unlinked and released, `tail` is cleared when
    the queue becomes empty, and, when `sp` is not NULL, the removed string
    is copied into `sp[0..bufsize)`, truncated and always terminated; no cell
    at or beyond `bufsize` is written.
   */
  method RemoveHead(q: Queue?, sp: array?<char>, bufsize: nat) returns (ok: bool)
    requires q != null ==> q.Valid()
    requires sp != null ==> 1 <= bufsize <= sp.Length
    modifies if q == null then {} else q.Repr, sp
    ensures ok <==> q != null && old(q.Contents) != []
    ensures q != null ==> q.Valid()
    ensures q != null && !ok ==> unchanged(q)
    ensures !ok && sp != null ==> sp[..] == old(sp[..])
    ensures ok ==> q.Contents == old(q.Contents)[1..] && q.size == old(q.size) - 1
    ensures ok ==> q.nodes == old(q.nodes)[1..] && q.Repr == old(q.Repr) - {old(q.head)}
    ensures ok ==> (q.tail == null <==> q.Contents == [])
    ensures ok && sp != null ==> sp[..bufsize] == CopyOut(old(q.Contents)[0], bufsize)
    ensures ok && sp != null ==> sp[bufsize..] == old(sp[bufsize..])
  {
    if q == null || q.head == null {
      return false;
    }
    var tmp := q.head;
    q.head := q.head.next;
    if q.head == null {
      q.tail := null;
    }
    q.size := q.size - 1;
    // tmp->value is never NULL here: every linked node owns a string
    if sp != null {
      CopyOutInto(sp, tmp.value, bufsize);
    }
    q.nodes := q.nodes[1..];
    q.Contents := q.Contents[1..];
    q.Repr := q.Repr - {tmp};
    DropFirstKeepsValid(q);
    ok := true;
  }

  /** `q_size`: 0 for NULL, otherwise the cached count, which is the number of strings queued. */
  function Size(q: Queue?): (n: int)
    reads q, if q == null then {} else q.Repr
    requires q != null ==> q.Valid()
    ensures q == null ==> n == 0
    ensures q != null ==> n == |q.Contents|
  {
    if q == null then 0 else q.size
  }

  /** The sequence `s` read back to front. */
  function Reversed<T>(s: seq<T>): (r: seq<T>)
    ensures |r| == |s|
  {
    if s == [] then [] else [s[|s| - 1]] + Reversed(s[..|s| - 1])
  }

  /** Position `i` of the reversal holds the element `i` places from the end. */
  lemma {:induction false} ReversedAt<T>(s: seq<T>, i: nat)
    requires i < |s|
    ensures Reversed(s)[i] == s[|s| - 1 - i]
    decreases |s|
  {
    if i > 0 {
      ReversedAt(s[..|s| - 1], i - 1);
    }
  }

  /** Every position of the reversal at once. */
  lemma ReversedAll<T>(s: seq<T>)
    ensures forall i | 0 <= i < |s| :: Reversed(s)[i] == s[|s| - 1 - i]
  {
    forall i | 0 <= i < |s|
      ensures Reversed(s)[i] == s[|s| - 1 - i]
    {
      ReversedAt(s, i);
    }
  }

  /** Reversing twice gives back the original order. */
  lemma {:induction false} ReversedTwice<T>(s: seq<T>)
    ensures Reversed(Reversed(s)) == s
  {
    forall i | 0 <= i < |s|
      ensures Reversed(Reversed(s))[i] == s[i]
    {
      ReversedAt(Reversed(s), i);
      ReversedAt(s, |s| - 1 - i);
    }
  }

  /**
    The relinking loop of `q_reverse`. Given the nodes `ns` of a chain, each
    linked to the next, it walks the chain once with `prev_ele` and
    `next_ele` and points every node after the first at its predecessor. It
    returns the last node (`tmp` when the walk ends); the first node's link
    and every string are left as they were.
   */
  method TurnLinksAround(head: Node, ghost ns: seq<Node>) returns (tmp: Node)
    requires ns != [] && ns[0] == head
    requires forall i, j | 0 <= i < j < |ns| :: ns[i] != ns[j]
    requires forall i | 0 <= i < |ns| - 1 :: ns[i].next == ns[i + 1]
    requires ns[|ns| - 1].next == null
    modifies ns
    ensures tmp == ns[|ns| - 1]
    ensures forall i | 0 < i < |ns| :: ns[i].next == ns[i - 1]
    ensures forall i | 0 <= i < |ns| :: ns[i].value == old(ns[i].value)
  {
    ghost var N, k := |ns|, 0;
    tmp := head;
    var prevEle := head;
    var nextEle := head.next;
    while nextEle != null
      invariant 0 <= k < N
      invariant tmp == prevEle == ns[k]
      invariant nextEle == if k + 1 < N then ns[k + 1] else null
      invariant forall i | 0 < i <= k :: ns[i].next == ns[i - 1]
      invariant forall i | k < i < N - 1 :: ns[i].next == ns[i + 1]
      invariant k < N - 1 ==> ns[N - 1].next == null
      invariant forall i | 0 <= i < N :: ns[i].value == old(ns[i].value)
      decreases N - k
    {
      tmp := nextEle;
      nextEle := tmp.next;
      tmp.next := prevEle;
      prevEle := tmp;
      k := k + 1;
    }
  }

  /**
    `q_reverse`: a NULL or empty queue is left alone. Otherwise every `next`
    link is turned around in one pass, the old `head` becomes `tail` with no
    successor and the old `tail` becomes `head`. No node is allocated or
    released and no string changes: only links move.
   */
  method Reverse(q: Queue?)
    requires q != null ==> q.Valid()
    modifies if q == null then {} else q.Repr
    ensures q != null ==> q.Valid() && q.Repr == old(q.Repr) && q.size == old(q.size)
    ensures q != null ==> q.nodes == Reversed(old(q.nodes)) && q.Contents == Reversed(old(q.Contents))
    ensures q != null ==> forall i | 0 <= i < |old(q.nodes)| :: old(q.nodes)[i].value == old(q.nodes[i].value)
    ensures q != null && old(q.head) != null ==>
              q.head == old(q.tail) && q.tail == old(q.head) && q.tail.next == null
  {
    if q == null || q.head == null {
      return;
    }
    var tmp := TurnLinksAround(q.head, q.nodes);
    q.tail := q.head;
    q.head := tmp;
    q.tail.next := null;
    q.nodes := Reversed(q.nodes);
    q.Contents := Reversed(q.Contents);
    TurnAroundKeepsValid(q);
  }

  /** `q_sort`: its body is empty, so it leaves every queue as it is. */
  method Sort(q: Queue?)
    requires q != null ==> q.Valid()
    ensures q != null ==> q.Valid() && q.Contents == old(q.Contents)
  {
  }

  /** The node reached from `n` by following `next` `k` times (NULL stays NULL). */
  ghost function Walk(n: Node?, k: nat): Node?
    reads *
    decreases k
  {
    if k == 0 || n == null then n else Walk(n.next, k - 1)
  }

  /** Following `next` from the `j`-th node visits the later nodes in order and then NULL. */
  lemma {:induction false} WalkFrom(q: Queue, j: nat, k: nat)
    requires q.Valid() && j < |q.nodes|
    ensures Walk(q.nodes[j], k) == if j + k < |q.nodes| then q.nodes[j + k] else null
    decreases k
  {
    if k > 0 {
      if j + 1 < |q.nodes| {
        WalkFrom(q, j + 1, k - 1);
      } else {
        assert Walk(null, k - 1) == null;
      }
    }
  }

  /**
    The queue's invariant in terms of the chain from `head`: `size` steps
    along `next` visit `size` distinct nodes and then reach NULL; `head`,
    `tail` and `size` are empty together; `tail` is the last node and has
    no successor.
   */
  lemma ChainFromHead(q: Queue)
    requires q.Valid()
    ensures forall k | 0 <= k < q.size :: Walk(q.head, k) != null && Walk(q.head, k).value == q.Contents[k]
    ensures forall i, j | 0 <= i < j < q.size :: Walk(q.head, i) != Walk(q.head, j)
    ensures Walk(q.head, q.size) == null
    ensures (q.head == null <==> q.size == 0) && (q.tail == null <==> q.size == 0)
    ensures q.size > 0 ==> q.tail == Walk(q.head, q.size - 1) && q.tail.next == null
  {
    if q.size > 0 {
      assert q.tail.next == null;
      forall k | 0 <= k <= q.size
        ensures Walk(q.head, k) == if k < q.size then q.nodes[k] else null
      {
        WalkFrom(q, 0, k);
      }
    }
  }

  /**
    Inserting at the head and then removing from the head gives back the
    inserted text in the caller's buffer (truncated to `bufsize - 1`
    characters when it does not fit) and leaves the queue's strings as
    they were.
   */
  method HeadRoundTrip(q: Queue, s: seq<char>, sp: array<char>, bufsize: nat)
    requires q.Valid() && Terminated(s)
    requires 1 <= bufsize <= sp.Length
    modifies q.Repr, sp
    ensures q.Valid() && q.Contents == old(q.Contents)
    ensures sp[..bufsize] == CopyOut(Text(s), bufsize)
    ensures Text(sp[..bufsize]) == if |Text(s)| < bufsize then Text(s) else Text(s)[..bufsize - 1]
  {
    var inserted := InsertHead(q, s, true, true);
    var removed := RemoveHead(q, sp, bufsize);
  }

  /** Reversing a queue twice restores its original order and its original links. */
  method ReverseTwice(q: Queue)
    requires q.Valid()
    modifies q.Repr
    ensures q.Valid() && q.Repr == old(q.Repr)
    ensures q.nodes == old(q.nodes) && q.Contents == old(q.Contents)
    ensures q.head == old(q.head) && q.tail == old(q.tail)
  {
    Reverse(q);
    Reverse(q);
    ReversedTwice(old(q.nodes));
    ReversedTwice(old(q.Contents));
  }

  /**
    Three tail insertions into a new queue, a reversal, and a removal into a
    16-character buffer: the buffer receives the last text inserted (cut to
    15 characters when it is longer) and the other two remain, in reverse
    order of insertion.
   */
  method TailReverseRemove(a: seq<char>, b: seq<char>, c: seq<char>) returns (q: Queue, sp: array<char>)
    requires NUL !in a && NUL !in b && NUL !in c
    ensures q.Valid() && q.Contents == [b, a] && Size(q) == 2
    ensures sp.Length == 16 && sp[..] == CopyOut(c, 16)
    ensures Text(sp[..]) == if |c| < 16 then c else c[..15]
  {
    q := new Queue();
    AppendText(q, a);
    AppendText(q, b);
    AppendText(q, c);
    assert q.Contents == [a, b, c];
    Reverse(q);
    ReversedAll([a, b, c]);
    assert q.Contents == [c, b, a];
    sp := new char[16];
    var ok := RemoveHead(q, sp, 16);
    assert sp[..] == sp[..16];
  }

  /** `q_insert_tail` with a buffer holding exactly the text `t` and both allocations succeeding. */
  method AppendText(q: Queue, t: seq<char>)
    requires q.Valid() && NUL !in t
    modifies q.Repr
    ensures q.Valid() && fresh(q.Repr - old(q.Repr))
    ensures q.Contents == old(q.Contents) + [t]
  {
    TextOfTerminated(t, []);
    var ok := InsertTail(q, t + [NUL] + [], true, true);
  }
}
