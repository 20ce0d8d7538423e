# lab0-c queue, modelled in Dafny

This project models `queue.c` from lab0-c: a queue of C strings kept in a
singly linked list. The header `queue_t` holds `head`, `tail` and a cached
`size`. Each element `list_ele_t` owns its own heap copy of one string and
links to its successor. The modelled operations are:

- `q_new`;
- `q_free`;
- `q_insert_head` and `q_insert_tail`, which copy the caller's string;
- `q_remove_head`, which copies the removed string into a caller buffer of
  `bufsize` characters, truncating and NUL-terminating it;
- `q_size`;
- `q_reverse`, which relinks the nodes in place;
- `q_sort`, whose body is empty.

Two modules:

- `CStrings` (`cstrings.dfy`) covers the C string conventions the queue
  uses:
  - a terminated buffer, and its text up to the first NUL (`strlen`);
  - exactly what `strncpy(dst, src, n)` writes;
  - the bounded copy-out that `q_remove_head` performs.
- `Queue` (`queue.dfy`) covers the list:
  - `Node` and `Queue` are classes whose fields the methods update in place.
  - Ghost fields `nodes`, `Contents` and `Repr` tie the pointer structure to
    the sequence of strings it holds.
  - `Queue.Valid()` is the invariant. `nodes` is the chain from `head` along
    `next`. The chain has no repeated node and ends in NULL at `tail`.
    `size` is its length, and no stored string contains NUL.
  - Each C function is a method taking a `Queue?`, so a NULL queue pointer is
    an ordinary input.
  - Each `malloc` outcome is a boolean parameter. Success and failure are
    both modelled, and a failing call leaves the queue unchanged.
  - Releasing a node (`free`) removes it from `Repr`.

The doc comment of `q_sort` promises ascending order, but its body is empty.
The model follows the body: `Queue.Sort` leaves the queue as it is.

## Model

| member | source | states |
|---|---|---|
| CStrings.Strlen | queue.c:63 | `strlen`: the index of the first NUL in a terminated buffer; every character before it is not NUL |
| CStrings.Text | queue.c:63-69 | the text of a terminated buffer is NUL-free and is followed by the terminator at index `strlen`; this is the string a node stores |
| CStrings.TextOfTerminated | queue.c:69 | a NUL-free text followed by a terminator reads back as that text, whatever follows, so copying `len + 1` characters preserves the string |
| CStrings.StrncpyInto | queue.c:135 | `strncpy(dst, src, n)` writes exactly the first `n` cells: the text, then NUL padding; cells from `n` on are untouched |
| CStrings.CopyOutInto | queue.c:134-137 | copying out into a buffer of capacity `bufsize` writes exactly its first `bufsize` cells, as `CopyOut` describes, and nothing beyond |
| CStrings.CopyOut | queue.c:133-137 | the copied-out buffer has length `bufsize`, ends in NUL and holds the whole text when it fits, otherwise its first `bufsize - 1` characters |
| Queue.Queue.constructor | queue.c:18-20 | a new header is valid and empty: `head` and `tail` NULL, `size` 0, no strings |
| Queue.New | queue.c:12-22 | returns NULL exactly when the header allocation fails; otherwise a fresh, valid, empty queue |
| Queue.Free | queue.c:25-42 | a NULL queue is ignored; otherwise every node reachable from `head` is released (removed from the footprint) and the header is cleared to empty |
| Queue.InsertHead | queue.c:51-77 | succeeds iff the queue is non-NULL and both allocations succeed; on failure nothing changes; on success a fresh node holding the text of `s` is the new head, linked to the old head, and becomes `tail` when the queue was empty; `size` grows by one |
| Queue.InsertTail | queue.c:86-112 | succeeds iff the queue is non-NULL and both allocations succeed; on failure nothing changes; on success a fresh node holding the text of `s`, with no successor, is appended after the old tail and becomes `tail` (also `head` when the queue was empty); `size` grows by one |
| Queue.RemoveHead | queue.c:122-142 | fails, changing nothing, iff the queue is NULL or empty; otherwise the first node is unlinked and released, `tail` becomes NULL exactly when the queue empties, `size` drops by one, and a non-NULL `sp` receives the bounded copy of the removed string with nothing past `bufsize` written |
| Queue.Size | queue.c:148-154 | 0 for a NULL queue, otherwise the number of strings in the queue |
| Queue.TurnLinksAround | queue.c:168-176 | the relinking loop points every node after the first at its predecessor and ends at the last node, changing no string |
| Queue.Reverse | queue.c:163-180 | a NULL or empty queue is unchanged; otherwise nodes and strings are in reverse order, the old head is the tail with no successor, the old tail is the head, and no node is allocated or released |
| Queue.ReversedAt | queue.c:163-180 | the `i`-th element of the reversal is the element `i` places from the end |
| Queue.ReversedTwice | queue.c:163-180 | reversing twice gives back the original sequence |
| Queue.ReverseTwice | queue.c:163-180 | reversing a queue twice restores its nodes, strings, `head` and `tail` |
| Queue.Sort | queue.c:187-191 | the queue stays valid and its strings are unchanged (the body is empty) |
| Queue.PrependKeepsValid | queue.c:70-75 | linking a fresh node in front of the head keeps the invariant |
| Queue.AppendKeepsValid | queue.c:103-110 | linking a fresh node after the tail keeps the invariant |
| Queue.DropFirstKeepsValid | queue.c:127-132 | unlinking the head node keeps the invariant |
| Queue.TurnAroundKeepsValid | queue.c:177-179 | once every link is turned around, swapping `head` and `tail` and clearing the new tail's link keeps the invariant |
| Queue.WalkFrom | queue.c:31-37 | following `next` from the `j`-th node visits the later nodes in order, then NULL |
| Queue.ChainFromHead | queue.c:148-154 | in a valid queue, `size` steps from `head` visit `size` distinct nodes carrying the strings in order, then reach NULL; `head`, `tail` and `size` are empty together; `tail` is the last node and has no successor |
| Queue.HeadRoundTrip | queue.c:51-142 | inserting at the head and then removing from the head returns the inserted text (truncated to `bufsize - 1` characters) and restores the queue's strings |
| Queue.AppendText | queue.c:86-112 | a successful tail insertion of a buffer holding text `t` appends exactly `t` |
| Queue.TailReverseRemove | queue.c:86-180 | three tail insertions `a`, `b`, `c`, a reversal and a removal into a 16-character buffer give back `c` (cut to 15 characters) and leave `[b, a]` with size 2 |

## Left out

- Memory allocation is not modelled as a real heap.
  - Each `malloc` outcome is a parameter, and `free` removes the node from
    `Repr`.
  - The instrumented allocator that lab0-c links in is not part of this
    model.
- Queue.Free: the release of the header itself (`free(q)`) is not modelled.
  The header object remains, valid and empty, and the caller must not use
  it again.
- Queue.InsertHead and Queue.InsertTail:
  - `int len` is not bounded.
  - A string longer than `INT_MAX`, which would overflow `len + 1`, is not
    modelled.
- Queue.InsertHead, Queue.InsertTail and Queue.RemoveHead: the `int` size
  counter is an unbounded integer, so its overflow is not modelled.
- Queue.RemoveHead:
  - A non-NULL `sp` must satisfy `1 <= bufsize <= sp.Length`. With
    `bufsize == 0` the unsigned `bufsize - 1` wraps, and the C code writes
    far past the buffer.
  - The `if (tmp->value)` test is always true in the model, because every
    linked node owns a string. The branch that skips the copy is never
    taken.
- Buffers that overlap or alias a node's string are not modelled. Strings
  are values copied in and out.
- Characters are Dafny `char`s, not bytes. No encoding is modelled.
- Reading a string without a terminator (undefined in C) is excluded by a
  precondition: a `Terminated` buffer wherever `strlen` is reached.
- The `Repr` footprint of a valid queue holds the header and every linked
  node, and possibly other objects. Each method states exactly how it
  changes `Repr`.
- Sorting:
  - `q_sort` is a stub in this source, so no merge sort is modelled.
  - The "ascending order" promised by its doc comment is not proved, because
    the body does not provide it.
- The command interpreter, the test harness, `queue.h` and `harness.h` are
  not part of this model.
