# Blossom matching core: union-find with member lists, quotient graph, augment

This project models, in Dafny, the data structures under an Edmonds
blossom maximum-matching search written in C++ (`main.cpp`), and proves
properties of the model.

- **`uf_data`** is a union-find over the elements `0..n-1`. It uses
  union by rank and path compression. It also threads the members of every
  class through a singly linked list:
  - `fchild[i]` is the next member after `i`, or the sentinel `(size_t)-1`;
  - `lchild[r]` is the tail of root `r`'s list.

  Two lists can therefore be concatenated in constant time when classes
  merge. A contracted blossom is one class.
- **`QuotientGraph`** treats each class as one super-node. Iterating the
  super-node of `i` walks the adjacency lists of every member of `i`'s class
  in list order. It yields the edges whose destination has a different
  representative.
- **`augment`** flips the `matched` flag of every edge on a path.

Modules:

- `Chains` (`chains.dfy`): chains of links through an index array, ended by
  `NIL = -1`. It proves the splice lemmas that list concatenation needs.
- `DisjointSets` (`disjoint_sets.dfy`): `uf_data` with the intended
  behaviour. This means its constructor and `attach` differ from the source
  (see Findings).
  - The invariant `Valid` says that:
    - parent pointers form a forest whose rank rises towards the root;
    - each root's list is a complete chain with no repetition, whose tail
      is `lchild[root]`;
    - each root's list holds exactly the elements whose representative is
      that root.
  - `Find`, `FindBoth` and `Join` are methods that return the new structure.
    `Attach`, `Link`, `UnionRoots` and `SetValue` are functions.
- `Graphs` (`graph.dfy`): `Edge`, `Graph` (one adjacency list per node) and
  `EdgeRef(node, pos)`. `EdgeRef` stands for the `list<Edge>::iterator` that
  paths hold.
- `Quotient` (`quotient.dfy`):
  - reference definitions of the quotient edges of a class, over a labelling
    of the nodes by representative;
  - `Iterate`, the iterator's control flow. Every `parent` call is threaded
    through `Find`, so it may compress paths.
- `Augment` (`augment.dfy`): `augment`, matchings and augmenting paths.
- `AsWritten` (`as_written.dfy`): the constructor and `attach` as the source
  writes them, with the lemmas that exhibit the two defects. The one
  difference is the payload, which the source leaves uninitialised and the
  model takes as a parameter.

## Model

| member | source | states |
|---|---|---|
| `DisjointSets.Init` | main.cpp:39-50 | The result is a valid structure of size `n`. Every element is its own representative with rank 0. Its list is `[i]` and its tail is itself. |
| `DisjointSets.Find` | main.cpp:75-81 | Returns the representative of `i` and leaves `i` pointing straight at it. Every parent pointer that changes now points at that root. No element changes representative. Ranks, lists and payloads are kept. No element's distance to its root grows. |
| `DisjointSets.Compress` | main.cpp:79 | Re-pointing one element at its root keeps the structure valid and every representative unchanged. No element's path gets longer. |
| `DisjointSets.FindBoth` | main.cpp:91-92 | The two finds of `join` return the representatives of `i` and `j`. Both are roots of the compressed structure, and the partition is unchanged. |
| `DisjointSets.Attach` | main.cpp:84-87 | On two disjoint complete lists, the list of `pr` becomes its old list followed by `ch`'s. It is again a complete chain. `pr`'s tail becomes `ch`'s tail. No link outside `pr`'s old list changes, and no other tail changes. |
| `DisjointSets.Link` | main.cpp:95-105 | Hanging root `ch` under root `pr` and attaching their lists gives a valid structure. Exactly the members of `ch`'s class move to `pr`. The list of `pr` is the concatenation of the two lists, and every other root keeps its list. The rank of `pr` grows by one exactly in the equal-rank case. |
| `DisjointSets.UnionRoots` | main.cpp:93-105 | On roots `pi`, `pj` the result is valid and the union of the two classes, with every other class kept. Equal roots return the structure unchanged. The lower-rank root goes under the higher one. On a tie, `pi` goes under `pj`, whose rank grows by one. |
| `DisjointSets.Join` | main.cpp:90-106 | `i` and `j` end in one class, and every other element keeps its representative. Union by rank holds as for `UnionRoots`, stated on the original representatives. |
| `DisjointSets.Next` | main.cpp:113-117 | On a valid structure, `next(i)` is the sentinel exactly when `i` is the tail recorded at its root; otherwise it is another member of `i`'s class. |
| `DisjointSets.Enumerate` | main.cpp:113-117 | Walking `next` from a root until the sentinel visits every member of its class once and no other element. The first element visited is the root and the last is its `lchild`. |
| `DisjointSets.Get` | main.cpp:109-111 | `get(i)` returns the payload of `i`: storing the returned value back through the reference leaves the structure unchanged. What a store does is `SetValue`'s contract. |
| `DisjointSets.SetValue` | main.cpp:109-111 | Writing through `get(i)` changes the payload of `i` only. Representatives and lists are kept. |
| `Quotient.OutgoingUpToSpec` | main.cpp:182-186 | The edges kept from one adjacency list are references into it, in increasing position. An edge is kept exactly when its destination is labelled differently from the node. |
| `Quotient.ConcatOutgoingSpec` | main.cpp:173-180 | Over a sequence of nodes, an edge is kept exactly when it belongs to one of them and leaves its class. |
| `Quotient.QuotientEdgesSpec` | main.cpp:241-244 | The edges of super-node `i` are exactly the edge records of members of `i`'s class whose destination has another representative. None occurs twice. |
| `Quotient.QuotientOrder` | main.cpp:172-187 | Edges come in the order of the class's member list, then in adjacency-list order within one member. |
| `Quotient.LeavesClass` | main.cpp:182-183 | The test `parent(dest) != parent(node)` holds exactly when the edge's destination lies in another class. The partition is unchanged although both finds may compress paths. |
| `Quotient.ScanList` | main.cpp:173-186 | Scanning one adjacency list yields exactly that list's edges that leave the class, in order, and keeps the partition. |
| `Quotient.Iterate` | main.cpp:172-187 | Running the iterator of `operator[](i)` to its end yields exactly `QuotientEdges` of `i`. The partition is unchanged. |
| `Augment.Augment` | main.cpp:259-263 | `augment` toggles the path's edge records one at a time from front to back and keeps every adjacency list's shape. Its effect on each record is `AugmentFlips`. |
| `Augment.Toggle` | main.cpp:261 | Exactly the referenced edge record has its flag inverted. The adjacency lists keep their shape. |
| `Augment.AugmentFlips` | main.cpp:259-263 | After `augment`, an edge record's flag is inverted exactly when the record occurs an odd number of times on the path. Endpoints never change. |
| `Augment.AugmentDistinct` | main.cpp:259-263 | On a path with no repeated edge, exactly the path's edges are flipped and every other edge record is unchanged. |
| `Augment.AugmentTwice` | main.cpp:259-263 | Augmenting twice along the same path gives back the original graph. |
| `Augment.PathDistinct` | main.cpp:257 | An augmenting path uses no edge record twice, because it visits no node twice. |
| `Augment.AugmentGrowsMatching` | main.cpp:257-263 | Along an augmenting path, a matching becomes a matching with exactly one more matched edge. |
| `AsWritten.InitAsWritten` | main.cpp:39-50 | The constructor as written makes every element a root of rank 0 whose tail pointer is out of range. |
| `AsWritten.AttachAsWritten` | main.cpp:84-87 | `attach` as written is defined exactly when `lchild[pr]` is in range. It then gives `pr` the tail of `ch`. |
| `AsWritten.FirstAttachFaults` | main.cpp:47-48 | On a freshly built structure, every `attach` writes outside the array. |
| `AsWritten.AttachSkipsRoot` | main.cpp:85 | On two valid disjoint classes, `attach` as written lists `pr`'s members followed by `ch`'s members without `ch`. So `ch` is missing from its new class's list. |
| `AsWritten.JoinLosesMember` | main.cpp:101-104 | After `join(0, 1)` on two elements (with tails initialised), 0 has representative 1, but the list of 1 is `[1]`. |

## Left out

- `find_augmenting_path` and `find_maximum_matching` (main.cpp:265-292):
  - the first is an unfinished stub that returns nothing;
  - the second loops over it, calls `augment` on each path it returns and
    erases the path's two ends from the `unmatched` set. The `augment` step
    is modelled on its own (`Augment.Augment`).
- `main` (main.cpp:301-306) only prints a greeting.
- The copy constructor, move constructor and destructor of `uf_data`
  (main.cpp:53-72) only manage memory, which has no counterpart in a
  value model.
- Iterator plumbing (main.cpp:146-170 and 190-214) is left out:
  - the iterator's constructors and its comparison, dereference and
    assignment operators;
  - `QuotientGraph::end`.

  `Iterate` models the traversal they drive: the constructor's first
  `next()` and then `operator++` up to the end.
- `DisjointSets.Init`: the payload `value` of each element is default
  constructed in the source (left uninitialised for `size_t`). Here it is a
  parameter `init`. The same holds for `AsWritten.InitAsWritten`.
- `assert(m_size > 0)` (main.cpp:42 and 76) is modelled as the precondition
  `n > 0` of `DisjointSets.Init` and as the clause `Size(u) > 0` of `Valid`,
  which every operation on the structure requires. The abort a failed
  assertion causes is not modelled.
- `Quotient.Iterate`: the source iterator is lazy. It keeps pointers to the
  graph and the partition and re-reads `next` and `parent` on every
  `operator++` (main.cpp:172-187, 210-214), so a `join` or a `matched` flip
  made between two steps changes what it yields. `Iterate` assumes the graph
  and the partition do not change while it runs; only the path compression
  of its own `parent` calls is threaded through.
- `size_t` is modelled as unbounded `int`, and the sentinel `(size_t)-1` as
  `-1`. No index arithmetic in the core can wrap.
- `Graph` is a `vector<list<Edge>>`. Here a list is a sequence, and an edge
  iterator is a (node, position) pair. That is sound because nothing in the
  core inserts into or erases from the lists.
- `Augment.AugmentGrowsMatching`: a matching is a set of edge records, each
  with its own `matched` flag. The source does not say whether an undirected
  edge is stored once or in both adjacency lists. If it is stored twice,
  keeping the two records' flags in step is up to the caller, and that is not
  modelled.
- `QuotientGraph` passes `uf_data<size_t>` with an unused payload
  (main.cpp:219-220). The model is generic in the payload type.

## Findings

| source | as written | input that shows it | evidently intended | confidence | as-written member | corrected member |
|---|---|---|---|---|---|---|
| main.cpp:47-48 | The constructor sets `fchild` and `lchild` of every element to `(size_t)-1`. `attach` (line 85) then stores into `m_data[m_data[pr].lchild].fchild`, i.e. `m_data[(size_t)-1].fchild`, outside the array. | `uf_data<size_t> u(2); u.join(0, 1);` | `lchild[i] = i`: each element is the tail of its own one-element list. | not executed | `AsWritten.FirstAttachFaults` | `DisjointSets.Init` |
| main.cpp:85 | The old tail of `pr` is linked to `m_data[ch].fchild`, the member after `ch`. `ch` itself drops out of the list. | With tails initialised, `uf_data<size_t> u(2); u.join(0, 1);` leaves `parent(0) == 1` but `next` from 1 ends at once. | `m_data[m_data[pr].lchild].fchild = ch;`, which appends the whole list of `ch`. | not executed | `AsWritten.AttachSkipsRoot` | `DisjointSets.Attach` |
