/** The doubly linked list engine of package `dll`.

    Go's garbage-collected heap is modelled as an arena: a map from addresses
    (`Ref`) to node cells, plus the next address the allocator hands out. A
    pointer is an `Option<Ref>`, with `None` for `nil`. The list header keeps
    `length`, `head` and `tail` exactly as the Go struct does, and every
    operation is a function from the old heap and header to the new ones,
    performing the same pointer writes in the same order as the Go method.

    The abstraction is the ghost sequence `Chain(st)` of nodes met when walking
    from `head` along `next` pointers for `length` steps; `Valid(st)` says that
    this walk is a well-formed doubly linked chain, and `Contents(st)` is the
    sequence of values stored along it. */
module Dll {
  import opened Wrappers

  /** Address of a heap-allocated `DllNode`. */
  type Ref = nat

  /** A `DllNode`: the payload and the two relation slots. */
  datatype Node<T> = Node(data: T, next: Option<Ref>, prev: Option<Ref>)

  /** The heap: allocated node cells and the next fresh address. */
  datatype Heap<T> = Heap(cells: map<Ref, Node<T>>, free: Ref)

  /** The `DoublyLinkedList` header. */
  datatype List = List(length: int, head: Option<Ref>, tail: Option<Ref>)

  /** A list header together with the heap its pointers refer to. */
  datatype State<T> = State(heap: Heap<T>, list: List)

  /** The empty list over an empty heap (Go's zero `DoublyLinkedList{}`). */
  function Empty<T>(): (r: State<T>)
    ensures Valid(r) && Contents(r) == []
  {
    State(Heap(map[], 0), List(0, None, None))
  }

  /** A zero `DoublyLinkedList{}` made after other nodes already exist: the
      empty header over any memory-safe heap is a valid list with no values. */
  lemma ZeroHeaderValid<T>(h: Heap<T>)
    requires HeapOk(h)
    ensures Valid(State(h, List(0, None, None))) && Contents(State(h, List(0, None, None))) == []
  {
  }

  // ---------------------------------------------------------------------------
  // Abstraction and invariant
  // ---------------------------------------------------------------------------

  /** `p` is `nil` or points at an allocated cell. */
  ghost predicate PointsInto<T>(h: Heap<T>, p: Option<Ref>)
  {
    p.Some? ==> p.value in h.cells
  }

  /** Memory safety of the heap: every cell lies below the allocation frontier,
      and no cell holds a dangling pointer. */
  ghost predicate HeapOk<T>(h: Heap<T>)
  {
    forall r :: r in h.cells ==>
      r < h.free && PointsInto(h, h.cells[r].next) && PointsInto(h, h.cells[r].prev)
  }

  /** The nodes met walking from `from` along `next` for at most `k` steps. */
  ghost function Walk<T>(cells: map<Ref, Node<T>>, from: Option<Ref>, k: int): (w: seq<Ref>)
    ensures |w| <= if k < 0 then 0 else k
    ensures forall i :: 0 <= i < |w| ==> w[i] in cells
    decreases k
  {
    if k <= 0 || from.None? || from.value !in cells then []
    else [from.value] + Walk(cells, cells[from.value].next, k - 1)
  }

  /** The list's nodes from head to tail. */
  ghost function Chain<T>(st: State<T>): seq<Ref>
  {
    Walk(st.heap.cells, st.list.head, st.list.length)
  }

  /** The values stored in the nodes `ns`, in order. */
  ghost function Data<T>(h: Heap<T>, ns: seq<Ref>): seq<T>
    requires forall i :: 0 <= i < |ns| ==> ns[i] in h.cells
  {
    seq(|ns|, i requires 0 <= i < |ns| => h.cells[ns[i]].data)
  }

  /** The list's values from head to tail. */
  ghost function Contents<T>(st: State<T>): seq<T>
  {
    Data(st.heap, Chain(st))
  }

  /** `ns` is a doubly linked chain of distinct allocated nodes that the header
      describes: `length` counts it, `head`/`tail` are its ends (both `nil`
      when it is empty), consecutive nodes point at each other, and the ends
      point at `nil`. */
  ghost predicate Linked<T>(st: State<T>, ns: seq<Ref>)
  {
    var cells := st.heap.cells;
    && st.list.length == |ns|
    && (forall i :: 0 <= i < |ns| ==> ns[i] in cells)
    && (forall i, j :: 0 <= i < j < |ns| ==> ns[i] != ns[j])
    && st.list.head == (if ns == [] then None else Some(ns[0]))
    && st.list.tail == (if ns == [] then None else Some(ns[|ns| - 1]))
    && NextLinks(cells, ns) && PrevLinks(cells, ns)
    && (ns != [] ==> cells[ns[|ns| - 1]].next == None && cells[ns[0]].prev == None)
  }

  /** Every node of `ns` but the last points at its successor. The quantifier
      ranges over pairs of neighbouring positions and fires only on two
      elements already mentioned, so using it never produces a new element
      that would fire it again; the walk lemmas and `Follow` require this
      predicate rather than restating it. */
  ghost predicate NextLinks<T>(cells: map<Ref, Node<T>>, ns: seq<Ref>)
  {
    forall i, j {:trigger ns[i], ns[j]} :: 0 <= i && j == i + 1 && j < |ns| ==>
      ns[i] in cells && cells[ns[i]].next == Some(ns[j])
  }

  /** Every node of `ns` but the first points back at its predecessor
      (quantified over neighbouring pairs, as in `NextLinks`). */
  ghost predicate PrevLinks<T>(cells: map<Ref, Node<T>>, ns: seq<Ref>)
  {
    forall i, j {:trigger ns[i], ns[j]} :: 0 <= i && j == i + 1 && j < |ns| ==>
      ns[j] in cells && cells[ns[j]].prev == Some(ns[i])
  }

  /** The representation invariant every operation needs and preserves. */
  ghost predicate Valid<T>(st: State<T>)
  {
    HeapOk(st.heap) && Linked(st, Chain(st))
  }

  /** `n` is an allocated node outside the list with both relation slots
      empty: what `NewNode`, `PopNode` and `PopFirstNode` hand out, and what
      `AppendNode` and `PrependNode` expect. */
  ghost predicate Detached<T>(st: State<T>, n: Ref)
  {
    && n in st.heap.cells
    && n !in Chain(st)
    && st.heap.cells[n].next.None?
    && st.heap.cells[n].prev.None?
  }

  /** Every allocated cell that is neither in the list nor `n` is left as it
      was: an operation disturbs no other list and no other handle. */
  ghost predicate OthersUnchanged<T>(st: State<T>, st': State<T>, n: Option<Ref>)
  {
    forall r :: r in st.heap.cells && r !in Chain(st) && Some(r) != n ==>
      r in st'.heap.cells && st'.heap.cells[r] == st.heap.cells[r]
  }

  /** Walking along a chain of `next` links from its `j`-th node for the rest
      of its length visits exactly the rest of the chain. */
  lemma {:induction false} WalkFollowsLinks<T>(cells: map<Ref, Node<T>>, ns: seq<Ref>, j: nat)
    requires j <= |ns|
    requires forall i :: 0 <= i < |ns| ==> ns[i] in cells
    requires NextLinks(cells, ns)
    ensures Walk(cells, if j < |ns| then Some(ns[j]) else None, |ns| - j) == ns[j..]
    decreases |ns| - j
  {
    if j < |ns| {
      WalkFollowsLinks(cells, ns, j + 1);
      assert ns[j..] == [ns[j]] + ns[j + 1..];
    }
  }

  /** A linked chain the header describes is the list's chain, so the
      abstraction is determined by the concrete state. */
  lemma LinkedIsChain<T>(st: State<T>, ns: seq<Ref>)
    requires HeapOk(st.heap) && Linked(st, ns)
    ensures Valid(st) && Chain(st) == ns
  {
    WalkFollowsLinks(st.heap.cells, ns, 0);
    assert ns[0..] == ns;
  }

  /** Allocating a cell leaves a valid list, its chain and its values alone. */
  lemma AllocKeepsList<T>(st: State<T>, h': Heap<T>)
    requires Valid(st) && HeapOk(h')
    requires forall r :: r in st.heap.cells ==> r in h'.cells && h'.cells[r] == st.heap.cells[r]
    ensures Valid(State(h', st.list)) && Chain(State(h', st.list)) == Chain(st)
    ensures Contents(State(h', st.list)) == Contents(st)
  {
    LinkedIsChain(State(h', st.list), Chain(st));
  }

  /** In a valid list every node has one position. */
  lemma IndexOfMember<T>(st: State<T>, k: nat)
    requires Valid(st) && k < |Chain(st)|
    ensures IndexOf(Chain(st), Chain(st)[k]) == k
  {
  }

  /** The position of `x` in `ns`. */
  ghost function IndexOf<X>(ns: seq<X>, x: X): (i: nat)
    requires x in ns
    ensures i < |ns| && ns[i] == x
  {
    var i :| 0 <= i < |ns| && ns[i] == x; i
  }

  // ---------------------------------------------------------------------------
  // What linking in and unlinking achieve
  // ---------------------------------------------------------------------------

  /** `st'` is `st` with node `n`, holding `x`, linked in at position `j`:
      the values before `j` stay in front of `x` and the rest follow it, and
      no allocated cell outside the list other than `n` is touched. */
  ghost predicate InsertedAt<T>(st: State<T>, st': State<T>, j: int, n: Ref, x: T)
  {
    var c := Chain(st);
    && 0 <= j <= |c|
    && Valid(st')
    && Chain(st') == c[..j] + [n] + c[j..]
    && Contents(st') == Contents(st)[..j] + [x] + Contents(st)[j..]
    && OthersUnchanged(st, st', Some(n))
  }

  /** `st'` is `st` with the node at position `j` unlinked: the other values
      keep their order, the node comes out detached with its payload, and no
      allocated cell outside the list is touched. */
  ghost predicate RemovedAt<T>(st: State<T>, st': State<T>, j: int)
  {
    var c := Chain(st);
    && 0 <= j < |c|
    && Valid(st')
    && Chain(st') == c[..j] + c[j + 1..]
    && Contents(st') == Contents(st)[..j] + Contents(st)[j + 1..]
    && Detached(st', c[j])
    && st'.heap.cells[c[j]].data == st.heap.cells[c[j]].data
    && OthersUnchanged(st, st', None)
  }

  /** Reading the payloads along a chain with `n` put in at position `j`,
      in a heap that kept every other payload. */
  lemma DataOfInserted<T>(h: Heap<T>, h': Heap<T>, c: seq<Ref>, j: int, n: Ref)
    requires 0 <= j <= |c| && n in h'.cells
    requires forall k :: 0 <= k < |c| ==> c[k] in h.cells && c[k] in h'.cells && c[k] != n
    requires forall k :: 0 <= k < |c| ==> h'.cells[c[k]].data == h.cells[c[k]].data
    ensures Data(h', c[..j] + [n] + c[j..]) == Data(h, c)[..j] + [h'.cells[n].data] + Data(h, c)[j..]
  {
    var ns := c[..j] + [n] + c[j..];
    assert forall k :: 0 <= k < |ns| ==> ns[k] == if k < j then c[k] else if k == j then n else c[k - 1];
    var s, t := Data(h, c), Data(h', ns);
    var u := s[..j] + [h'.cells[n].data] + s[j..];
    assert |t| == |u|;
    forall k | 0 <= k < |u|
      ensures t[k] == u[k]
    {
      if k < j { assert u[k] == s[k]; } else if k > j { assert u[k] == s[k - 1]; }
    }
  }

  /** Reading the payloads along a chain with its `j`-th node left out, in a
      heap that kept every payload. */
  lemma DataOfRemoved<T>(h: Heap<T>, h': Heap<T>, c: seq<Ref>, j: int)
    requires 0 <= j < |c|
    requires forall k :: 0 <= k < |c| ==> c[k] in h.cells && c[k] in h'.cells
    requires forall k :: 0 <= k < |c| ==> h'.cells[c[k]].data == h.cells[c[k]].data
    ensures Data(h', c[..j] + c[j + 1..]) == Data(h, c)[..j] + Data(h, c)[j + 1..]
  {
    var ns := c[..j] + c[j + 1..];
    assert forall k :: 0 <= k < |ns| ==> ns[k] == if k < j then c[k] else c[k + 1];
    var s, t := Data(h, c), Data(h', ns);
    var u := s[..j] + s[j + 1..];
    assert |t| == |u|;
    forall k | 0 <= k < |u|
      ensures t[k] == u[k]
    {
      if k < j { assert u[k] == s[k]; } else { assert u[k] == s[k + 1]; }
    }
  }

  /** A memory-safe relinking that keeps every payload, puts `n` into the
      chain at position `j` and touches no cell outside the list but `n`
      establishes `InsertedAt`. */
  lemma InsertedAtFromLinks<T>(st: State<T>, st': State<T>, j: int, n: Ref)
    requires Valid(st) && 0 <= j <= |Chain(st)| && n in st'.heap.cells
    requires HeapOk(st'.heap) && Linked(st', Chain(st)[..j] + [n] + Chain(st)[j..])
    requires forall r :: r in st.heap.cells ==> r in st'.heap.cells
    requires forall r :: r in st.heap.cells && r != n ==> st'.heap.cells[r].data == st.heap.cells[r].data
    requires forall r :: r in st.heap.cells && r !in Chain(st) && r != n ==> st'.heap.cells[r] == st.heap.cells[r]
    ensures InsertedAt(st, st', j, n, st'.heap.cells[n].data)
  {
    var c := Chain(st);
    var ns := c[..j] + [n] + c[j..];
    LinkedIsChain(st', ns);
    assert forall k :: 0 <= k < |ns| ==> ns[k] == if k < j then c[k] else if k == j then n else c[k - 1];
    forall k | 0 <= k < |c|
      ensures c[k] != n
    {
      if k < j { assert ns[k] != ns[j]; } else { assert ns[j] != ns[k + 1]; }
    }
    DataOfInserted(st.heap, st'.heap, c, j, n);
  }

  /** A memory-safe relinking that keeps every payload, drops the node at
      position `j` from the chain, clears its links and touches no cell
      outside the list establishes `RemovedAt`. */
  lemma RemovedAtFromLinks<T>(st: State<T>, st': State<T>, j: int)
    requires Valid(st) && 0 <= j < |Chain(st)|
    requires HeapOk(st'.heap) && Linked(st', Chain(st)[..j] + Chain(st)[j + 1..])
    requires forall r :: r in st.heap.cells ==> r in st'.heap.cells && st'.heap.cells[r].data == st.heap.cells[r].data
    requires st'.heap.cells[Chain(st)[j]].next.None? && st'.heap.cells[Chain(st)[j]].prev.None?
    requires forall r :: r in st.heap.cells && r !in Chain(st) ==> st'.heap.cells[r] == st.heap.cells[r]
    ensures RemovedAt(st, st', j)
  {
    var c := Chain(st);
    var ns := c[..j] + c[j + 1..];
    LinkedIsChain(st', ns);
    assert forall k :: 0 <= k < |ns| ==> ns[k] == if k < j then c[k] else c[k + 1];
    forall k | 0 <= k < |ns|
      ensures ns[k] != c[j]
    {
      if k < j { assert c[k] != c[j]; } else { assert c[j] != c[k + 1]; }
    }
    DataOfRemoved(st.heap, st'.heap, c, j);
  }

  /** `AppendNode`'s writes (old tail and `n` pointing at each other, `n` the
      new tail) link `n` after the last node. */
  lemma AppendedIsLinked<T>(st: State<T>, c: seq<Ref>, n: Ref, st': State<T>)
    requires Linked(st, c) && n !in c && n in st'.heap.cells
    requires st'.list == List(|c| + 1, if c == [] then Some(n) else st.list.head, Some(n))
    requires forall k :: 0 <= k < |c| ==> c[k] in st'.heap.cells
    requires forall k :: 0 <= k < |c| - 1 ==> st'.heap.cells[c[k]] == st.heap.cells[c[k]]
    requires c != [] ==>
      st'.heap.cells[c[|c| - 1]] == st.heap.cells[c[|c| - 1]].(next := Some(n))
    requires st'.heap.cells[n].next == None
    requires st'.heap.cells[n].prev == if c == [] then None else Some(c[|c| - 1])
    ensures Linked(st', c[..|c|] + [n] + c[|c|..])
  {
    var cells, cells' := st.heap.cells, st'.heap.cells;
    var ns := c[..|c|] + [n] + c[|c|..];
    assert ns == c + [n];
    forall a, b | 0 <= a && b == a + 1 && b < |ns|
      ensures ns[a] in cells' && cells'[ns[a]].next == Some(ns[b])
    {
      if a < |c| - 1 {
        assert cells'[c[a]] == cells[c[a]];
      }
    }
    forall a, b | 0 <= a && b == a + 1 && b < |ns|
      ensures ns[b] in cells' && cells'[ns[b]].prev == Some(ns[a])
    {
      if b < |c| {
        assert cells'[c[b]].prev == cells[c[b]].prev;
      }
    }
    if c != [] {
      assert cells'[c[0]].prev == cells[c[0]].prev;
    }
  }

  /** `PrependNode`'s writes (`n` and old head pointing at each other, `n`
      the new head) link `n` before the first node. */
  lemma PrependedIsLinked<T>(st: State<T>, c: seq<Ref>, n: Ref, st': State<T>)
    requires Linked(st, c) && n !in c && n in st'.heap.cells
    requires st'.list == List(|c| + 1, Some(n), if c == [] then Some(n) else st.list.tail)
    requires forall k :: 0 <= k < |c| ==> c[k] in st'.heap.cells
    requires forall k :: 0 < k < |c| ==> st'.heap.cells[c[k]] == st.heap.cells[c[k]]
    requires c != [] ==> st'.heap.cells[c[0]] == st.heap.cells[c[0]].(prev := Some(n))
    requires st'.heap.cells[n].prev == None
    requires st'.heap.cells[n].next == if c == [] then None else Some(c[0])
    ensures Linked(st', c[..0] + [n] + c[0..])
  {
    var cells, cells' := st.heap.cells, st'.heap.cells;
    var ns := c[..0] + [n] + c[0..];
    assert ns == [n] + c;
    forall a, b | 0 <= a && b == a + 1 && b < |ns|
      ensures ns[a] in cells' && cells'[ns[a]].next == Some(ns[b])
    {
      if a > 0 {
        assert cells'[c[a - 1]].next == cells[c[a - 1]].next;
      }
    }
    forall a, b | 0 <= a && b == a + 1 && b < |ns|
      ensures ns[b] in cells' && cells'[ns[b]].prev == Some(ns[a])
    {
      if b > 1 {
        assert cells'[c[b - 1]] == cells[c[b - 1]];
      }
    }
    if c != [] {
      assert cells'[c[|c| - 1]].next == cells[c[|c| - 1]].next;
    }
  }

  /** `PopNode`'s writes (the second-to-last node's `next` cleared and made
      the tail, or both ends cleared for a single node) leave the chain
      without its last node. */
  lemma DroppedLastIsLinked<T>(st: State<T>, c: seq<Ref>, st': State<T>)
    requires Linked(st, c) && c != []
    requires st'.list == if |c| == 1 then List(0, None, None)
                         else List(|c| - 1, st.list.head, Some(c[|c| - 2]))
    requires forall k :: 0 <= k < |c| - 1 ==> c[k] in st'.heap.cells
    requires forall k :: 0 <= k < |c| - 2 ==> st'.heap.cells[c[k]] == st.heap.cells[c[k]]
    requires |c| > 1 ==>
      st'.heap.cells[c[|c| - 2]] == st.heap.cells[c[|c| - 2]].(next := None)
    ensures Linked(st', c[..|c| - 1] + c[|c|..])
  {
    var cells, cells' := st.heap.cells, st'.heap.cells;
    var ns := c[..|c| - 1] + c[|c|..];
    assert ns == c[..|c| - 1];
    forall a, b | 0 <= a && b == a + 1 && b < |ns|
      ensures ns[b] in cells' && cells'[ns[b]].prev == Some(ns[a])
    {
      assert cells'[c[b]].prev == cells[c[b]].prev;
    }
    if |c| > 1 {
      assert cells'[c[0]].prev == cells[c[0]].prev;
    }
  }

  /** `PopFirstNode`'s writes (the second node's `prev` cleared and made the
      head, or both ends cleared for a single node) leave the chain without
      its first node. */
  lemma DroppedFirstIsLinked<T>(st: State<T>, c: seq<Ref>, st': State<T>)
    requires Linked(st, c) && c != []
    requires st'.list == if |c| == 1 then List(0, None, None)
                         else List(|c| - 1, Some(c[1]), st.list.tail)
    requires forall k :: 1 <= k < |c| ==> c[k] in st'.heap.cells
    requires forall k :: 2 <= k < |c| ==> st'.heap.cells[c[k]] == st.heap.cells[c[k]]
    requires |c| > 1 ==> st'.heap.cells[c[1]] == st.heap.cells[c[1]].(prev := None)
    ensures Linked(st', c[..0] + c[1..])
  {
    var cells, cells' := st.heap.cells, st'.heap.cells;
    var ns := c[..0] + c[1..];
    assert ns == c[1..];
    if |c| > 1 {
      assert forall k :: 0 <= k < |ns| ==> ns[k] == c[k + 1];
      forall a, b | 0 <= a < b < |ns|
        ensures ns[a] != ns[b]
      {
        assert c[a + 1] != c[b + 1];
      }
      forall a, b | 0 <= a && b == a + 1 && b < |ns|
        ensures ns[a] in cells' && cells'[ns[a]].next == Some(ns[b])
      {
        if a == 0 {
          assert cells'[c[1]].next == cells[c[1]].next;
        } else {
          assert cells'[c[a + 1]] == cells[c[a + 1]];
        }
      }
      forall a, b | 0 <= a && b == a + 1 && b < |ns|
        ensures ns[b] in cells' && cells'[ns[b]].prev == Some(ns[a])
      {
        assert cells'[c[b + 1]] == cells[c[b + 1]];
      }
      assert cells'[ns[0]].prev == None;
      assert cells'[ns[|ns| - 1]].next == None by {
        if |c| > 2 {
          assert cells'[c[|c| - 1]] == cells[c[|c| - 1]];
        }
      }
    }
  }

  /** Linking a fresh node `n` between positions `i - 1` and `i` of a chain
      (the four pointer writes of `Insert`) yields a chain with `n` at `i`. */
  lemma SplicedInIsLinked<T>(st: State<T>, c: seq<Ref>, i: nat, n: Ref, st': State<T>)
    requires Linked(st, c) && 0 < i < |c| && n !in c && n in st'.heap.cells
    requires st'.list == st.list.(length := st.list.length + 1)
    requires forall k :: 0 <= k < |c| ==> c[k] in st'.heap.cells
    requires forall k :: 0 <= k < |c| && k != i - 1 && k != i ==>
      st'.heap.cells[c[k]] == st.heap.cells[c[k]]
    requires st'.heap.cells[c[i - 1]] == st.heap.cells[c[i - 1]].(next := Some(n))
    requires st'.heap.cells[c[i]] == st.heap.cells[c[i]].(prev := Some(n))
    requires st'.heap.cells[n].prev == Some(c[i - 1]) && st'.heap.cells[n].next == Some(c[i])
    ensures Linked(st', c[..i] + [n] + c[i..])
  {
    var cells, cells' := st.heap.cells, st'.heap.cells;
    SplicedInNext(cells, cells', c, i, n);
    SplicedInPrev(cells, cells', c, i, n);
    var ns := c[..i] + [n] + c[i..];
    assert forall k :: 0 <= k < |ns| ==> ns[k] == if k < i then c[k] else if k == i then n else c[k - 1];
    if i > 1 {
      assert cells'[c[0]] == cells[c[0]];
    }
    if i < |c| - 1 {
      assert cells'[c[|c| - 1]] == cells[c[|c| - 1]];
    }
  }

  /** The `next` half of `SplicedInIsLinked`. */
  lemma SplicedInNext<T>(cells: map<Ref, Node<T>>, cells': map<Ref, Node<T>>, c: seq<Ref>, i: nat, n: Ref)
    requires 0 < i < |c| && NextLinks(cells, c) && n in cells'
    requires forall k :: 0 <= k < |c| ==> c[k] in cells && c[k] in cells'
    requires forall k :: 0 <= k < |c| && k != i - 1 && k != i ==> cells'[c[k]] == cells[c[k]]
    requires cells'[c[i - 1]].next == Some(n) && cells'[c[i]].next == cells[c[i]].next
    requires cells'[n].next == Some(c[i])
    ensures NextLinks(cells', c[..i] + [n] + c[i..])
  {
    var ns := c[..i] + [n] + c[i..];
    assert forall k :: 0 <= k < |ns| ==> ns[k] == if k < i then c[k] else if k == i then n else c[k - 1];
    forall a, b | 0 <= a && b == a + 1 && b < |ns|
      ensures ns[a] in cells' && cells'[ns[a]].next == Some(ns[b])
    {
      if a < i - 1 {
        assert cells'[c[a]] == cells[c[a]];
      } else if a > i + 1 {
        assert cells'[c[a - 1]] == cells[c[a - 1]];
      }
    }
  }

  /** The `prev` half of `SplicedInIsLinked`. */
  lemma SplicedInPrev<T>(cells: map<Ref, Node<T>>, cells': map<Ref, Node<T>>, c: seq<Ref>, i: nat, n: Ref)
    requires 0 < i < |c| && PrevLinks(cells, c) && n in cells'
    requires forall k :: 0 <= k < |c| ==> c[k] in cells && c[k] in cells'
    requires forall k :: 0 <= k < |c| && k != i - 1 && k != i ==> cells'[c[k]] == cells[c[k]]
    requires cells'[c[i - 1]].prev == cells[c[i - 1]].prev && cells'[c[i]].prev == Some(n)
    requires cells'[n].prev == Some(c[i - 1])
    ensures PrevLinks(cells', c[..i] + [n] + c[i..])
  {
    var ns := c[..i] + [n] + c[i..];
    assert forall k :: 0 <= k < |ns| ==> ns[k] == if k < i then c[k] else if k == i then n else c[k - 1];
    forall a, b | 0 <= a && b == a + 1 && b < |ns|
      ensures ns[b] in cells' && cells'[ns[b]].prev == Some(ns[a])
    {
      if b < i - 1 {
        assert cells'[c[b]] == cells[c[b]];
      } else if b > i + 1 {
        assert cells'[c[b - 1]] == cells[c[b - 1]];
      }
    }
  }

  /** Pointing the neighbours of the `j`-th node of a chain at each other
      (the two relinking writes of `DeleteNode`) yields the chain without it. */
  lemma SplicedOutIsLinked<T>(st: State<T>, c: seq<Ref>, j: nat, st': State<T>)
    requires Linked(st, c) && 0 < j < |c| - 1
    requires st'.list == st.list.(length := st.list.length - 1)
    requires forall k :: 0 <= k < |c| ==> c[k] in st'.heap.cells
    requires forall k :: 0 <= k < |c| && k != j - 1 && k != j && k != j + 1 ==>
      st'.heap.cells[c[k]] == st.heap.cells[c[k]]
    requires st'.heap.cells[c[j - 1]] == st.heap.cells[c[j - 1]].(next := Some(c[j + 1]))
    requires st'.heap.cells[c[j + 1]] == st.heap.cells[c[j + 1]].(prev := Some(c[j - 1]))
    ensures Linked(st', c[..j] + c[j + 1..])
  {
    var cells, cells' := st.heap.cells, st'.heap.cells;
    SplicedOutNext(cells, cells', c, j);
    SplicedOutPrev(cells, cells', c, j);
    var ns := c[..j] + c[j + 1..];
    assert forall k :: 0 <= k < |ns| ==> ns[k] == if k < j then c[k] else c[k + 1];
    forall a, b | 0 <= a < b < |ns|
      ensures ns[a] != ns[b]
    {
      if b < j { assert c[a] != c[b]; }
      else if a < j { assert c[a] != c[b + 1]; }
      else { assert c[a + 1] != c[b + 1]; }
    }
    if j > 1 {
      assert cells'[c[0]] == cells[c[0]];
    }
    if j < |c| - 2 {
      assert cells'[c[|c| - 1]] == cells[c[|c| - 1]];
    }
  }

  /** The `next` half of `SplicedOutIsLinked`. */
  lemma SplicedOutNext<T>(cells: map<Ref, Node<T>>, cells': map<Ref, Node<T>>, c: seq<Ref>, j: nat)
    requires 0 < j < |c| - 1 && NextLinks(cells, c)
    requires forall k :: 0 <= k < |c| ==> c[k] in cells && c[k] in cells'
    requires forall k :: 0 <= k < |c| && k != j - 1 && k != j && k != j + 1 ==> cells'[c[k]] == cells[c[k]]
    requires cells'[c[j - 1]].next == Some(c[j + 1]) && cells'[c[j + 1]].next == cells[c[j + 1]].next
    ensures NextLinks(cells', c[..j] + c[j + 1..])
  {
    var ns := c[..j] + c[j + 1..];
    assert forall k :: 0 <= k < |ns| ==> ns[k] == if k < j then c[k] else c[k + 1];
    forall a, b | 0 <= a && b == a + 1 && b < |ns|
      ensures ns[a] in cells' && cells'[ns[a]].next == Some(ns[b])
    {
      if a < j - 1 {
        assert cells'[c[a]] == cells[c[a]];
      } else if a > j {
        assert cells'[c[a + 1]] == cells[c[a + 1]];
      }
    }
  }

  /** The `prev` half of `SplicedOutIsLinked`. */
  lemma SplicedOutPrev<T>(cells: map<Ref, Node<T>>, cells': map<Ref, Node<T>>, c: seq<Ref>, j: nat)
    requires 0 < j < |c| - 1 && PrevLinks(cells, c)
    requires forall k :: 0 <= k < |c| ==> c[k] in cells && c[k] in cells'
    requires forall k :: 0 <= k < |c| && k != j - 1 && k != j && k != j + 1 ==> cells'[c[k]] == cells[c[k]]
    requires cells'[c[j - 1]].prev == cells[c[j - 1]].prev && cells'[c[j + 1]].prev == Some(c[j - 1])
    ensures PrevLinks(cells', c[..j] + c[j + 1..])
  {
    var ns := c[..j] + c[j + 1..];
    assert forall k :: 0 <= k < |ns| ==> ns[k] == if k < j then c[k] else c[k + 1];
    forall a, b | 0 <= a && b == a + 1 && b < |ns|
      ensures ns[b] in cells' && cells'[ns[b]].prev == Some(ns[a])
    {
      if b < j - 1 {
        assert cells'[c[b]] == cells[c[b]];
      } else if b > j {
        assert cells'[c[b + 1]] == cells[c[b + 1]];
      }
    }
  }

  // ---------------------------------------------------------------------------
  // Nodes
  // ---------------------------------------------------------------------------

  /** `NewNode(data)`: allocates a fresh detached node holding `data`. */
  function NewNode<T>(h: Heap<T>, data: T): (r: (Heap<T>, Ref))
    requires HeapOk(h)
    ensures HeapOk(r.0) && r.1 !in h.cells && r.1 in r.0.cells
    ensures GetData(r.0, r.1) == data
    ensures r.0.cells[r.1].next.None? && r.0.cells[r.1].prev.None?
    ensures forall m :: m in h.cells ==> m in r.0.cells && r.0.cells[m] == h.cells[m]
  {
    (Heap(h.cells[h.free := Node(data, None, None)], h.free + 1), h.free)
  }

  /** `GetData`: the payload of an allocated node. */
  function GetData<T>(h: Heap<T>, n: Ref): T
    requires n in h.cells
  {
    h.cells[n].data
  }

  /** The field write `r.next = p`. */
  function SetNext<T>(h: Heap<T>, r: Ref, p: Option<Ref>): (h': Heap<T>)
    requires r in h.cells
    ensures HeapOk(h) && PointsInto(h, p) ==> HeapOk(h')
  {
    h.(cells := h.cells[r := h.cells[r].(next := p)])
  }

  /** The field write `r.prev = p`. */
  function SetPrev<T>(h: Heap<T>, r: Ref, p: Option<Ref>): (h': Heap<T>)
    requires r in h.cells
    ensures HeapOk(h) && PointsInto(h, p) ==> HeapOk(h')
  {
    h.(cells := h.cells[r := h.cells[r].(prev := p)])
  }

  /** The two field writes that leave `n` detached: `n.next = nil`,
      `n.prev = nil`. */
  function Detach<T>(h: Heap<T>, n: Ref): (h': Heap<T>)
    requires n in h.cells
    ensures h'.free == h.free && h'.cells.Keys == h.cells.Keys
    ensures h'.cells[n] == h.cells[n].(prev := None, next := None)
    ensures forall r :: r in h.cells && r != n ==> h'.cells[r] == h.cells[r]
    ensures HeapOk(h) ==> HeapOk(h')
  {
    SetPrev(SetNext(h, n, None), n, None)
  }

  /** The four field writes that link `n` between neighbours `p` and `q`:
      `p.next = n`, `n.prev = p`, `n.next = q`, `q.prev = n`. */
  function SpliceIn<T>(h: Heap<T>, p: Ref, n: Ref, q: Ref): (h': Heap<T>)
    requires p in h.cells && n in h.cells && q in h.cells && p != n && q != n && p != q
    ensures h'.free == h.free && h'.cells.Keys == h.cells.Keys
    ensures h'.cells[p] == h.cells[p].(next := Some(n))
    ensures h'.cells[n] == h.cells[n].(prev := Some(p), next := Some(q))
    ensures h'.cells[q] == h.cells[q].(prev := Some(n))
    ensures forall r :: r in h.cells && r != p && r != n && r != q ==> h'.cells[r] == h.cells[r]
    ensures HeapOk(h) ==> HeapOk(h')
  {
    var h1 := SetNext(h, p, Some(n));
    var h2 := SetPrev(h1, n, Some(p));
    var h3 := SetNext(h2, n, Some(q));
    SetPrev(h3, q, Some(n))
  }

  /** The four field writes that unlink `m` from between `p` and `q`:
      `p.next = q`, `q.prev = p`, then both slots of `m` cleared. */
  function SpliceOut<T>(h: Heap<T>, p: Ref, m: Ref, q: Ref): (h': Heap<T>)
    requires p in h.cells && m in h.cells && q in h.cells && p != m && q != m && p != q
    ensures h'.free == h.free && h'.cells.Keys == h.cells.Keys
    ensures h'.cells[p] == h.cells[p].(next := Some(q))
    ensures h'.cells[m] == h.cells[m].(prev := None, next := None)
    ensures h'.cells[q] == h.cells[q].(prev := Some(p))
    ensures forall r :: r in h.cells && r != p && r != m && r != q ==> h'.cells[r] == h.cells[r]
    ensures HeapOk(h) ==> HeapOk(h')
  {
    var h1 := SetNext(h, p, Some(q));
    var h2 := SetPrev(h1, q, Some(p));
    var h3 := SetNext(h2, m, None);
    SetPrev(h3, m, None)
  }

  // ---------------------------------------------------------------------------
  // Adding at the ends
  // ---------------------------------------------------------------------------

  /** `AppendNode(node)`: links a detached node as the new tail. */
  function AppendNode<T>(st: State<T>, n: Ref): (r: (State<T>, bool))
    requires Valid(st) && Detached(st, n)
    ensures r.1 && InsertedAt(st, r.0, |Chain(st)|, n, GetData(st.heap, n))
    ensures Chain(r.0) == Chain(st) + [n] && Contents(r.0) == Contents(st) + [GetData(st.heap, n)]
  {
    var linked :=
      if st.list.head.None? then
        State(st.heap, st.list.(head := Some(n), tail := Some(n)))
      else
        var t := st.list.tail.value;
        var h1 := SetPrev(st.heap, n, Some(t));
        var h2 := SetNext(h1, t, Some(n));
        State(h2, st.list.(tail := Some(n)));
    var st' := linked.(list := linked.list.(length := linked.list.length + 1));
    AppendedIsLinked(st, Chain(st), n, st');
    InsertedAtFromLinks(st, st', |Chain(st)|, n);
    assert Chain(st)[..|Chain(st)|] == Chain(st) && Contents(st)[..|Chain(st)|] == Contents(st);
    (st', true)
  }

  /** `Append(data)`: allocates a node for `data` and appends it. */
  function Append<T>(st: State<T>, x: T): (r: (State<T>, bool))
    requires Valid(st)
    ensures r.1 && Valid(r.0)
    ensures Chain(r.0) == Chain(st) + [st.heap.free] && Contents(r.0) == Contents(st) + [x]
  {
    var (h, n) := NewNode(st.heap, x);
    AllocKeepsList(st, h);
    AppendNode(State(h, st.list), n)
  }

  /** `PrependNode(node)`: links a detached node as the new head. */
  function PrependNode<T>(st: State<T>, n: Ref): (r: (State<T>, bool))
    requires Valid(st) && Detached(st, n)
    ensures r.1 && InsertedAt(st, r.0, 0, n, GetData(st.heap, n))
    ensures Chain(r.0) == [n] + Chain(st) && Contents(r.0) == [GetData(st.heap, n)] + Contents(st)
  {
    var linked :=
      if st.list.head.None? then
        State(st.heap, st.list.(head := Some(n), tail := Some(n)))
      else
        var hd := st.list.head.value;
        var h1 := SetNext(st.heap, n, Some(hd));
        var h2 := SetPrev(h1, hd, Some(n));
        State(h2, st.list.(head := Some(n)));
    var st' := linked.(list := linked.list.(length := linked.list.length + 1));
    PrependedIsLinked(st, Chain(st), n, st');
    InsertedAtFromLinks(st, st', 0, n);
    assert Chain(st)[0..] == Chain(st) && Contents(st)[0..] == Contents(st);
    (st', true)
  }

  /** `Prepend(data)`: allocates a node for `data` and prepends it. */
  function Prepend<T>(st: State<T>, x: T): (r: (State<T>, bool))
    requires Valid(st)
    ensures r.1 && Valid(r.0)
    ensures Chain(r.0) == [st.heap.free] + Chain(st) && Contents(r.0) == [x] + Contents(st)
  {
    var (h, n) := NewNode(st.heap, x);
    AllocKeepsList(st, h);
    PrependNode(State(h, st.list), n)
  }

  // ---------------------------------------------------------------------------
  // Removing at the ends
  // ---------------------------------------------------------------------------

  /** `PopNode()`: unlinks the tail and hands it back detached; `None` (Go's
      `nil, false`) on an empty list. */
  function PopNode<T>(st: State<T>): (r: (State<T>, Option<Ref>))
    requires Valid(st)
    ensures Chain(st) == [] ==> r == (st, None)
    ensures Chain(st) != [] ==>
      r.1 == Some(Chain(st)[|Chain(st)| - 1]) && RemovedAt(st, r.0, |Chain(st)| - 1)
  {
    if st.list.head.None? then (st, None)
    else
      var cells := st.heap.cells;
      var n := st.list.tail.value;
      var unlinked :=
        if st.list.head == st.list.tail then
          State(st.heap, st.list.(head := None, tail := None))
        else
          assert cells[Chain(st)[|Chain(st)| - 1]].prev == Some(Chain(st)[|Chain(st)| - 2]);
          var t := cells[n].prev.value;
          State(SetNext(st.heap, t, None), st.list.(tail := Some(t)));
      var st' := State(Detach(unlinked.heap, n), unlinked.list.(length := unlinked.list.length - 1));
      DroppedLastIsLinked(st, Chain(st), st');
      RemovedAtFromLinks(st, st', |Chain(st)| - 1);
      (st', Some(n))
  }

  /** `Pop()`: removes the last value; `None` (Go's zero value and `false`)
      on an empty list. */
  function Pop<T>(st: State<T>): (r: (State<T>, Option<T>))
    requires Valid(st)
    ensures Contents(st) == [] ==> r == (st, None)
    ensures Contents(st) != [] ==>
      var s := Contents(st);
      r.1 == Some(s[|s| - 1]) && Valid(r.0) && Contents(r.0) == s[..|s| - 1]
  {
    var (st', n) := PopNode(st);
    if n.Some? then
      assert Contents(st)[|Contents(st)|..] == [];
      (st', Some(st'.heap.cells[n.value].data))
    else (st', None)
  }

  /** `PopFirstNode()`: unlinks the head and hands it back detached; `None`
      on an empty list. */
  function PopFirstNode<T>(st: State<T>): (r: (State<T>, Option<Ref>))
    requires Valid(st)
    ensures Chain(st) == [] ==> r == (st, None)
    ensures Chain(st) != [] ==> r.1 == Some(Chain(st)[0]) && RemovedAt(st, r.0, 0)
  {
    if st.list.head.None? then (st, None)
    else
      var cells := st.heap.cells;
      var n := st.list.head.value;
      var unlinked :=
        if st.list.head == st.list.tail then
          State(st.heap, st.list.(head := None, tail := None))
        else
          assert cells[Chain(st)[0]].next == Some(Chain(st)[1]);
          var hd := cells[n].next.value;
          State(SetPrev(st.heap, hd, None), st.list.(head := Some(hd)));
      var st' := State(Detach(unlinked.heap, n), unlinked.list.(length := unlinked.list.length - 1));
      DroppedFirstIsLinked(st, Chain(st), st');
      RemovedAtFromLinks(st, st', 0);
      (st', Some(n))
  }

  /** `PopFirst()`: removes the first value; `None` on an empty list. */
  function PopFirst<T>(st: State<T>): (r: (State<T>, Option<T>))
    requires Valid(st)
    ensures Contents(st) == [] ==> r == (st, None)
    ensures Contents(st) != [] ==>
      var s := Contents(st);
      r.1 == Some(s[0]) && Valid(r.0) && Contents(r.0) == s[1..]
  {
    var (st', n) := PopFirstNode(st);
    if n.Some? then
      assert Contents(st)[..0] + Contents(st)[1..] == Contents(st)[1..];
      (st', Some(st'.heap.cells[n.value].data))
    else (st', None)
  }

  // ---------------------------------------------------------------------------
  // Positional access
  // ---------------------------------------------------------------------------

  /** The loop of `GetNode`: starting at `from`, the `j`-th node of the linked
      chain `ns`, follow `next` `k` times. */
  function Follow<T>(h: Heap<T>, from: Option<Ref>, k: int, ghost ns: seq<Ref>, ghost j: nat): (r: Option<Ref>)
    requires 0 <= k && j + k < |ns| && from == Some(ns[j])
    requires forall i :: 0 <= i < |ns| ==> ns[i] in h.cells
    requires NextLinks(h.cells, ns)
    ensures r == Some(ns[j + k])
    decreases k
  {
    if k == 0 then from else Follow(h, h.cells[from.value].next, k - 1, ns, j + 1)
  }

  /** `GetNode(index)`: the node at `index`, or `nil` outside `[0, length)`. */
  function GetNode<T>(st: State<T>, i: int): (r: Option<Ref>)
    requires Valid(st)
    ensures r == if 0 <= i < |Chain(st)| then Some(Chain(st)[i]) else None
  {
    if i < 0 || i >= st.list.length then None
    else Follow(st.heap, st.list.head, i, Chain(st), 0)
  }

  /** `Get(index)`: the value at `index`, or `None` outside `[0, length)`. */
  function Get<T>(st: State<T>, i: int): (r: Option<T>)
    requires Valid(st)
    ensures r == if 0 <= i < |Contents(st)| then Some(Contents(st)[i]) else None
  {
    var n := GetNode(st, i);
    if n.None? then None else Some(st.heap.cells[n.value].data)
  }

  /** `Set(index, data)`: overwrites the value held by the node at `index`. */
  function Set<T>(st: State<T>, i: int, x: T): (r: (State<T>, bool))
    requires Valid(st)
    ensures !(0 <= i < |Contents(st)|) ==> r == (st, false)
    ensures 0 <= i < |Contents(st)| ==>
      && r.1 && Valid(r.0) && Chain(r.0) == Chain(st)
      && Contents(r.0) == Contents(st)[i := x]
      && OthersUnchanged(st, r.0, None)
  {
    var n := GetNode(st, i);
    if n.None? then (st, false)
    else
      var cells := st.heap.cells;
      var st' := st.(heap := st.heap.(cells := cells[n.value := cells[n.value].(data := x)]));
      LinkedIsChain(st', Chain(st));
      (st', true)
  }

  /** `Insert(index, data)`: makes `data` the value at `index`, shifting the
      later values up; rejects `index` outside `[0, length]`. */
  function Insert<T>(st: State<T>, i: int, x: T): (r: (State<T>, bool))
    requires Valid(st)
    ensures !(0 <= i <= |Contents(st)|) ==> r == (st, false)
    ensures 0 <= i <= |Contents(st)| ==> r.1 && InsertedAt(st, r.0, i, st.heap.free, x)
  {
    if i < 0 || i > st.list.length then (st, false)
    else if i == 0 then
      PrependIsInsertAtFront(st, x);
      Prepend(st, x)
    else if i == st.list.length then
      AppendIsInsertAtEnd(st, x);
      Append(st, x)
    else (LinkMiddle(st, i, x), true)
  }

  /** `Append(x)` links the new node in at position `length` and touches no
      allocated cell outside the list. */
  lemma AppendIsInsertAtEnd<T>(st: State<T>, x: T)
    requires Valid(st)
    ensures InsertedAt(st, Append(st, x).0, |Chain(st)|, st.heap.free, x)
  {
    var (h, n) := NewNode(st.heap, x);
    AllocKeepsList(st, h);
  }

  /** `Prepend(x)` links the new node in at position 0 and touches no
      allocated cell outside the list. */
  lemma PrependIsInsertAtFront<T>(st: State<T>, x: T)
    requires Valid(st)
    ensures InsertedAt(st, Prepend(st, x).0, 0, st.heap.free, x)
  {
    var (h, n) := NewNode(st.heap, x);
    AllocKeepsList(st, h);
  }

  /** The last branch of `Insert`: allocates a node for `x` and links it
      between the nodes at positions `i - 1` and `i`. */
  function LinkMiddle<T>(st: State<T>, i: int, x: T): (r: State<T>)
    requires Valid(st) && 0 < i < |Chain(st)|
    ensures InsertedAt(st, r, i, st.heap.free, x)
  {
    var (h, n) := NewNode(st.heap, x);
    AllocKeepsList(st, h);
    var p := GetNode(State(h, st.list), i - 1).value;
    assert h.cells[Chain(st)[i - 1]].next == Some(Chain(st)[i]);
    var q := h.cells[p].next.value;
    var st' := State(SpliceIn(h, p, n, q), st.list.(length := st.list.length + 1));
    SplicedInIsLinked(st, Chain(st), i, n, st');
    InsertedAtFromLinks(st, st', i, n);
    st'
  }

  // ---------------------------------------------------------------------------
  // Deletion
  // ---------------------------------------------------------------------------

  /** A member of the list is its head, its tail, or has both relation slots
      set; so the membership test of `DeleteNode` rejects no member. */
  lemma MemberIsReachable<T>(st: State<T>, m: Ref)
    requires Valid(st)
    ensures m in Chain(st) ==>
      || Some(m) == st.list.head || Some(m) == st.list.tail
      || (st.heap.cells[m].prev.Some? && st.heap.cells[m].next.Some?)
  {
    if m in Chain(st) {
      var c := Chain(st);
      var j := IndexOf(c, m);
      if 0 < j < |c| - 1 {
        assert st.heap.cells[c[j]].prev == Some(c[j - 1]);
        assert st.heap.cells[c[j]].next == Some(c[j + 1]);
      }
    }
  }

  /** What `DeleteNode` may be given: `nil`, a node of this list, or a node
      whose relation slots are both empty. A node of another list still linked
      there cannot be told apart from a member and is excluded. */
  ghost predicate Deletable<T>(st: State<T>, n: Option<Ref>)
  {
    n.Some? ==>
      && n.value in st.heap.cells
      && (n.value in Chain(st) || (st.heap.cells[n.value].next.None? && st.heap.cells[n.value].prev.None?))
  }

  /** The last branch of `DeleteNode`: splices out a member at position `j`
      that is neither the head nor the tail. */
  function UnlinkMiddle<T>(st: State<T>, m: Ref, ghost j: nat): (r: State<T>)
    requires Valid(st) && 0 < j < |Chain(st)| - 1 && Chain(st)[j] == m
    ensures RemovedAt(st, r, j)
  {
    var cells := st.heap.cells;
    assert cells[m].prev == Some(Chain(st)[j - 1]) && cells[m].next == Some(Chain(st)[j + 1]);
    var p := cells[m].prev.value;
    var q := cells[m].next.value;
    var st' := State(SpliceOut(st.heap, p, m, q), st.list.(length := st.list.length - 1));
    SplicedOutIsLinked(st, Chain(st), j, st');
    RemovedAtFromLinks(st, st', j);
    st'
  }

  /** `DeleteNode(node)`: unlinks a member node and leaves it detached;
      `false` and no change for `nil` or a detached non-member. */
  function DeleteNode<T>(st: State<T>, n: Option<Ref>): (r: (State<T>, bool))
    requires Valid(st) && Deletable(st, n)
    ensures r.1 <==> n.Some? && n.value in Chain(st)
    ensures !r.1 ==> r.0 == st
    ensures r.1 ==> RemovedAt(st, r.0, IndexOf(Chain(st), n.value))
  {
    if n.None? then (st, false)
    else
      var m := n.value;
      var cells := st.heap.cells;
      MemberIsReachable(st, m);
      if n != st.list.head && n != st.list.tail && cells[m].prev.None? && cells[m].next.None? then
        (st, false)
      else if n == st.list.head then
        IndexOfMember(st, 0);
        assert PopFirst(st).0 == PopFirstNode(st).0;
        var (st', v) := PopFirst(st);
        (st', v.Some?)
      else if n == st.list.tail then
        IndexOfMember(st, |Chain(st)| - 1);
        assert Pop(st).0 == PopNode(st).0;
        var (st', v) := Pop(st);
        (st', v.Some?)
      else
        (UnlinkMiddle(st, m, IndexOf(Chain(st), m)), true)
  }

  /** `Delete(index)`: `DeleteNode(GetNode(index))`. */
  function Delete<T>(st: State<T>, i: int): (r: (State<T>, bool))
    requires Valid(st)
    ensures !(0 <= i < |Contents(st)|) ==> r == (st, false)
    ensures 0 <= i < |Contents(st)| ==> r.1 && RemovedAt(st, r.0, i)
  {
    var n := GetNode(st, i);
    if n.None? then (st, false)
    else
      IndexOfMember(st, i);
      DeleteNode(st, n)
  }

  // ---------------------------------------------------------------------------
  // Accessors and traversal
  // ---------------------------------------------------------------------------

  /** `IsEmpty()`. */
  function IsEmpty<T>(st: State<T>): (r: bool)
    requires Valid(st)
    ensures r <==> Contents(st) == []
  {
    st.list.length == 0
  }

  /** `Length()`. */
  function Length<T>(st: State<T>): (r: int)
    requires Valid(st)
    ensures r == |Contents(st)|
  {
    st.list.length
  }

  /** The loop of `Range`: the values met following `next` from `from` until
      `nil`, taking at most `fuel` steps. */
  function Values<T>(h: Heap<T>, from: Option<Ref>, fuel: int): seq<T>
    requires HeapOk(h) && PointsInto(h, from)
    decreases fuel
  {
    if fuel <= 0 || from.None? then []
    else [h.cells[from.value].data] + Values(h, h.cells[from.value].next, fuel - 1)
  }

  /** `Range()`: the values the channel delivers, head to tail. */
  function Range<T>(st: State<T>): (r: seq<T>)
    requires Valid(st)
    ensures r == Contents(st)
  {
    RangeStopsAtNil(st, st.list.length);
    Values(st.heap, st.list.head, st.list.length)
  }

  /** Following `next` from the `j`-th node of a chain whose last node points at
      `nil` yields the rest of its values, however much fuel is left over. */
  lemma {:induction false} ValuesAlongChain<T>(h: Heap<T>, ns: seq<Ref>, j: nat, fuel: int)
    requires HeapOk(h) && j <= |ns| && fuel >= |ns| - j
    requires forall i :: 0 <= i < |ns| ==> ns[i] in h.cells
    requires NextLinks(h.cells, ns)
    requires ns != [] ==> h.cells[ns[|ns| - 1]].next == None
    ensures Values(h, if j < |ns| then Some(ns[j]) else None, fuel)
         == seq(|ns| - j, i requires 0 <= i < |ns| - j => h.cells[ns[j + i]].data)
    decreases |ns| - j
  {
    if j < |ns| {
      ValuesAlongChain(h, ns, j + 1, fuel - 1);
    }
  }

  /** The walk `Range` performs ends at the tail's `nil`: any fuel of at least
      `length` steps gives exactly the list's values. */
  lemma RangeStopsAtNil<T>(st: State<T>, fuel: int)
    requires Valid(st) && fuel >= st.list.length
    ensures Values(st.heap, st.list.head, fuel) == Contents(st)
  {
    ValuesAlongChain(st.heap, Chain(st), 0, fuel);
  }
}
