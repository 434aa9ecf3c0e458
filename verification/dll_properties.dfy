/** Properties of the list engine that relate several operations: the shape
    of a valid list, the mirror-image backward walk, round trips between
    adding and removing, and the node-handle relinking an LRU cache relies on. */
module DllProperties {
  import opened Wrappers
  import opened Sequences
  import opened Dll

  /** The header invariants a valid list keeps: `length`, `head` and `tail`
      are all empty together, and a single node is both ends with no links. */
  lemma ShapeInvariants<T>(st: State<T>)
    requires Valid(st)
    ensures st.list.length >= 0
    ensures st.list.length == 0 <==> st.list.head.None?
    ensures st.list.head.None? <==> st.list.tail.None?
    ensures st.list.length == 1 ==>
      && st.list.head == st.list.tail
      && st.list.head.value in st.heap.cells
      && st.heap.cells[st.list.head.value].prev.None?
      && st.heap.cells[st.list.head.value].next.None?
  {
  }

  /** The nodes met walking from `from` along `prev` for at most `k` steps. */
  ghost function WalkBack<T>(cells: map<Ref, Node<T>>, from: Option<Ref>, k: int): seq<Ref>
    decreases k
  {
    if k <= 0 || from.None? || from.value !in cells then []
    else [from.value] + WalkBack(cells, cells[from.value].prev, k - 1)
  }

  /** Walking back from the `j`-th node of a linked chain visits its first
      `j + 1` nodes in reverse. */
  lemma {:induction false} WalkBackReverses<T>(st: State<T>, j: nat)
    requires Valid(st) && j < |Chain(st)|
    ensures WalkBack(st.heap.cells, Some(Chain(st)[j]), j + 1) == Reverse(Chain(st)[..j + 1])
  {
    var c := Chain(st);
    if j > 0 {
      WalkBackReverses(st, j - 1);
      assert st.heap.cells[c[j]].prev == Some(c[j - 1]);
      assert c[..j + 1][..j] == c[..j];
    }
  }

  /** Walking from `tail` along `prev` links for `length` steps visits the
      same nodes as the forward walk from `head`, in reverse order. */
  lemma BackwardWalkMirrorsForward<T>(st: State<T>)
    requires Valid(st)
    ensures WalkBack(st.heap.cells, st.list.tail, st.list.length) == Reverse(Chain(st))
  {
    var c := Chain(st);
    if c != [] {
      WalkBackReverses(st, |c| - 1);
      assert c[..|c|] == c;
    }
  }

  /** `Pop` after `Append(x)` gives back `x` and the list as it was. */
  lemma AppendThenPop<T>(st: State<T>, x: T)
    requires Valid(st)
    ensures var (st1, _) := Append(st, x);
      var (st2, v) := Pop(st1);
      v == Some(x) && Valid(st2) && Contents(st2) == Contents(st)
  {
    var (st1, _) := Append(st, x);
    assert (Contents(st) + [x])[..|Contents(st)|] == Contents(st);
  }

  /** `PopFirst` after `Prepend(x)` gives back `x` and the list as it was. */
  lemma PrependThenPopFirst<T>(st: State<T>, x: T)
    requires Valid(st)
    ensures var (st1, _) := Prepend(st, x);
      var (st2, v) := PopFirst(st1);
      v == Some(x) && Valid(st2) && Contents(st2) == Contents(st)
  {
    var (st1, _) := Prepend(st, x);
    assert ([x] + Contents(st))[1..] == Contents(st);
  }

  /** `Delete(i)` undoes a successful `Insert(i, x)`. */
  lemma InsertThenDelete<T>(st: State<T>, i: int, x: T)
    requires Valid(st) && 0 <= i <= |Contents(st)|
    ensures var (st1, ok1) := Insert(st, i, x);
      var (st2, ok2) := Delete(st1, i);
      ok1 && ok2 && Valid(st2) && Contents(st2) == Contents(st)
  {
    var s := Contents(st);
    var t := s[..i] + [x] + s[i..];
    assert t[..i] + t[i + 1..] == s;
  }

  /** After `Set(i, x)` succeeds, `Get(i)` is `x` and every other position
      reads as before. */
  lemma SetThenGet<T>(st: State<T>, i: int, x: T, j: int)
    requires Valid(st) && 0 <= i < |Contents(st)|
    ensures var (st1, ok) := Set(st, i, x);
      ok && Get(st1, i) == Some(x) && (j != i ==> Get(st1, j) == Get(st, j))
  {
  }

  /** `Delete(i)` removes the very node `GetNode(i)` names, which comes back
      detached. */
  lemma DeleteRemovesGetNode<T>(st: State<T>, i: int)
    requires Valid(st) && 0 <= i < |Chain(st)|
    ensures var n := GetNode(st, i).value;
      var (st1, ok) := Delete(st, i);
      ok && Valid(st1) && n !in Chain(st1) && Detached(st1, n)
  {
  }

  /** A node that is not in the list, such as a fresh `NewNode`, is refused by
      `DeleteNode`, and nothing changes. */
  lemma DeleteNodeRefusesNewNode<T>(st: State<T>, x: T)
    requires Valid(st)
    ensures var (h, n) := NewNode(st.heap, x);
      && Valid(State(h, st.list)) && Contents(State(h, st.list)) == Contents(st)
      && DeleteNode(State(h, st.list), Some(n)) == (State(h, st.list), false)
  {
    var (h, n) := NewNode(st.heap, x);
    AllocKeepsList(st, h);
  }

  /** A node popped from the list is refused by a later `DeleteNode`. */
  lemma DeleteNodeRefusesPopped<T>(st: State<T>)
    requires Valid(st) && Chain(st) != []
    ensures var (st1, n) := PopNode(st);
      n.Some? && DeleteNode(st1, n) == (st1, false)
  {
  }

  /** Handing the node `PopNode` returned to `AppendNode` restores the list
      exactly: an LRU cache can recycle evicted nodes without reallocating. */
  lemma PopNodeThenAppendNode<T>(st: State<T>)
    requires Valid(st) && Chain(st) != []
    ensures var (st1, n) := PopNode(st);
      var (st2, ok) := AppendNode(st1, n.value);
      ok && Valid(st2) && Chain(st2) == Chain(st) && Contents(st2) == Contents(st)
  {
    var c := Chain(st);
    assert c[..|c| - 1] + c[|c|..] + [c[|c| - 1]] == c;
    var s := Contents(st);
    assert s[..|s| - 1] + s[|s|..] + [s[|s| - 1]] == s;
  }

  /** Move-to-front, the LRU cache's touch: `DeleteNode(n)` followed by
      `PrependNode(n)` puts the same node first and keeps the others in order. */
  lemma MoveToFront<T>(st: State<T>, i: nat)
    requires Valid(st) && i < |Chain(st)|
    ensures var n := Chain(st)[i];
      var (st1, ok1) := DeleteNode(st, Some(n));
      var (st2, ok2) := PrependNode(st1, n);
      && ok1 && ok2 && Valid(st2)
      && Chain(st2) == [n] + Chain(st)[..i] + Chain(st)[i + 1..]
      && Contents(st2) == [Contents(st)[i]] + Contents(st)[..i] + Contents(st)[i + 1..]
  {
    var n := Chain(st)[i];
    IndexOfMember(st, i);
    assert [Contents(st)[i]] + Contents(st)[..i] + Contents(st)[i + 1..]
        == [Contents(st)[i]] + (Contents(st)[..i] + Contents(st)[i + 1..]);
    assert [n] + Chain(st)[..i] + Chain(st)[i + 1..] == [n] + (Chain(st)[..i] + Chain(st)[i + 1..]);
  }

  /** Three values added at the back of an empty sequence and two at the
      front, spelled as the concatenations the additions produce. */
  lemma FiveFromBothEnds<T>(a: T, b: T, c: T, d: T, e: T)
    ensures [e] + ([d] + ((([] + [a]) + [b]) + [c])) == [e, d, a, b, c]
  {
  }

  /** Taking five values alternately from the back and the front: the back,
      then the front, then the back again, and so on. */
  lemma FiveFromAlternateEnds<T>(s: seq<T>)
    requires |s| == 5
    ensures var s1 := s[..|s| - 1];
      var s2 := s1[1..];
      var s3 := s2[..|s2| - 1];
      var s4 := s3[1..];
      && [s[|s| - 1], s1[0], s2[|s2| - 1], s3[0], s4[|s4| - 1]] == [s[4], s[0], s[3], s[1], s[2]]
      && |s2| == 3 && s4[..|s4| - 1] == []
  {
  }

  /** The filling half of the deque scenario: append `a`, `b`, `c`, then
      prepend `d` and `e`. */
  lemma DequeFill<T>(a: T, b: T, c: T, d: T, e: T)
    ensures var st := Prepend(Prepend(Append(Append(Append(Empty<T>(), a).0, b).0, c).0, d).0, e).0;
      Valid(st) && Contents(st) == [e, d, a, b, c] && Length(st) == 5
  {
    FiveFromBothEnds(a, b, c, d, e);
  }

  /** The draining half: alternating `Pop` and `PopFirst` on a list of five
      values takes them from the back and the front in turn until it is empty;
      both then report absence. */
  lemma DequeDrain<T>(st: State<T>)
    requires Valid(st) && |Contents(st)| == 5
    ensures var s := Contents(st);
      var (st1, v1) := Pop(st);
      var (st2, v2) := PopFirst(st1);
      && Length(st2) == 3
      && var (st3, v3) := Pop(st2);
      && var (st4, v4) := PopFirst(st3);
      && var (st5, v5) := Pop(st4);
      && [v1, v2, v3, v4, v5] == [Some(s[4]), Some(s[0]), Some(s[3]), Some(s[1]), Some(s[2])]
      && Length(st5) == 0 && IsEmpty(st5)
      && Pop(st5).1 == None && PopFirst(st5).1 == None
  {
    FiveFromAlternateEnds(Contents(st));
  }

  /** The whole deque scenario; with 1 to 5 for `a` to `e` the values come
      out as 3, 5, 2, 4, 1. */
  lemma DequeTrace<T>(a: T, b: T, c: T, d: T, e: T)
    ensures var st := Prepend(Prepend(Append(Append(Append(Empty<T>(), a).0, b).0, c).0, d).0, e).0;
      var (st1, v1) := Pop(st);
      var (st2, v2) := PopFirst(st1);
      var (st3, v3) := Pop(st2);
      var (st4, v4) := PopFirst(st3);
      var (st5, v5) := Pop(st4);
      [v1, v2, v3, v4, v5] == [Some(c), Some(e), Some(b), Some(d), Some(a)] && IsEmpty(st5)
  {
    DequeFill(a, b, c, d, e);
    var st := Prepend(Prepend(Append(Append(Append(Empty<T>(), a).0, b).0, c).0, d).0, e).0;
    DequeDrain(st);
  }
}
