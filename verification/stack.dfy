/** The `stack` package: a LIFO façade over the doubly linked list. The top
    of the stack is the list's tail, so `Push` appends, `Pop` pops the last
    value and `Peek` reads the value at `Length() - 1`. The stack holds no
    state of its own beyond the list. */
module Stack {
  import opened Wrappers
  import opened Sequences
  import Dll

  /** A `Stack`: the list (with the heap its nodes live in) it delegates to. */
  datatype Stack<T> = Stack(data: Dll.State<T>)

  ghost predicate Valid<T>(s: Stack<T>)
  {
    Dll.Valid(s.data)
  }

  /** The stack's elements, bottom first and top last. */
  ghost function Elements<T>(s: Stack<T>): seq<T>
  {
    Dll.Contents(s.data)
  }

  /** `New()`: a stack over a fresh empty list. */
  function New<T>(): (s: Stack<T>)
    ensures Valid(s) && Elements(s) == []
  {
    Stack(Dll.Empty())
  }

  /** `Push(data)`: appends `data` to the list; the result of `Append` is
      dropped, as in the source. */
  function Push<T>(s: Stack<T>, x: T): (s': Stack<T>)
    requires Valid(s)
    ensures Valid(s') && Elements(s') == Elements(s) + [x]
  {
    Stack(Dll.Append(s.data, x).0)
  }

  /** `Pop()`: on an empty stack, `None` and no change; otherwise the top
      element, removed. */
  function Pop<T>(s: Stack<T>): (r: (Stack<T>, Option<T>))
    requires Valid(s)
    ensures Elements(s) == [] ==> r == (s, None)
    ensures Elements(s) != [] ==>
      var e := Elements(s);
      r.1 == Some(e[|e| - 1]) && Valid(r.0) && Elements(r.0) == e[..|e| - 1]
  {
    if Dll.IsEmpty(s.data) then (s, None)
    else
      var (d, v) := Dll.Pop(s.data);
      (Stack(d), v)
  }

  /** `Peek()`: the top element without removing it; `None` when empty. */
  function Peek<T>(s: Stack<T>): (r: Option<T>)
    requires Valid(s)
    ensures r == if Elements(s) == [] then None else Some(Elements(s)[|Elements(s)| - 1])
  {
    if Dll.IsEmpty(s.data) then None
    else Dll.Get(s.data, Dll.Length(s.data) - 1)
  }

  /** `IsEmpty()`: whether the stack holds no element. */
  function IsEmpty<T>(s: Stack<T>): (r: bool)
    requires Valid(s)
    ensures r <==> Elements(s) == []
    ensures r <==> Length(s) == 0
  {
    Dll.IsEmpty(s.data)
  }

  /** `Length()`: the number of elements, read from the list's counter. */
  function Length<T>(s: Stack<T>): (r: int)
    requires Valid(s)
    ensures r == |Elements(s)| && r == Dll.Length(s.data)
  {
    Dll.Length(s.data)
  }

  // ---------------------------------------------------------------------------
  // Last in, first out
  // ---------------------------------------------------------------------------

  /** `Pop` right after `Push(x)` returns `x` and restores the elements;
      `Peek` right after `Push(x)` sees `x`. */
  lemma PushThenPop<T>(s: Stack<T>, x: T)
    requires Valid(s)
    ensures Peek(Push(s, x)) == Some(x)
    ensures var (s', v) := Pop(Push(s, x));
      v == Some(x) && Valid(s') && Elements(s') == Elements(s)
  {
    assert (Elements(s) + [x])[..|Elements(s)|] == Elements(s);
  }

  /** Pushes `xs` in order, as the test loops do. */
  ghost function PushAll<T>(s: Stack<T>, xs: seq<T>): (r: Stack<T>)
    requires Valid(s)
    ensures Valid(r) && Elements(r) == Elements(s) + xs
    decreases |xs|
  {
    if xs == [] then s
    else
      var r := PushAll(Push(s, xs[0]), xs[1..]);
      AppendFirstThenRest(Elements(s), xs);
      r
  }

  /** Pops `k` times, collecting the popped elements in the order they come
      out: the top `k` elements, top first. */
  ghost function PopMany<T>(s: Stack<T>, k: nat): (r: (Stack<T>, seq<T>))
    requires Valid(s) && k <= |Elements(s)|
    ensures Valid(r.0)
    ensures Elements(r.0) == Elements(s)[..|Elements(s)| - k]
    ensures r.1 == Reverse(Elements(s)[|Elements(s)| - k..])
    decreases k
  {
    if k == 0 then
      ReverseTopNone(Elements(s));
      (s, [])
    else
      var (s1, v) := Pop(s);
      var (s2, out) := PopMany(s1, k - 1);
      ReverseTopStep(Elements(s), Elements(s1), k, v.value, out);
      (s2, [v.value] + out)
  }

  /** Pushing `xs` and then popping as many times returns `xs` reversed and
      leaves the stack as it was: the stack is last in, first out. */
  lemma LastInFirstOut<T>(s: Stack<T>, xs: seq<T>)
    requires Valid(s)
    ensures var (s', out) := PopMany(PushAll(s, xs), |xs|);
      out == Reverse(xs) && Elements(s') == Elements(s) && Length(s') == Length(s)
  {
    var e := Elements(s) + xs;
    assert e[..|e| - |xs|] == Elements(s);
    assert e[|e| - |xs|..] == xs;
  }
}
