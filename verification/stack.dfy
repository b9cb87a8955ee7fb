/** The bounded LIFO stack of data-structures/stack/src/lib.rs.
    The Rust struct keeps a logical `top` index beside its backing vector (`array`, called `elems` here);
    the model keeps both, and `Valid` is the invariant the two must share.
    The Rust methods mutate `self`; here each one returns the new stack, and
    an `Err` result means the caller's stack is left as it was. */
module BoundedStack {
  import opened Wrappers

  /** Rust's `Fail`: the two ways a stack operation can be refused. */
  datatype Fail = Full | Empty

  datatype Stack<T> = Stack(top: int, capacity: nat, elems: seq<T>) {
    /** The invariant every public operation keeps: `top` indexes the last
        element (-1 when there is none) and the size never exceeds the
        capacity. */
    predicate Valid() {
      top == |elems| - 1 && |elems| <= capacity
    }

    predicate IsFull() {
      top == capacity - 1
    }

    predicate IsEmpty() {
      top == -1
    }
  }

  function Last<T>(s: seq<T>): T
    requires |s| > 0
  {
    s[|s| - 1]
  }

  /** `Stack::new`: an empty stack of the given capacity. */
  function New<T>(capacity: nat): (s: Stack<T>)
    ensures s.Valid() && s.capacity == capacity
    ensures s.IsEmpty() && |s.elems| == 0
  {
    Stack(-1, capacity, [])
  }

  /** On a valid stack the index tests agree with the size of the contents. */
  lemma FullEmptyBySize<T>(s: Stack<T>)
    requires s.Valid()
    ensures s.IsFull() <==> |s.elems| == s.capacity
    ensures s.IsEmpty() <==> |s.elems| == 0
  {
  }

  /** `push`: refused with `Full` exactly when the stack holds `capacity`
      items; otherwise the item becomes the new top and nothing else moves. */
  function Push<T>(s: Stack<T>, item: T): (r: Result<Stack<T>, Fail>)
    requires s.Valid()
    ensures r.Err? <==> |s.elems| == s.capacity
    ensures r.Err? ==> r.error == Full
    ensures r.Ok? ==> r.value.Valid() && r.value.capacity == s.capacity
    ensures r.Ok? ==> r.value.elems == s.elems + [item]
  {
    if s.IsFull() then Err(Full)
    else Ok(Stack(s.top + 1, s.capacity, s.elems + [item]))
  }

  /** `pop`: refused with `Empty` exactly when the stack is empty; otherwise
      exactly the last element is removed. */
  function Pop<T>(s: Stack<T>): (r: Result<Stack<T>, Fail>)
    requires s.Valid()
    ensures r.Err? <==> |s.elems| == 0
    ensures r.Err? ==> r.error == Empty
    ensures r.Ok? ==> r.value.Valid() && r.value.capacity == s.capacity
    ensures r.Ok? ==> r.value.elems + [Last(s.elems)] == s.elems
  {
    if s.IsEmpty() then Err(Empty)
    else Ok(Stack(s.top - 1, s.capacity, s.elems[..s.top]))
  }

  /** `top`: the most recently pushed element, or `Empty`. */
  function Top<T>(s: Stack<T>): (r: Result<T, Fail>)
    requires s.Valid()
    ensures r.Err? <==> |s.elems| == 0
    ensures r.Err? ==> r.error == Empty
    ensures r.Ok? ==> r.value == Last(s.elems)
  {
    if s.IsEmpty() then Err(Empty)
    else Ok(s.elems[s.top])
  }

  /** Pushing the items one after another, as the loop of `Stack::from` does. */
  function PushAll<T>(s: Stack<T>, items: seq<T>): (r: Stack<T>)
    requires s.Valid() && |s.elems| + |items| <= s.capacity
    ensures r.Valid() && r.capacity == s.capacity
    ensures r.elems == s.elems + items
    decreases |items|
  {
    if items == [] then s
    else PushAll(Push(s, items[0]).value, items[1..])
  }

  /** `Stack::from`: the stack holding `items` with the last one on top.
      The source unwraps every push, so more items than capacity is a panic;
      that case is excluded by the precondition. */
  function From<T>(items: seq<T>, capacity: nat): (s: Stack<T>)
    requires |items| <= capacity
    ensures s.Valid() && s.capacity == capacity
    ensures s.elems == items
  {
    PushAll(New(capacity), items)
  }

  /** Last in, first out: a push that succeeds is undone by a pop, and the
      pushed item is what `top` then reports. */
  lemma {:induction false} PushThenPop<T>(s: Stack<T>, item: T)
    requires s.Valid() && |s.elems| < s.capacity
    ensures Push(s, item).Ok?
    ensures Top(Push(s, item).value) == Ok(item)
    ensures Pop(Push(s, item).value) == Ok(s)
  {
    var t := Push(s, item).value;
    assert t.elems[..t.top] == s.elems;
  }

  /** A push on a full stack and a pop on an empty stack change nothing and
      report the matching failure. */
  lemma FailuresLeaveStack<T>(s: Stack<T>, item: T)
    requires s.Valid()
    ensures |s.elems| == s.capacity ==> Push(s, item) == Err(Full)
    ensures |s.elems| == 0 ==> Pop(s) == Err(Empty) && Top(s) == Err(Empty)
  {
  }

  /** The `full` test: with capacity one, the second push and the second pop
      both fail. */
  lemma CapacityOneScenario()
    ensures Push(New<int>(1), 4).Ok?
    ensures Push(Push(New<int>(1), 4).value, 5) == Err(Full)
    ensures Pop(Push(New<int>(1), 4).value) == Ok(New<int>(1))
    ensures Pop(New<int>(1)) == Err(Empty)
  {
    PushThenPop(New<int>(1), 4);
  }

  /** The `basic` test: `from(vec![5, 7, 11], 42)` shows 11 on top, then 7
      after one pop; `from(vec!['a', 'w'], 10)` shows 'w'. */
  lemma FromScenario()
    ensures Top(From([5, 7, 11], 42)) == Ok(11)
    ensures Pop(From([5, 7, 11], 42)).Ok?
    ensures Top(Pop(From([5, 7, 11], 42)).value) == Ok(7)
    ensures Top(From(['a', 'w'], 10)) == Ok('w')
  {
    var s := From([5, 7, 11], 42);
    assert s.elems == [5, 7, 11];
    var p := Pop(s).value;
    assert p.elems + [11] == [5, 7, 11];
    assert p.elems == [5, 7];
  }
}
