/** Binary expressions over one-character operands, and what the two
    converters of data-structures/stack/src/lib.rs do with their spellings.
    `_in_to_post` reads the usual infix notation: `^` binds tighter than
    `*` and `/`, which bind tighter than `+` and `-`, and every operator
    groups to the left, `^` included. `_post_to_in` writes every
    application in brackets. On these spellings the two converters are
    inverse to each other. */
module Expressions {
  import opened Wrappers
  import opened BoundedStack
  import opened Notation
  import opened Sequences
  import opened NotationProperties

  /** An expression as it is written: `Group` is a pair of brackets. */
  datatype Expr = Atom(name: char) | Apply(op: char, lhs: Expr, rhs: Expr) | Group(inner: Expr)

  /** Leaves are letters or digits and inner nodes one of the five
      operators `order` ranks. */
  predicate WellFormed(e: Expr) {
    match e
    case Atom(c) => IsOperand(c)
    case Apply(op, l, r) => Order(op) >= 1 && WellFormed(l) && WellFormed(r)
    case Group(x) => WellFormed(x)
  }

  /** Operands first, operator last; brackets vanish. */
  function Postfix(e: Expr): (r: string)
    ensures |r| > 0
  {
    match e
    case Atom(c) => [c]
    case Apply(op, l, r) => Postfix(l) + Postfix(r) + [op]
    case Group(x) => Postfix(x)
  }

  /** Every operator application in brackets, as `_post_to_in` writes it. */
  function Infix(e: Expr): string {
    match e
    case Atom(c) => [c]
    case Apply(op, l, r) => "(" + Infix(l) + [op] + Infix(r) + ")"
    case Group(x) => Infix(x)
  }

  /** The expression written out, with exactly the brackets it has. */
  function Text(e: Expr): string {
    match e
    case Atom(c) => [c]
    case Apply(op, l, r) => Text(l) + [op] + Text(r)
    case Group(x) => "(" + Text(x) + ")"
  }

  /** How tightly the written expression holds together: an operand or a
      bracketed expression cannot be split by any operator. */
  function Prec(e: Expr): int {
    if e.Apply? then Order(e.op) else 4
  }

  /** The text of `e` reads back as `e` under the usual precedences with
      left grouping: a left operand needs brackets when it binds less
      tightly than its operator, and a right operand when it binds no
      more tightly. */
  predicate Readable(e: Expr) {
    match e
    case Atom(c) => IsOperand(c)
    case Apply(op, l, r) =>
      && Order(op) >= 1 && Readable(l) && Readable(r)
      && Prec(l) >= Order(op) && Prec(r) > Order(op)
    case Group(x) => Readable(x)
  }

  /** Every application bracketed: the tree `Infix` spells. */
  function Bracketed(e: Expr): (b: Expr)
    ensures Text(b) == Infix(e) && Postfix(b) == Postfix(e)
    ensures WellFormed(e) ==> Readable(b)
    ensures !b.Apply?
  {
    match e
    case Atom(c) => e
    case Apply(op, l, r) => Group(Apply(op, Bracketed(l), Bracketed(r)))
    case Group(x) => Bracketed(x)
  }

  // ---------------------------------------------------------------------
  // Postfix to infix
  // ---------------------------------------------------------------------

  /** Two valid stacks with the same capacity and contents are the same. */
  lemma SameStack<T>(a: Stack<T>, b: Stack<T>)
    requires a.Valid() && b.Valid() && a.capacity == b.capacity && a.elems == b.elems
    ensures a == b
  {
  }

  /** Scanning the postfix spelling of `e` pushes exactly one value, the
      bracketed infix spelling of `e`, whatever is already on the stack and
      whatever input follows. */
  lemma {:induction false} PostfixScan(e: Expr, rest: string, st: Stack<string>)
    requires WellFormed(e) && st.Valid() && |st.elems| + |Postfix(e)| <= st.capacity
    ensures Push(st, Infix(e)).Ok?
    ensures ScanPost(Postfix(e) + rest, st) == ScanPost(rest, Push(st, Infix(e)).value)
    decreases e
  {
    match e
    case Atom(c) =>
      assert (Postfix(e) + rest)[0] == c;
      assert (Postfix(e) + rest)[1..] == rest;
    case Group(x) =>
      PostfixScan(x, rest, st);
    case Apply(op, l, r) =>
      var st1 := Push(st, Infix(l)).value;
      var st2 := Push(st1, Infix(r)).value;
      calc {
        ScanPost(Postfix(e) + rest, st);
        { assert Postfix(e) + rest == Postfix(l) + (Postfix(r) + ([op] + rest)); }
        ScanPost(Postfix(l) + (Postfix(r) + ([op] + rest)), st);
        { PostfixScan(l, Postfix(r) + ([op] + rest), st); }
        ScanPost(Postfix(r) + ([op] + rest), st1);
        { PostfixScan(r, [op] + rest, st1); }
        ScanPost([op] + rest, st2);
        { CombineTwo(st, Infix(l), Infix(r), op, rest); }
        ScanPost(rest, Push(st, Infix(e)).value);
      }
  }

  /** An operator on two pushed values replaces them with their bracketed
      combination. */
  lemma CombineTwo(st: Stack<string>, a: string, b: string, op: char, rest: string)
    requires st.Valid() && |st.elems| + 2 <= st.capacity && !IsOperand(op)
    ensures Push(st, a).Ok? && Push(Push(st, a).value, b).Ok?
    ensures ScanPost([op] + rest, Push(Push(st, a).value, b).value)
            == ScanPost(rest, Push(st, "(" + a + [op] + b + ")").value)
  {
    var st2 := Push(Push(st, a).value, b).value;
    assert st2.elems == st.elems + [a, b];
    assert ([op] + rest)[0] == op && ([op] + rest)[1..] == rest;
    SameStack(Combine(st2, op).value, Push(st, "(" + a + [op] + b + ")").value);
  }

  /** `_post_to_in` turns the postfix spelling of a well-formed expression
      into its fully bracketed infix spelling. */
  lemma PostToInOfPostfix(e: Expr)
    requires WellFormed(e)
    ensures TryPostToIn(Postfix(e)) == Ok(Infix(e))
  {
    var st := New<string>(|Postfix(e)| * 2);
    PostfixScan(e, [], st);
    assert Postfix(e) + [] == Postfix(e);
  }

  /** A postfix input that leaves two values on the stack is not refused:
      `_post_to_in` returns the top value and ignores the one below. */
  lemma PostToInResidue(e1: Expr, e2: Expr)
    requires WellFormed(e1) && WellFormed(e2)
    ensures TryPostToIn(Postfix(e1) + Postfix(e2)) == Ok(Infix(e2))
  {
    var p := Postfix(e1) + Postfix(e2);
    var st := New<string>(|p| * 2);
    PostfixScan(e1, Postfix(e2), st);
    ResidueTop(e2, Push(st, Infix(e1)).value);
  }

  /** Scanning a complete expression onto a non-full stack ends with its
      infix spelling on top. */
  lemma ResidueTop(e: Expr, st: Stack<string>)
    requires WellFormed(e) && st.Valid() && |st.elems| + |Postfix(e)| <= st.capacity
    ensures ScanPost(Postfix(e), st) == Ok(Infix(e))
  {
    PostfixScan(e, [], st);
    assert Postfix(e) + [] == Postfix(e);
  }

  // ---------------------------------------------------------------------
  // Infix to postfix
  // ---------------------------------------------------------------------

  /** The operators of `e` still on the stack once its text is read: the
      chain of right operands that are not bracketed, outermost first. */
  function Spine(e: Expr): (r: string)
    ensures |r| <= |Text(e)|
  {
    if e.Apply? then [e.op] + Spine(e.rhs) else []
  }

  /** The pending operators are real operators binding at least as tightly
      as the expression. */
  lemma {:induction false} SpineFacts(e: Expr)
    requires Readable(e)
    ensures forall c | c in Spine(e) :: Order(c) >= Prec(e) && Order(c) >= 1
  {
    if e.Apply? {
      SpineFacts(e.rhs);
    }
  }

  /** What the scan has emitted once the text of `e` is read: everything
      but the pending operators of `Spine`. */
  function Emitted(e: Expr): (r: string)
    ensures r + Reverse(Spine(e)) == Postfix(e)
  {
    match e
    case Atom(c) => [c]
    case Group(x) => Postfix(x)
    case Apply(op, l, r) =>
      ReverseCons(op, Spine(r));
      Postfix(l) + Emitted(r)
  }

  /** The stack holding `elems`, of capacity `capacity`. */
  function StackOf(capacity: nat, elems: string): (st: Stack<char>)
    requires |elems| <= capacity
    ensures st.Valid() && st.capacity == capacity && st.elems == elems
  {
    Stack(|elems| - 1, capacity, elems)
  }

  /** The infix scan reads one character at a time. */
  lemma ScanInCons(ch: char, t: string, s: Scan)
    requires s.st.Valid() && StepIn(ch, s).Ok?
    ensures ScanIn([ch] + t, s) == ScanIn(t, StepIn(ch, s).value)
  {
    assert ([ch] + t)[0] == ch && ([ch] + t)[1..] == t;
  }

  /** Where the popping loop of an operator stops: below every pending
      operator that binds at least as tightly, and above anything that
      binds less tightly. */
  lemma PoppedToBelow(below: string, pending: string, out: string, f: int, t: Scan)
    requires PoppedTo(below + pending, out, f, t)
    requires |below| == 0 || Order(Last(below)) < f
    requires forall c | c in pending :: f <= Order(c)
    ensures t.st.elems == below && t.out == out + Reverse(pending)
  {
    var e := below + pending;
    var n := |t.st.elems|;
    assert |below| > 0 ==> e[|below| - 1] == Last(below);
    if n < |below| {
      assert false;
    } else if n > |below| {
      assert false;
    }
    assert e[..n] == below && e[n..] == pending;
  }

  /** Where the loop on a `)` stops: at the most recent `(`. */
  lemma ClosedAtOpen(below: string, pending: string, out: string, t: Scan)
    requires ClosedAt(below + ['('] + pending, out, t) && '(' !in pending
    ensures t.st.elems == below + ['('] && t.out == out + Reverse(pending)
  {
    var e := below + ['('] + pending;
    var n := |t.st.elems|;
    assert e[|below|] == '(';
    if n - 1 < |below| {
      assert false;
    } else if n - 1 > |below| {
      assert false;
    }
    assert e[..n] == below + ['('] && e[n..] == pending;
  }

  /** An operator pops exactly the pending operators that bind at least as
      tightly, stopping at anything that binds less tightly. */
  lemma OperatorStep(op: char, below: string, pending: string, s: Scan)
    requires Order(op) >= 1 && s.st.Valid() && s.st.elems == below + pending
    requires |below| < s.st.capacity
    requires |below| == 0 || Order(Last(below)) < Order(op)
    requires forall c | c in pending :: Order(op) <= Order(c)
    ensures StepIn(op, s) == Ok(Scan(StackOf(s.st.capacity, below + [op]), s.out + Reverse(pending)))
  {
    assert !IsOperand(op) && op != '(' && op != ')' && op != ' ';
    var p := PopWhile(s, Order(op)).value;
    PoppedToBelow(below, pending, s.out, Order(op), p);
    var st' := Push(p.st, op).value;
    assert StepIn(op, s) == Ok(Scan(st', p.out));
    SameStack(st', StackOf(s.st.capacity, below + [op]));
  }

  /** A `)` moves the pending operators above the most recent `(` to the
      output and drops that `(`. */
  lemma CloseStep(below: string, pending: string, s: Scan)
    requires s.st.Valid() && s.st.elems == below + ['('] + pending && '(' !in pending
    ensures StepIn(')', s) == Ok(Scan(StackOf(s.st.capacity, below), s.out + Reverse(pending)))
  {
    assert s.st.elems[|below|] == '(';
    var c := CloseParen(s).value;
    ClosedAtOpen(below, pending, s.out, c);
    assert Pop(c.st).value.elems + ['('] == below + ['('];
    SameStack(Pop(c.st).value, StackOf(s.st.capacity, below));
  }

  /** Reading the text of a readable expression leaves whatever is on the
      stack below it untouched, as long as that binds less tightly than the
      expression: the scan emits `Emitted(e)` and keeps `Spine(e)` pending. */
  lemma {:induction false} TextScan(e: Expr, rest: string, s: Scan)
    requires Readable(e) && s.st.Valid() && |s.st.elems| + |Text(e)| <= s.st.capacity
    requires |s.st.elems| == 0 || Order(Last(s.st.elems)) < Prec(e)
    ensures ScanIn(Text(e) + rest, s)
            == ScanIn(rest, Scan(StackOf(s.st.capacity, s.st.elems + Spine(e)), s.out + Emitted(e)))
    decreases e, 2
  {
    match e
    case Atom(c) =>
      AtomScan(c, rest, s);
      assert Spine(e) == [] && Emitted(e) == [c] && Text(e) == [c];
      assert s.st.elems + Spine(e) == s.st.elems;
      SameStack(s.st, StackOf(s.st.capacity, s.st.elems + Spine(e)));
    case Group(x) =>
      GroupScan(e, rest, s);
      assert Spine(e) == [] && Emitted(e) == Postfix(e);
      assert s.st.elems + Spine(e) == s.st.elems;
      SameStack(s.st, StackOf(s.st.capacity, s.st.elems + Spine(e)));
    case Apply(op, l, r) =>
      ApplyScan(e, rest, s);
  }

  /** An operand goes straight to the output. */
  lemma AtomScan(c: char, rest: string, s: Scan)
    requires IsOperand(c) && s.st.Valid()
    ensures ScanIn([c] + rest, s) == ScanIn(rest, Scan(s.st, s.out + [c]))
  {
    ScanInCons(c, rest, s);
  }

  /** A bracketed expression: its `(` is pushed, its text is read, and its
      `)` flushes its pending operators. */
  lemma {:induction false} GroupScan(e: Expr, rest: string, s: Scan)
    requires e.Group? && Readable(e) && s.st.Valid() && |s.st.elems| + |Text(e)| <= s.st.capacity
    ensures ScanIn(Text(e) + rest, s) == ScanIn(rest, Scan(s.st, s.out + Postfix(e)))
    decreases e, 1
  {
    GroupOpen(e, rest, s);
    GroupClose(e, rest, s);
  }

  /** The `)` of a bracketed expression pops the operators pending above its
      `(`, emitting them, and then the `(` itself. */
  lemma {:induction false} GroupClose(e: Expr, rest: string, s: Scan)
    requires e.Group? && Readable(e) && s.st.Valid() && |s.st.elems| + |Text(e)| <= s.st.capacity
    ensures ScanIn([')'] + rest, Scan(StackOf(s.st.capacity, s.st.elems + ['('] + Spine(e.inner)),
                                      s.out + Emitted(e.inner)))
            == ScanIn(rest, Scan(s.st, s.out + Postfix(e)))
  {
    var x, cap, b := e.inner, s.st.capacity, s.st.elems;
    var s2 := Scan(StackOf(cap, b + ['('] + Spine(x)), s.out + Emitted(x));
    SpineFacts(x);
    CloseStep(b, Spine(x), s2);
    ScanInCons(')', rest, s2);
    SameStack(StackOf(cap, b), s.st);
    assert s.out + Emitted(x) + Reverse(Spine(x)) == s.out + Postfix(e);
  }

  /** The `(` of a bracketed expression is pushed and its inner text read
      above it. */
  lemma {:induction false} GroupOpen(e: Expr, rest: string, s: Scan)
    requires e.Group? && Readable(e) && s.st.Valid() && |s.st.elems| + |Text(e)| <= s.st.capacity
    ensures ScanIn(Text(e) + rest, s)
            == ScanIn([')'] + rest, Scan(StackOf(s.st.capacity, s.st.elems + ['('] + Spine(e.inner)),
                                         s.out + Emitted(e.inner)))
    decreases e, 0
  {
    var x, cap, b := e.inner, s.st.capacity, s.st.elems;
    var s1 := Scan(StackOf(cap, b + ['(']), s.out);
    assert Text(e) + rest == ['('] + (Text(x) + ([')'] + rest));
    SameStack(Push(s.st, '(').value, s1.st);
    ScanInCons('(', Text(x) + ([')'] + rest), s);
    TextScan(x, [')'] + rest, s1);
  }

  /** An application: the left operand is read, the operator flushes the
      left operand's pending operators, and the right operand is read above
      the operator. */
  lemma {:induction false} ApplyScan(e: Expr, rest: string, s: Scan)
    requires e.Apply? && Readable(e) && s.st.Valid() && |s.st.elems| + |Text(e)| <= s.st.capacity
    requires |s.st.elems| == 0 || Order(Last(s.st.elems)) < Prec(e)
    ensures ScanIn(Text(e) + rest, s)
            == ScanIn(rest, Scan(StackOf(s.st.capacity, s.st.elems + Spine(e)), s.out + Emitted(e)))
    decreases e, 1
  {
    ApplyLeft(e, rest, s);
    ApplyRight(e, rest, s);
  }

  /** The right operand of an application is read above its operator. */
  lemma {:induction false} ApplyRight(e: Expr, rest: string, s: Scan)
    requires e.Apply? && Readable(e) && s.st.Valid() && |s.st.elems| + |Text(e)| <= s.st.capacity
    ensures ScanIn(Text(e.rhs) + rest, Scan(StackOf(s.st.capacity, s.st.elems + [e.op]), s.out + Postfix(e.lhs)))
            == ScanIn(rest, Scan(StackOf(s.st.capacity, s.st.elems + Spine(e)), s.out + Emitted(e)))
    decreases e, 0
  {
    var op, l, r, cap, b := e.op, e.lhs, e.rhs, s.st.capacity, s.st.elems;
    var s2 := Scan(StackOf(cap, b + [op]), s.out + Postfix(l));
    assert Spine(e) == [op] + Spine(r);
    assert b + [op] + Spine(r) == b + Spine(e);
    assert Emitted(e) == Postfix(l) + Emitted(r);
    assert s.out + Postfix(l) + Emitted(r) == s.out + Emitted(e);
    TextScan(r, rest, s2);
  }

  /** The left operand of an application and its operator are read. */
  lemma {:induction false} ApplyLeft(e: Expr, rest: string, s: Scan)
    requires e.Apply? && Readable(e) && s.st.Valid() && |s.st.elems| + |Text(e)| <= s.st.capacity
    requires |s.st.elems| == 0 || Order(Last(s.st.elems)) < Prec(e)
    ensures ScanIn(Text(e) + rest, s)
            == ScanIn(Text(e.rhs) + rest, Scan(StackOf(s.st.capacity, s.st.elems + [e.op]), s.out + Postfix(e.lhs)))
    decreases e, 0
  {
    var op, l, r, cap, b := e.op, e.lhs, e.rhs, s.st.capacity, s.st.elems;
    assert Readable(l) && Prec(l) >= Order(op) && Prec(e) == Order(op);
    assert |Text(e)| == |Text(l)| + 1 + |Text(r)|;
    assert Text(e) + rest == Text(l) + ([op] + (Text(r) + rest));
    TextScan(l, [op] + (Text(r) + rest), s);
    OperatorAfterLeft(e, Text(r) + rest, s);
  }

  /** Once the left operand is read, the operator flushes the left
      operand's pending operators and takes their place. */
  lemma OperatorAfterLeft(e: Expr, t: string, s: Scan)
    requires e.Apply? && Readable(e) && s.st.Valid() && |s.st.elems| + |Text(e)| <= s.st.capacity
    requires |s.st.elems| == 0 || Order(Last(s.st.elems)) < Prec(e)
    ensures ScanIn([e.op] + t, Scan(StackOf(s.st.capacity, s.st.elems + Spine(e.lhs)), s.out + Emitted(e.lhs)))
            == ScanIn(t, Scan(StackOf(s.st.capacity, s.st.elems + [e.op]), s.out + Postfix(e.lhs)))
  {
    var op, l, cap, b := e.op, e.lhs, s.st.capacity, s.st.elems;
    var s1 := Scan(StackOf(cap, b + Spine(l)), s.out + Emitted(l));
    SpineFacts(l);
    assert forall c | c in Spine(l) :: Order(op) <= Order(c);
    OperatorStep(op, b, Spine(l), s1);
    ScanInCons(op, t, s1);
    assert s1.out + Reverse(Spine(l)) == s.out + Postfix(l);
  }

  /** `_in_to_post` turns the text of a readable expression into its
      postfix spelling. */
  lemma InToPostOfText(e: Expr)
    requires Readable(e)
    ensures TryInToPost(Text(e)) == Ok(Postfix(e))
  {
    var s := Scan(New<char>(|Text(e)|), "");
    TextScan(e, [], s);
    ScanStart(Text(e), s);
    ScanFinish(e, s);
  }

  /** The scan `_in_to_post` starts from, read through to the end. */
  lemma ScanStart(text: string, s: Scan)
    requires s == Scan(New<char>(|text|), "")
    ensures TryInToPost(text) == ScanIn(text + [], s)
  {
    assert text + [] == text;
  }

  /** Draining what `TextScan` leaves after the whole text of `e` gives the
      postfix spelling of `e`. */
  lemma ScanFinish(e: Expr, s: Scan)
    requires s.st.Valid() && s.st.elems == [] && s.out == []
    requires |Spine(e)| <= s.st.capacity
    ensures ScanIn([], Scan(StackOf(s.st.capacity, s.st.elems + Spine(e)), s.out + Emitted(e)))
            == Ok(Postfix(e))
  {
    EmptyLeft(Spine(e));
    EmptyLeft(Emitted(e));
    DrainSpine(e, s.st.capacity);
  }

  lemma EmptyLeft<T>(x: seq<T>)
    ensures [] + x == x
  {
  }

  /** Emptying the stack `Spine(e)` after `Emitted(e)` completes `Postfix(e)`. */
  lemma DrainSpine(e: Expr, capacity: nat)
    requires |Spine(e)| <= capacity
    ensures ScanIn([], Scan(StackOf(capacity, Spine(e)), Emitted(e))) == Ok(Postfix(e))
  {
    var t := Scan(StackOf(capacity, Spine(e)), Emitted(e));
    assert Drain(t) == Ok(Emitted(e) + Reverse(Spine(e)));
  }

  /** The two converters undo each other: on the bracketed spelling, and on
      the postfix spelling, of every well-formed expression. */
  lemma RoundTrips(e: Expr)
    requires WellFormed(e)
    ensures TryInToPost(Infix(e)) == Ok(Postfix(e))
    ensures TryPostToIn(TryInToPost(Infix(e)).value) == Ok(Infix(e))
    ensures TryPostToIn(Postfix(e)).Ok? && TryInToPost(TryPostToIn(Postfix(e)).value) == Ok(Postfix(e))
  {
    InToPostOfText(Bracketed(e));
    PostToInOfPostfix(e);
  }

  // ---------------------------------------------------------------------
  // Worked examples
  // ---------------------------------------------------------------------

  /** The expression of the `in_to_post` and `post_to_in` tests. */
  function TestExpr(): Expr {
    var left := Apply('-', Apply('^', Atom('c'), Atom('d')), Atom('e'));
    var right := Apply('+', Atom('f'), Apply('*', Atom('g'), Atom('h')));
    var power := Apply('^', Group(left), Group(right));
    Apply('-', Apply('+', Atom('a'), Apply('*', Atom('b'), power)), Atom('i'))
  }

  /** The test expression reads back as itself. */
  lemma TestExprReadable()
    ensures Readable(TestExpr()) && WellFormed(TestExpr())
  {
    var e := TestExpr();
    var power := e.lhs.rhs.rhs;
    assert Readable(power.lhs) && Readable(power.rhs) && WellFormed(power);
    assert Readable(e.lhs);
  }

  /** The three spellings of the test expression, built one level at a
      time from parts known only by their spellings. */
  lemma TestExprSpellings()
    ensures Text(TestExpr()) == "a+b*(c^d-e)^(f+g*h)-i"
    ensures Postfix(TestExpr()) == "abcd^e-fgh*+^*+i-"
    ensures Infix(TestExpr()) == "((a+(b*(((c^d)-e)^(f+(g*h)))))-i)"
  {
    var e := TestExpr();
    var power := e.lhs.rhs.rhs;
    var left, right := power.lhs.inner, power.rhs.inner;
    SpellBracketed();
    SpellBracketedRight();
    SpellPower(left, right);
    SpellMiddle(Atom('b'), power);
    SpellLeft(Atom('a'), e.lhs.rhs);
    SpellTop(e.lhs, Atom('i'));
  }

  /** The two bracketed parts of the test expression. */
  lemma SpellBracketed()
    ensures var x := TestExpr().lhs.rhs.rhs.lhs.inner;
            Text(x) == "c^d-e" && Postfix(x) == "cd^e-" && Infix(x) == "((c^d)-e)"
  {
  }

  lemma SpellBracketedRight()
    ensures var x := TestExpr().lhs.rhs.rhs.rhs.inner;
            Text(x) == "f+g*h" && Postfix(x) == "fgh*+" && Infix(x) == "(f+(g*h))"
  {
  }

  lemma SpellPower(l: Expr, r: Expr)
    requires Text(l) == "c^d-e" && Postfix(l) == "cd^e-" && Infix(l) == "((c^d)-e)"
    requires Text(r) == "f+g*h" && Postfix(r) == "fgh*+" && Infix(r) == "(f+(g*h))"
    ensures Text(Apply('^', Group(l), Group(r))) == "(c^d-e)^(f+g*h)"
    ensures Postfix(Apply('^', Group(l), Group(r))) == "cd^e-fgh*+^"
    ensures Infix(Apply('^', Group(l), Group(r))) == "(((c^d)-e)^(f+(g*h)))"
  {
    SpellPowerText(Text(l), Text(r));
    SpellPowerPostfix(Postfix(l), Postfix(r));
    SpellPowerInfix(Infix(l), Infix(r));
  }

  lemma SpellPowerText(t1: string, t2: string)
    requires t1 == "c^d-e" && t2 == "f+g*h"
    ensures "(" + t1 + ")" + "^" + "(" + t2 + ")" == "(c^d-e)^(f+g*h)"
  {
  }

  lemma SpellPowerPostfix(p1: string, p2: string)
    requires p1 == "cd^e-" && p2 == "fgh*+"
    ensures p1 + p2 + "^" == "cd^e-fgh*+^"
  {
  }

  lemma SpellPowerInfix(i1: string, i2: string)
    requires i1 == "((c^d)-e)" && i2 == "(f+(g*h))"
    ensures "(" + i1 + "^" + i2 + ")" == "(((c^d)-e)^(f+(g*h)))"
  {
  }

  lemma SpellMiddle(l: Expr, r: Expr)
    requires Text(l) == "b" && Postfix(l) == "b" && Infix(l) == "b"
    requires Text(r) == "(c^d-e)^(f+g*h)" && Postfix(r) == "cd^e-fgh*+^" && Infix(r) == "(((c^d)-e)^(f+(g*h)))"
    ensures Text(Apply('*', l, r)) == "b*(c^d-e)^(f+g*h)"
    ensures Postfix(Apply('*', l, r)) == "bcd^e-fgh*+^*"
    ensures Infix(Apply('*', l, r)) == "(b*(((c^d)-e)^(f+(g*h))))"
  {
    SpellMiddleText(Text(l), Text(r));
    SpellMiddlePostfix(Postfix(l), Postfix(r));
    SpellMiddleInfix(Infix(l), Infix(r));
  }

  lemma SpellMiddleText(t1: string, t2: string)
    requires t1 == "b" && t2 == "(c^d-e)^(f+g*h)"
    ensures t1 + "*" + t2 == "b*(c^d-e)^(f+g*h)"
  {
  }

  lemma SpellMiddlePostfix(p1: string, p2: string)
    requires p1 == "b" && p2 == "cd^e-fgh*+^"
    ensures p1 + p2 + "*" == "bcd^e-fgh*+^*"
  {
  }

  lemma SpellMiddleInfix(i1: string, i2: string)
    requires i1 == "b" && i2 == "(((c^d)-e)^(f+(g*h)))"
    ensures "(" + i1 + "*" + i2 + ")" == "(b*(((c^d)-e)^(f+(g*h))))"
  {
  }

  lemma SpellLeft(l: Expr, r: Expr)
    requires Text(l) == "a" && Postfix(l) == "a" && Infix(l) == "a"
    requires Text(r) == "b*(c^d-e)^(f+g*h)" && Postfix(r) == "bcd^e-fgh*+^*" && Infix(r) == "(b*(((c^d)-e)^(f+(g*h))))"
    ensures Text(Apply('+', l, r)) == "a+b*(c^d-e)^(f+g*h)"
    ensures Postfix(Apply('+', l, r)) == "abcd^e-fgh*+^*+"
    ensures Infix(Apply('+', l, r)) == "(a+(b*(((c^d)-e)^(f+(g*h)))))"
  {
    SpellLeftText(Text(l), Text(r));
    SpellLeftPostfix(Postfix(l), Postfix(r));
    SpellLeftInfix(Infix(l), Infix(r));
  }

  lemma SpellLeftText(t1: string, t2: string)
    requires t1 == "a" && t2 == "b*(c^d-e)^(f+g*h)"
    ensures t1 + "+" + t2 == "a+b*(c^d-e)^(f+g*h)"
  {
  }

  lemma SpellLeftPostfix(p1: string, p2: string)
    requires p1 == "a" && p2 == "bcd^e-fgh*+^*"
    ensures p1 + p2 + "+" == "abcd^e-fgh*+^*+"
  {
  }

  lemma SpellLeftInfix(i1: string, i2: string)
    requires i1 == "a" && i2 == "(b*(((c^d)-e)^(f+(g*h))))"
    ensures "(" + i1 + "+" + i2 + ")" == "(a+(b*(((c^d)-e)^(f+(g*h)))))"
  {
  }

  lemma SpellTop(l: Expr, r: Expr)
    requires Text(l) == "a+b*(c^d-e)^(f+g*h)" && Postfix(l) == "abcd^e-fgh*+^*+" && Infix(l) == "(a+(b*(((c^d)-e)^(f+(g*h)))))"
    requires Text(r) == "i" && Postfix(r) == "i" && Infix(r) == "i"
    ensures Text(Apply('-', l, r)) == "a+b*(c^d-e)^(f+g*h)-i"
    ensures Postfix(Apply('-', l, r)) == "abcd^e-fgh*+^*+i-"
    ensures Infix(Apply('-', l, r)) == "((a+(b*(((c^d)-e)^(f+(g*h)))))-i)"
  {
    SpellTopText(Text(l), Text(r));
    SpellTopPostfix(Postfix(l), Postfix(r));
    SpellTopInfix(Infix(l), Infix(r));
  }

  lemma SpellTopText(t1: string, t2: string)
    requires t1 == "a+b*(c^d-e)^(f+g*h)" && t2 == "i"
    ensures t1 + "-" + t2 == "a+b*(c^d-e)^(f+g*h)-i"
  {
  }

  lemma SpellTopPostfix(p1: string, p2: string)
    requires p1 == "abcd^e-fgh*+^*+" && p2 == "i"
    ensures p1 + p2 + "-" == "abcd^e-fgh*+^*+i-"
  {
  }

  lemma SpellTopInfix(i1: string, i2: string)
    requires i1 == "(a+(b*(((c^d)-e)^(f+(g*h)))))" && i2 == "i"
    ensures "(" + i1 + "-" + i2 + ")" == "((a+(b*(((c^d)-e)^(f+(g*h)))))-i)"
  {
  }

  /** The round trip of the `in_to_post` and `post_to_in` tests. */
  lemma TestScenario()
    ensures TryInToPost("a+b*(c^d-e)^(f+g*h)-i") == Ok("abcd^e-fgh*+^*+i-")
    ensures TryPostToIn("abcd^e-fgh*+^*+i-") == Ok("((a+(b*(((c^d)-e)^(f+(g*h)))))-i)")
  {
    TestExprReadable();
    TestExprSpellings();
    InToPostOfText(TestExpr());
    PostToInOfPostfix(TestExpr());
  }

  /** Precedence: `*` binds tighter than `+`, and the bracketed form of
      the result reads back. */
  lemma PrecedenceScenario()
    ensures TryInToPost("a+b*c") == Ok("abc*+")
    ensures TryPostToIn("abc*+") == Ok("(a+(b*c))")
  {
    var e := Apply('+', Atom('a'), Apply('*', Atom('b'), Atom('c')));
    PrecedenceReadable(e);
    PrecedenceSpellings(e);
    InToPostOfText(e);
    PostToInOfPostfix(e);
  }

  lemma PrecedenceReadable(e: Expr)
    requires e == Apply('+', Atom('a'), Apply('*', Atom('b'), Atom('c')))
    ensures Readable(e) && WellFormed(e)
  {
    assert Readable(e.rhs) && WellFormed(e.rhs);
  }

  lemma PrecedenceSpellings(e: Expr)
    requires e == Apply('+', Atom('a'), Apply('*', Atom('b'), Atom('c')))
    ensures Text(e) == "a+b*c" && Postfix(e) == "abc*+" && Infix(e) == "(a+(b*c))"
  {
    PrecedenceText(e);
    PrecedencePostfix(e);
    PrecedenceInfix(e);
  }

  lemma PrecedenceText(e: Expr)
    requires e == Apply('+', Atom('a'), Apply('*', Atom('b'), Atom('c')))
    ensures Text(e) == "a+b*c"
  {
    assert Text(e.rhs) == "b*c";
    assert "a" + "+" + "b*c" == "a+b*c";
  }

  lemma PrecedencePostfix(e: Expr)
    requires e == Apply('+', Atom('a'), Apply('*', Atom('b'), Atom('c')))
    ensures Postfix(e) == "abc*+"
  {
    assert Postfix(e.rhs) == "bc*";
    assert "a" + "bc*" + "+" == "abc*+";
  }

  lemma PrecedenceInfix(e: Expr)
    requires e == Apply('+', Atom('a'), Apply('*', Atom('b'), Atom('c')))
    ensures Infix(e) == "(a+(b*c))"
  {
    assert Infix(e.rhs) == "(b*c)";
    assert "(" + "a" + "+" + "(b*c)" + ")" == "(a+(b*c))";
  }

  /** Brackets override precedence. */
  lemma BracketScenario()
    ensures TryInToPost("(a+b)*c") == Ok("ab+c*")
  {
    var e := Apply('*', Group(Apply('+', Atom('a'), Atom('b'))), Atom('c'));
    assert Readable(e);
    assert Text(e) == "(a+b)*c" && Postfix(e) == "ab+c*";
    InToPostOfText(e);
  }

  /** Equal precedences group to the left, `^` included. */
  lemma LeftGroupingScenario()
    ensures TryInToPost("a-b-c") == Ok("ab-c-")
    ensures TryInToPost("a^b^c") == Ok("ab^c^")
  {
    LeftChain('a', '-', 'b', 'c');
    LeftChain('a', '^', 'b', 'c');
  }

  /** `a op b op c` is read as `(a op b) op c`. */
  lemma LeftChain(a: char, op: char, b: char, c: char)
    requires IsOperand(a) && IsOperand(b) && IsOperand(c) && 1 <= Order(op) < 4
    ensures TryInToPost([a, op, b, op, c]) == Ok([a, b, op, c, op])
  {
    var l := Apply(op, Atom(a), Atom(b));
    var e := Apply(op, l, Atom(c));
    assert Readable(Atom(a)) && Readable(Atom(b)) && Readable(Atom(c));
    assert Readable(l);
    assert Readable(e);
    assert Text(l) == [a, op, b];
    assert Text(e) == [a, op, b] + [op] + [c] == [a, op, b, op, c];
    assert Postfix(l) == [a, b, op];
    assert Postfix(e) == [a, b, op] + [c] + [op] == [a, b, op, c, op];
    InToPostOfText(e);
  }

  /** Malformed inputs: a stray `)` and a missing operand are refused with
      `Empty`; two operands and no operator yield the last one. */
  lemma ErrorScenarios()
    ensures TryInToPost("a)") == Err(Empty)
    ensures TryPostToIn("a+") == Err(Empty)
    ensures TryPostToIn("") == Err(Empty)
    ensures TryPostToIn("ab") == Ok("b")
  {
    var x := "a)";
    assert forall c | c in x :: InInfixAlphabet(c);
    assert x[..2] == x;
    assert multiset(x[..2])['('] < multiset(x[..2])[')'];
    InToPostFailure(x);
    var y := "a+";
    assert y[..1] == "a";
    assert !IsOperand(y[1]) && Height(y[..1]) < 2;
    PostToInFailure(y);
    PostToInFailure("");
    PostToInResidue(Atom('a'), Atom('b'));
    assert Postfix(Atom('a')) + Postfix(Atom('b')) == "ab";
  }

  /** An unmatched `(` is not refused: the final drain emits it. */
  lemma UnmatchedOpenScenario()
    ensures TryInToPost("(a") == Ok("a(")
  {
    var s0 := Scan(New<char>(2), "");
    var s1 := Scan(StackOf(2, "("), "");
    var s2 := Scan(StackOf(2, "("), "a");
    assert s0.st.elems + ['('] == "(";
    SameStack(Push(s0.st, '(').value, s1.st);
    assert StepIn('(', s0) == Ok(s1);
    assert s1.out + ['a'] == "a";
    assert StepIn('a', s1) == Ok(s2);
    assert "(a" == ['('] + (['a'] + []);
    ScanInCons('(', ['a'] + [], s0);
    ScanInCons('a', [], s1);
    assert Reverse("(") == "(";
    assert "a" + "(" == "a(";
  }

  /** Spaces are skipped. */
  lemma SpacesScenario()
    ensures TryInToPost("a + b") == Ok("ab+")
  {
    var s0 := Scan(New<char>(5), "");
    var s1 := Scan(s0.st, "a");
    assert s0.out + ['a'] == "a";
    assert StepIn('a', s0) == Ok(s1);
    assert StepIn(' ', s1) == Ok(s1);
    assert "a + b" == ['a'] + ([' '] + "+ b");
    ScanInCons('a', [' '] + "+ b", s0);
    ScanInCons(' ', "+ b", s1);
    SpacesScenarioTail(s1);
  }

  lemma SpacesScenarioTail(s1: Scan)
    requires s1 == Scan(New<char>(5), "a")
    ensures ScanIn("+ b", s1) == Ok("ab+")
  {
    var s3 := Scan(StackOf(5, "+"), "a");
    var s5 := Scan(StackOf(5, "+"), "ab");
    assert PopWhile(s1, 1) == Ok(s1);
    assert s1.st.elems + ['+'] == "+";
    SameStack(Push(s1.st, '+').value, s3.st);
    assert StepIn('+', s1) == Ok(s3);
    assert StepIn(' ', s3) == Ok(s3);
    assert s3.out + ['b'] == "ab";
    assert StepIn('b', s3) == Ok(s5);
    assert "+ b" == ['+'] + ([' '] + (['b'] + []));
    ScanInCons('+', [' '] + (['b'] + []), s1);
    ScanInCons(' ', ['b'] + [], s3);
    ScanInCons('b', [], s3);
    assert Reverse("+") == "+";
    assert "ab" + "+" == "ab+";
  }
}
