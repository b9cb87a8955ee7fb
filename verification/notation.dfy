/** The two notation converters of data-structures/stack/src/lib.rs, built on
    the bounded stack: infix to postfix (a shunting-yard scan over a stack of
    characters) and postfix to infix (a reduce-as-you-go scan over a stack of
    strings). Each Rust `?` on a stack operation is a `:-` here. */
module Notation {
  import opened Wrappers
  import opened BoundedStack
  import opened Sequences

  /** The first match arm of both scans: ASCII letters and digits. */
  predicate IsOperand(c: char) {
    ('a' <= c <= 'z') || ('A' <= c <= 'Z') || ('0' <= c <= '9')
  }

  /** `order`: the precedence of an operator; every other character gets the
      sentinel -1, which is below every real operator. */
  function Order(ch: char): (r: int)
    ensures r >= 1 <==> ch in "+-*/^"
    ensures r < 1 ==> r == -1
    ensures r == 3 <==> ch == '^'
    ensures r == 2 <==> ch == '*' || ch == '/'
    ensures r == 1 <==> ch == '+' || ch == '-'
  {
    match ch
    case '^' => 3
    case '/' | '*' => 2
    case '+' | '-' => 1
    case _ => -1
  }

  /** The letters and digits of a string, in order. */
  function Operands(s: string): (r: string)
    ensures |r| <= |s|
    ensures forall c | c in r :: IsOperand(c) && c in s
    decreases |s|
  {
    if s == [] then []
    else (if IsOperand(s[0]) then [s[0]] else []) + Operands(s[1..])
  }

  // ---------------------------------------------------------------------
  // Infix to postfix
  // ---------------------------------------------------------------------

  /** The state of the infix scan: the operator stack and the output so far. */
  datatype Scan = Scan(st: Stack<char>, out: string)

  /** `_st_to_str`: move the top of the stack to the end of the output. */
  function StackToOutput(s: Scan): (r: Result<Scan, Fail>)
    requires s.st.Valid()
    ensures r.Err? <==> |s.st.elems| == 0
    ensures r.Err? ==> r.error == Empty
    ensures r.Ok? ==> r.value.st.Valid() && r.value.st.capacity == s.st.capacity
    ensures r.Ok? ==> r.value.st.elems + [Last(s.st.elems)] == s.st.elems
    ensures r.Ok? ==> r.value.out == s.out + [Last(s.st.elems)]
  {
    var c :- Top(s.st);
    // the pop cannot fail once `top` has succeeded
    Ok(Scan(Pop(s.st).value, s.out + [c]))
  }

  /** `t` is what remains after moving the operators above the most recent
      `(` of the stack `e` onto the output `out`: that `(` is the new top,
      and the operators above it were appended in LIFO order. */
  predicate ClosedAt(e: seq<char>, out: string, t: Scan) {
    var n := |t.st.elems|;
    && 0 < n <= |e|
    && t.st.elems == e[..n]
    && e[n - 1] == '('
    && '(' !in e[n..]
    && t.out == out + Reverse(e[n..])
  }

  /** The loop on a `)`: move operators to the output until the top is a
      `(`. It fails with `Empty` exactly when the stack holds no `(`;
      otherwise it stops at the most recent `(`, which stays on the stack. */
  function CloseParen(s: Scan): (r: Result<Scan, Fail>)
    requires s.st.Valid()
    ensures r.Err? <==> '(' !in s.st.elems
    ensures r.Err? ==> r.error == Empty
    ensures r.Ok? ==> r.value.st.Valid() && r.value.st.capacity == s.st.capacity
    ensures r.Ok? ==> ClosedAt(s.st.elems, s.out, r.value)
    decreases |s.st.elems|
  {
    var c :- Top(s.st);
    if c == '(' then
      assert s.st.elems[|s.st.elems|..] == [];
      Ok(s)
    else
      // `top` succeeded, so `_st_to_str` does too
      var s' := StackToOutput(s).value;
      var r := CloseParen(s');
      if r.Ok? then
        ClosedAtStep(s'.st.elems, c, s.out, r.value);
        r
      else r
  }

  lemma ClosedAtStep(e': seq<char>, c: char, out: string, t: Scan)
    requires c != '(' && ClosedAt(e', out + [c], t)
    ensures ClosedAt(e' + [c], out, t)
  {
    var e := e' + [c];
    var n := |t.st.elems|;
    assert e[..n] == e'[..n];
    assert e[n..] == e'[n..] + [c];
    ReverseSnoc(e'[n..], c);
  }

  /** `t` is what remains after the stack tops of precedence at least `f`
      were moved from stack `e` to output `out`: a prefix of `e` whose top,
      if any, binds less tightly than `f`. */
  predicate PoppedTo(e: seq<char>, out: string, f: int, t: Scan) {
    var n := |t.st.elems|;
    && n <= |e|
    && t.st.elems == e[..n]
    && (forall i | n <= i < |e| :: f <= Order(e[i]))
    && (n > 0 ==> Order(e[n - 1]) < f)
    && t.out == out + Reverse(e[n..])
  }

  /** The loop on an operator of precedence `f`: move stack tops to the
      output while their precedence is at least `f`. It never fails. */
  function PopWhile(s: Scan, f: int): (r: Result<Scan, Fail>)
    requires s.st.Valid()
    ensures r.Ok?
    ensures r.value.st.Valid() && r.value.st.capacity == s.st.capacity
    ensures PoppedTo(s.st.elems, s.out, f, r.value)
    decreases |s.st.elems|
  {
    if s.st.IsEmpty() then
      assert s.st.elems[|s.st.elems|..] == [];
      Ok(s)
    else
      var c := Top(s.st).value;
      if f <= Order(c) then
        // `top` succeeded, so `_st_to_str` does too
        var s' := StackToOutput(s).value;
        var r := PopWhile(s', f);
        PopWhileStep(s'.st.elems, c, s.out, f, r.value);
        r
      else
        assert s.st.elems[|s.st.elems|..] == [];
        Ok(s)
  }

  lemma PopWhileStep(e': seq<char>, c: char, out: string, f: int, t: Scan)
    requires f <= Order(c) && PoppedTo(e', out + [c], f, t)
    ensures PoppedTo(e' + [c], out, f, t)
  {
    var e := e' + [c];
    var n := |t.st.elems|;
    assert e[..n] == e'[..n];
    forall i | n <= i < |e|
      ensures f <= Order(e[i])
    {
      if i < |e'| {
        assert e[i] == e'[i];
      }
    }
    assert n > 0 ==> e[n - 1] == e'[n - 1];
    assert e[n..] == e'[n..] + [c];
    ReverseSnoc(e'[n..], c);
    assert t.out == out + Reverse(e[n..]);
  }

  /** The final loop: move everything left on the stack to the output, in
      LIFO order. Unmatched `(` characters come out with the rest. */
  function Drain(s: Scan): (r: Result<string, Fail>)
    requires s.st.Valid()
    ensures r == Ok(s.out + Reverse(s.st.elems))
    decreases |s.st.elems|
  {
    if s.st.IsEmpty() then
      assert s.st.elems == [];
      assert s.out + Reverse(s.st.elems) == s.out;
      Ok(s.out)
    else
      var s' := StackToOutput(s).value;
      var x := Last(s.st.elems);
      ReverseSnoc(s'.st.elems, x);
      assert Reverse(s.st.elems) == [x] + Reverse(s'.st.elems);
      assert s'.out + Reverse(s'.st.elems) == s.out + Reverse(s.st.elems);
      Drain(s')
  }

  /** One turn of the `for ch in arg.chars()` loop of `_in_to_post`.
      Only a push can be refused with `Full`, and every arm pushes at most
      one character. */
  function StepIn(ch: char, s: Scan): (r: Result<Scan, Fail>)
    requires s.st.Valid()
    ensures r.Ok? ==> r.value.st.Valid() && r.value.st.capacity == s.st.capacity
    ensures r.Ok? ==> |r.value.st.elems| <= |s.st.elems| + 1
    ensures |s.st.elems| < s.st.capacity && r.Err? ==> r.error == Empty
  {
    if IsOperand(ch) then Ok(Scan(s.st, s.out + [ch]))
    else if ch == '(' then
      var st' :- Push(s.st, '(');
      Ok(Scan(st', s.out))
    else if ch == ')' then
      var s' :- CloseParen(s);
      // CloseParen leaves the matching `(` on top, so this pop succeeds
      Ok(Scan(Pop(s'.st).value, s'.out))
    else if ch == ' ' then Ok(s)
    else
      // the `?` inside the popping loop never fires
      var s' := PopWhile(s, Order(ch)).value;
      var st' :- Push(s'.st, ch);
      Ok(Scan(st', s'.out))
  }

  /** The scan of `_in_to_post` from the current character on. As long as
      the stack and the unread input together fit the capacity, no push is
      refused, so the only failure is `Empty`. */
  function ScanIn(rest: string, s: Scan): (r: Result<string, Fail>)
    requires s.st.Valid()
    ensures |s.st.elems| + |rest| <= s.st.capacity && r.Err? ==> r.error == Empty
    decreases |rest|
  {
    if rest == [] then Drain(s)
    else
      var s' :- StepIn(rest[0], s);
      ScanIn(rest[1..], s')
  }

  /** `_in_to_post`: the stack's capacity is the input length, which is
      never exceeded, so the only possible failure is `Empty`. */
  function TryInToPost(arg: string): (r: Result<string, Fail>)
    ensures r.Err? ==> r.error == Empty
  {
    ScanIn(arg, Scan(New(|arg|), ""))
  }

  // ---------------------------------------------------------------------
  // Postfix to infix
  // ---------------------------------------------------------------------

  /** One operator step: the top value `a` and the one below it `b` are
      replaced by `(b ch a)`. Fails with `Empty` when fewer than two values
      are on the stack. */
  function Combine(st: Stack<string>, ch: char): (r: Result<Stack<string>, Fail>)
    requires st.Valid()
    ensures r.Err? <==> |st.elems| < 2
    ensures r.Err? ==> r.error == Empty
    ensures r.Ok? ==> r.value.Valid() && r.value.capacity == st.capacity
    ensures r.Ok? ==>
              var n := |st.elems|;
              r.value.elems == st.elems[..n - 2] + ["(" + st.elems[n - 2] + [ch] + st.elems[n - 1] + ")"]
  {
    var a :- Top(st);
    var st1 := Pop(st).value;
    var b :- Top(st1);
    var st2 := Pop(st1).value;
    assert st.elems == st2.elems + [b, a];
    Push(st2, "(" + b + [ch] + a + ")")
  }

  /** The body of `_post_to_in` from the current character on: letters and
      digits are pushed as one-character strings, every other character
      (a space included) is applied as a binary operator, and at the end
      only the top value is returned. */
  function ScanPost(rest: string, st: Stack<string>): (r: Result<string, Fail>)
    requires st.Valid()
    ensures |st.elems| + |rest| <= st.capacity && r.Err? ==> r.error == Empty
    decreases |rest|
  {
    if rest == [] then Top(st)
    else
      var ch := rest[0];
      if IsOperand(ch) then
        var st' :- Push(st, [ch]);
        ScanPost(rest[1..], st')
      else
        var st' :- Combine(st, ch);
        ScanPost(rest[1..], st')
  }

  /** `_post_to_in`: the stack's capacity is twice the input length, which
      is never exceeded, so the only possible failure is `Empty`. */
  function TryPostToIn(arg: string): (r: Result<string, Fail>)
    ensures r.Err? ==> r.error == Empty
  {
    ScanPost(arg, New(|arg| * 2))
  }
}
