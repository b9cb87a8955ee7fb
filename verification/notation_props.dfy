/** What the two converters of data-structures/stack/src/lib.rs guarantee
    for every input: which inputs fail, which characters reach the output,
    and in what order the operands come out. */
module NotationProperties {
  import opened Wrappers
  import opened BoundedStack
  import opened Notation
  import opened Sequences

  // ---------------------------------------------------------------------
  // Helpers on strings
  // ---------------------------------------------------------------------

  lemma {:induction false} OperandsAppend(a: string, b: string)
    ensures Operands(a + b) == Operands(a) + Operands(b)
    decreases |a|
  {
    if a != [] {
      assert (a + b)[0] == a[0];
      assert (a + b)[1..] == a[1..] + b;
      OperandsAppend(a[1..], b);
    } else {
      assert a + b == b;
    }
  }

  lemma {:induction false} NoOperands(x: string)
    requires forall c | c in x :: !IsOperand(c)
    ensures Operands(x) == []
    decreases |x|
  {
    if x != [] {
      assert x[0] in x;
      assert forall c | c in x[1..] :: c in x;
      NoOperands(x[1..]);
    }
  }

  /** Moving operators from the stack to the output adds no operand. */
  lemma NoOperandsMoved(e: string, n: nat)
    requires n <= |e| && forall c | c in e :: !IsOperand(c)
    ensures Operands(Reverse(e[n..])) == []
    ensures forall c | c in e[..n] :: !IsOperand(c)
  {
    assert e == e[..n] + e[n..];
    ReverseMultiset(e[n..]);
    assert forall c | c in Reverse(e[n..]) :: c in multiset(e[n..]);
    NoOperands(Reverse(e[n..]));
  }

  /** The characters `_in_to_post` consumes without emitting them: every
      space, every `)`, and one `(` for each `)`. */
  function Dropped(s: string): multiset<char>
    decreases |s|
  {
    if s == [] then multiset{}
    else DroppedBy(s[0]) + Dropped(s[1..])
  }

  function DroppedBy(c: char): multiset<char> {
    if c == ' ' then multiset{' '}
    else if c == ')' then multiset{'(', ')'}
    else multiset{}
  }

  lemma {:induction false} DroppedCounts(s: string)
    ensures Dropped(s)[' '] == multiset(s)[' ']
    ensures Dropped(s)[')'] == multiset(s)[')']
    ensures Dropped(s)['('] == multiset(s)[')']
    ensures forall c | c != ' ' && c != '(' && c != ')' :: Dropped(s)[c] == 0
    decreases |s|
  {
    if s != [] {
      var c, t := s[0], s[1..];
      DroppedCounts(t);
      assert s == [c] + t;
      assert multiset(s) == multiset{c} + multiset(t);
      assert Dropped(s) == DroppedBy(c) + Dropped(t);
      CountsStep(c, Dropped(s), multiset(s), Dropped(t), multiset(t));
    }
  }

  /** The counts of `DroppedCounts` survive putting one more character in
      front. */
  lemma CountsStep(c: char, d: multiset<char>, m: multiset<char>, dt: multiset<char>, mt: multiset<char>)
    requires d == DroppedBy(c) + dt && m == multiset{c} + mt
    requires dt[' '] == mt[' '] && dt[')'] == mt[')'] && dt['('] == mt[')']
    requires forall x | x != ' ' && x != '(' && x != ')' :: dt[x] == 0
    ensures d[' '] == m[' '] && d[')'] == m[')'] && d['('] == m[')']
    ensures forall x | x != ' ' && x != '(' && x != ')' :: d[x] == 0
  {
  }

  // ---------------------------------------------------------------------
  // Infix to postfix
  // ---------------------------------------------------------------------

  /** The stack holds no letter or digit. */
  predicate NoOperandStacked(s: Scan) {
    forall c | c in s.st.elems :: !IsOperand(c)
  }

  /** One step of the infix scan emits the character if it is an operand
      and otherwise moves only operators, so no operand ever sits on the
      stack. */
  lemma StepInOperands(ch: char, s: Scan)
    requires s.st.Valid() && NoOperandStacked(s)
    ensures StepIn(ch, s).Ok? ==>
              && NoOperandStacked(StepIn(ch, s).value)
              && Operands(StepIn(ch, s).value.out) == Operands(s.out) + Operands([ch])
  {
    if StepIn(ch, s).Ok? {
      if IsOperand(ch) {
        OperandsAppend(s.out, [ch]);
        assert StepIn(ch, s).value == Scan(s.st, s.out + [ch]);
      } else if ch == '(' {
        assert StepIn(ch, s).value.out == s.out;
      } else if ch == ')' {
        CloseOperands(s);
      } else if ch != ' ' {
        OperatorOperands(ch, s);
      }
    }
  }

  lemma CloseOperands(s: Scan)
    requires s.st.Valid() && NoOperandStacked(s) && StepIn(')', s).Ok?
    ensures NoOperandStacked(StepIn(')', s).value)
    ensures Operands(StepIn(')', s).value.out) == Operands(s.out)
  {
    var e := s.st.elems;
    var c := CloseParen(s).value;
    var n := |c.st.elems|;
    var t := StepIn(')', s).value;
    assert t == Scan(Pop(c.st).value, c.out);
    NoOperandsMoved(e, n);
    OperandsAppend(s.out, Reverse(e[n..]));
    assert t.st.elems + ['('] == e[..n];
    assert forall x | x in t.st.elems :: x in e[..n];
  }

  lemma OperatorOperands(ch: char, s: Scan)
    requires s.st.Valid() && NoOperandStacked(s)
    requires !IsOperand(ch) && ch != '(' && ch != ')' && ch != ' ' && StepIn(ch, s).Ok?
    ensures NoOperandStacked(StepIn(ch, s).value)
    ensures Operands(StepIn(ch, s).value.out) == Operands(s.out)
  {
    var e := s.st.elems;
    var p := PopWhile(s, Order(ch)).value;
    var n := |p.st.elems|;
    var t := StepIn(ch, s).value;
    assert t.out == p.out && t.st.elems == e[..n] + [ch];
    NoOperandsMoved(e, n);
    OperandsAppend(s.out, Reverse(e[n..]));
  }

  /** Letters and digits go straight to the output, so the output lists the
      operands in their input order. */
  lemma {:induction false} ScanInOperands(rest: string, s: Scan)
    requires s.st.Valid() && NoOperandStacked(s)
    ensures ScanIn(rest, s).Ok? ==>
              Operands(ScanIn(rest, s).value) == Operands(s.out) + Operands(rest)
    decreases |rest|
  {
    if rest == [] {
      NoOperandsMoved(s.st.elems, 0);
      assert s.st.elems[0..] == s.st.elems;
      OperandsAppend(s.out, Reverse(s.st.elems));
    } else {
      var r := StepIn(rest[0], s);
      if r.Ok? {
        StepInOperands(rest[0], s);
        ScanInOperands(rest[1..], r.value);
        assert rest == [rest[0]] + rest[1..];
        OperandsAppend([rest[0]], rest[1..]);
      }
    }
  }

  /** Moving the part of the stack above `n` to the output, in reverse,
      keeps every character. */
  lemma MovedContent(out: string, e: string, n: nat)
    requires n <= |e|
    ensures multiset(out + Reverse(e[n..])) + multiset(e[..n]) == multiset(out) + multiset(e)
  {
    ReverseMultiset(e[n..]);
    assert e == e[..n] + e[n..];
  }

  lemma Regroup<T>(x: multiset<T>, m: multiset<T>, b: multiset<T>, p: multiset<T>, q: multiset<T>)
    requires x + m == b && m == p + q
    ensures x + p + q == b
  {
    forall z ensures (x + p + q)[z] == b[z] {
      assert (x + m)[z] == b[z];
    }
  }

  /** On a `)`, the operators above the matching `(` move to the output
      and the `(` itself is dropped. */
  lemma CloseContent(s: Scan)
    requires s.st.Valid() && CloseParen(s).Ok?
    ensures var c := CloseParen(s).value;
            multiset(c.out) + multiset(Pop(c.st).value.elems) + multiset{'('}
            == multiset(s.out) + multiset(s.st.elems)
  {
    var e := s.st.elems;
    var c := CloseParen(s).value;
    var n := |c.st.elems|;
    var p := Pop(c.st).value.elems;
    MovedContent(s.out, e, n);
    assert p + ['('] == e[..n];
    Regroup(multiset(c.out), multiset(e[..n]), multiset(s.out) + multiset(e), multiset(p), multiset{'('});
  }

  /** Before an operator is pushed, the stack tops it outranks move to the
      output. */
  lemma PopWhileContent(s: Scan, f: int)
    requires s.st.Valid()
    ensures var p := PopWhile(s, f).value;
            multiset(p.out) + multiset(p.st.elems) == multiset(s.out) + multiset(s.st.elems)
  {
    MovedContent(s.out, s.st.elems, |PopWhile(s, f).value.st.elems|);
  }

  /** The characters of a scan state: its output and its stack. */
  function Content(s: Scan): multiset<char> {
    multiset(s.out) + multiset(s.st.elems)
  }

  /** One step of the infix scan moves characters between the input, the
      stack and the output, dropping only what `Dropped` counts. */
  lemma StepInContent(ch: char, s: Scan)
    requires s.st.Valid()
    ensures StepIn(ch, s).Ok? ==> Content(StepIn(ch, s).value) + DroppedBy(ch) == Content(s) + multiset{ch}
  {
    if StepIn(ch, s).Ok? {
      if IsOperand(ch) {
        OperandContent(ch, s);
      } else if ch == '(' {
        OpenContent(s);
      } else if ch == ')' {
        CloseStepContent(s);
      } else if ch != ' ' {
        OperatorContent(ch, s);
      }
    }
  }

  lemma OperandContent(ch: char, s: Scan)
    requires s.st.Valid() && IsOperand(ch)
    ensures StepIn(ch, s).Ok? && Content(StepIn(ch, s).value) + DroppedBy(ch) == Content(s) + multiset{ch}
  {
    var t := StepIn(ch, s).value;
    assert t.st == s.st && t.out == s.out + [ch];
    AddSame(multiset(s.out), multiset{ch}, multiset(s.out + [ch]), multiset(s.st.elems));
    assert DroppedBy(ch) == multiset{};
  }

  lemma OpenContent(s: Scan)
    requires s.st.Valid() && StepIn('(', s).Ok?
    ensures Content(StepIn('(', s).value) + DroppedBy('(') == Content(s) + multiset{'('}
  {
    var t := StepIn('(', s).value;
    assert t.out == s.out && t.st.elems == s.st.elems + ['('];
    assert multiset(t.st.elems) == multiset(s.st.elems) + multiset{'('};
  }

  lemma CloseStepContent(s: Scan)
    requires s.st.Valid() && StepIn(')', s).Ok?
    ensures Content(StepIn(')', s).value) + DroppedBy(')') == Content(s) + multiset{')'}
  {
    var t := StepIn(')', s).value;
    var c := CloseParen(s).value;
    assert t == Scan(Pop(c.st).value, c.out);
    CloseContent(s);
    AddSame(Content(t), multiset{'('}, Content(s), multiset{')'});
    assert DroppedBy(')') == multiset{'('} + multiset{')'};
  }

  lemma OperatorContent(ch: char, s: Scan)
    requires s.st.Valid() && !IsOperand(ch) && ch != '(' && ch != ')' && ch != ' '
    requires StepIn(ch, s).Ok?
    ensures Content(StepIn(ch, s).value) + DroppedBy(ch) == Content(s) + multiset{ch}
  {
    var t := StepIn(ch, s).value;
    var p := PopWhile(s, Order(ch)).value;
    assert t.out == p.out && t.st.elems == p.st.elems + [ch];
    PopWhileContent(s, Order(ch));
    assert multiset(t.st.elems) == multiset(p.st.elems) + multiset{ch};
    assert DroppedBy(ch) == multiset{};
  }

  lemma AddSame<T>(x: multiset<T>, p: multiset<T>, b: multiset<T>, q: multiset<T>)
    requires x + p == b
    ensures x + (p + q) == b + q
  {
    forall z ensures (x + (p + q))[z] == (b + q)[z] {
      assert (x + p)[z] == b[z];
    }
  }

  lemma Shuffle<T>(x: multiset<T>, dt: multiset<T>, a: multiset<T>, mt: multiset<T>,
                   d: multiset<T>, b: multiset<T>, c: multiset<T>)
    requires x + dt == a + mt && a + d == b + c
    ensures x + (d + dt) == b + (c + mt)
  {
    forall z ensures (x + (d + dt))[z] == (b + (c + mt))[z] {
      assert (x + dt)[z] == (a + mt)[z];
      assert (a + d)[z] == (b + c)[z];
    }
  }

  /** Nothing is lost or invented: the output together with the dropped
      characters of the unread input is the output so far, the stack and
      the unread input. */
  lemma {:induction false} ScanInContent(rest: string, s: Scan)
    requires s.st.Valid()
    ensures ScanIn(rest, s).Ok? ==>
              multiset(ScanIn(rest, s).value) + Dropped(rest) == Content(s) + multiset(rest)
    decreases |rest|
  {
    if rest == [] {
      ReverseMultiset(s.st.elems);
      assert ScanIn(rest, s) == Ok(s.out + Reverse(s.st.elems));
      assert multiset(s.out + Reverse(s.st.elems)) == Content(s);
    } else {
      var ch, t := rest[0], rest[1..];
      var r := StepIn(ch, s);
      if r.Ok? {
        assert ScanIn(rest, s) == ScanIn(t, r.value);
        StepInContent(ch, s);
        ScanInContent(t, r.value);
        if ScanIn(t, r.value).Ok? {
          var x := multiset(ScanIn(t, r.value).value);
          var a, b := Content(r.value), Content(s);
          assert x + Dropped(t) == a + multiset(t);
          assert a + DroppedBy(ch) == b + multiset{ch};
          assert Dropped(rest) == DroppedBy(ch) + Dropped(t);
          assert multiset(rest) == multiset{ch} + multiset(t) by {
            assert rest == [ch] + t;
          }
          Shuffle(x, Dropped(t), a, multiset(t), DroppedBy(ch), b, multiset{ch});
        }
      }
    }
  }

  /** The infix alphabet: operands, brackets, spaces and the five
      operators `order` ranks. */
  predicate InInfixAlphabet(c: char) {
    IsOperand(c) || c == '(' || c == ')' || c == ' ' || Order(c) >= 1
  }

  /** Some prefix of `s` closes more brackets than the `d` already open
      plus the ones it opens itself. */
  predicate ExcessClose(s: string, d: int) {
    exists k | 0 <= k <= |s| :: d + multiset(s[..k])['('] < multiset(s[..k])[')']
  }

  function Delta(c: char): int {
    if c == '(' then 1 else if c == ')' then -1 else 0
  }

  lemma ExcessCloseStep(ch: char, t: string, d: int)
    requires d >= 0
    ensures ExcessClose([ch] + t, d) <==> (ch == ')' && d == 0) || ExcessClose(t, d + Delta(ch))
  {
    var s := [ch] + t;
    if ExcessClose(s, d) {
      var k :| 0 <= k <= |s| && d + multiset(s[..k])['('] < multiset(s[..k])[')'];
      assert k != 0;
      assert s[..k] == [ch] + t[..k - 1];
      if !(ch == ')' && d == 0) {
        assert d + Delta(ch) + multiset(t[..k - 1])['('] < multiset(t[..k - 1])[')'];
      }
    }
    if ch == ')' && d == 0 {
      assert s[..1] == [ch];
      assert d + multiset(s[..1])['('] < multiset(s[..1])[')'];
    }
    if ExcessClose(t, d + Delta(ch)) {
      var k :| 0 <= k <= |t| && d + Delta(ch) + multiset(t[..k])['('] < multiset(t[..k])[')'];
      assert s[..k + 1] == [ch] + t[..k];
      assert d + multiset(s[..k + 1])['('] < multiset(s[..k + 1])[')'];
    }
  }

  /** Over the infix alphabet one step fails exactly on a `)` with
      no `(` on the stack, and otherwise changes the number of `(` on the
      stack by `Delta`: the popping loop of an operator stops below any
      `(`, since `(` ranks below every operator. */
  lemma StepInFailure(ch: char, s: Scan)
    requires s.st.Valid() && |s.st.elems| < s.st.capacity
    requires InInfixAlphabet(ch)
    ensures StepIn(ch, s).Err? <==> ch == ')' && multiset(s.st.elems)['('] == 0
    ensures StepIn(ch, s).Ok? ==>
              multiset(StepIn(ch, s).value.st.elems)['('] == multiset(s.st.elems)['('] + Delta(ch)
  {
    if IsOperand(ch) {
      assert StepIn(ch, s).value.st == s.st;
    } else if ch == '(' {
      var t := StepIn(ch, s).value;
      assert t.st.elems == s.st.elems + ['('];
    } else if ch == ')' {
      CloseFailure(s);
    } else if ch != ' ' {
      OperatorFailure(ch, s);
    }
  }

  lemma CloseFailure(s: Scan)
    requires s.st.Valid()
    ensures StepIn(')', s).Err? <==> multiset(s.st.elems)['('] == 0
    ensures StepIn(')', s).Ok? ==>
              multiset(StepIn(')', s).value.st.elems)['('] + 1 == multiset(s.st.elems)['(']
  {
    var e := s.st.elems;
    var r := CloseParen(s);
    if r.Ok? {
      var n := |r.value.st.elems|;
      var t := StepIn(')', s).value;
      assert t.st == Pop(r.value.st).value;
      assert t.st.elems + ['('] == e[..n];
      assert e == t.st.elems + ['('] + e[n..];
    } else {
      assert '(' !in e;
    }
  }

  lemma OperatorFailure(ch: char, s: Scan)
    requires s.st.Valid() && |s.st.elems| < s.st.capacity
    requires Order(ch) >= 1 && !IsOperand(ch) && ch != '(' && ch != ')' && ch != ' '
    ensures StepIn(ch, s).Ok?
    ensures multiset(StepIn(ch, s).value.st.elems)['('] == multiset(s.st.elems)['(']
  {
    var e := s.st.elems;
    var p := PopWhile(s, Order(ch)).value;
    var n := |p.st.elems|;
    NoOpenPopped(e, n, Order(ch));
    assert Push(p.st, ch).Ok?;
    var t := StepIn(ch, s).value;
    assert t.st.elems == e[..n] + [ch];
    assert multiset(t.st.elems) == multiset(e[..n]) + multiset{ch};
  }

  /** The entries an operator pops all have a precedence, so none is `(`. */
  lemma NoOpenPopped(e: seq<char>, n: nat, f: int)
    requires n <= |e| && 1 <= f
    requires forall i | n <= i < |e| :: f <= Order(e[i])
    ensures multiset(e)['('] == multiset(e[..n])['(']
  {
    assert e == e[..n] + e[n..];
    assert multiset(e) == multiset(e[..n]) + multiset(e[n..]);
    forall i | 0 <= i < |e[n..]|
      ensures e[n..][i] != '('
    {
      assert e[n..][i] == e[n + i];
    }
    assert '(' !in e[n..];
  }

  /** Over the infix alphabet the infix scan fails exactly when some
      prefix of the unread input closes more brackets than are open, the
      open ones being the `(` characters on the stack. While the stack and
      the unread input fit the capacity, no push is refused. */
  lemma {:induction false} ScanInFailure(rest: string, s: Scan)
    requires s.st.Valid() && |s.st.elems| + |rest| <= s.st.capacity
    requires forall c | c in rest :: InInfixAlphabet(c)
    ensures ScanIn(rest, s).Err? <==> ExcessClose(rest, multiset(s.st.elems)['('])
    decreases |rest|
  {
    if rest == [] {
      assert rest[..0] == [];
    } else {
      var ch, t := rest[0], rest[1..];
      assert rest == [ch] + t;
      assert forall c | c in t :: c in rest;
      ExcessCloseStep(ch, t, multiset(s.st.elems)['(']);
      StepInFailure(ch, s);
      var r := StepIn(ch, s);
      if r.Ok? {
        ScanInFailure(t, r.value);
      }
    }
  }

  /** `_in_to_post` never reports `Full`; over the infix alphabet it
      fails, with `Empty`, exactly when some prefix of the input holds more
      `)` than `(`. An unmatched `(` is not an error. */
  lemma InToPostFailure(arg: string)
    requires forall c | c in arg :: InInfixAlphabet(c)
    ensures TryInToPost(arg).Err? ==> TryInToPost(arg).error == Empty
    ensures TryInToPost(arg).Err? <==>
              exists k | 0 <= k <= |arg| :: multiset(arg[..k])['('] < multiset(arg[..k])[')']
  {
    ScanInFailure(arg, Scan(New(|arg|), ""));
  }

  /** A successful `_in_to_post` emits the input's letters and digits in
      their original order, never emits a space or a `)`, keeps every
      other character, and keeps one `(` less for each `)`. So an unmatched
      `(` reaches the output. */
  lemma InToPostOutput(arg: string)
    requires TryInToPost(arg).Ok?
    ensures Operands(TryInToPost(arg).value) == Operands(arg)
    ensures ' ' !in TryInToPost(arg).value && ')' !in TryInToPost(arg).value
    ensures multiset(TryInToPost(arg).value)['('] + multiset(arg)[')'] == multiset(arg)['(']
    ensures forall c | c != ' ' && c != '(' && c != ')' ::
              multiset(TryInToPost(arg).value)[c] == multiset(arg)[c]
  {
    var s := Scan(New(|arg|), "");
    ScanInOperands(arg, s);
    ScanInContent(arg, s);
    DroppedCounts(arg);
    var r := TryInToPost(arg).value;
    assert multiset(r) + Dropped(arg) == multiset(arg);
    assert multiset(r)[' '] == 0;
    assert multiset(r)[')'] == 0;
  }

  // ---------------------------------------------------------------------
  // Postfix to infix
  // ---------------------------------------------------------------------

  /** How many values the postfix scan of `p` adds to the stack when it
      does not fail: one per operand, minus one per operator. */
  function Height(p: string): int {
    2 * |Operands(p)| - |p|
  }

  lemma HeightCons(ch: char, x: string)
    ensures Height([ch] + x) == (if IsOperand(ch) then 1 else -1) + Height(x)
  {
    assert ([ch] + x)[1..] == x;
  }

  /** Starting with `h` values on the stack, the scan of `s` runs short:
      the input ends with nothing on the stack, or some operator finds
      fewer than two values. */
  predicate Starved(s: string, h: int) {
    || (s == [] && h == 0)
    || exists k | 0 <= k < |s| :: !IsOperand(s[k]) && h + Height(s[..k]) < 2
  }

  lemma StarvedStep(ch: char, t: string, h: int)
    requires h >= 0
    ensures Starved([ch] + t, h) <==>
              if IsOperand(ch) then Starved(t, h + 1) else h < 2 || Starved(t, h - 1)
  {
    if Starved([ch] + t, h) {
      StarvedStepDown(ch, t, h);
    }
    if (IsOperand(ch) && Starved(t, h + 1)) || (!IsOperand(ch) && (h < 2 || Starved(t, h - 1))) {
      StarvedStepUp(ch, t, h);
    }
  }

  /** An operator that runs short in `[ch] + t` is `ch` itself or one of `t`. */
  lemma StarvedStepDown(ch: char, t: string, h: int)
    requires h >= 0 && Starved([ch] + t, h)
    ensures if IsOperand(ch) then Starved(t, h + 1) else h < 2 || Starved(t, h - 1)
  {
    var s := [ch] + t;
    var k :| 0 <= k < |s| && !IsOperand(s[k]) && h + Height(s[..k]) < 2;
    if k > 0 {
      StarvedTail(ch, t, h, k - 1);
    } else {
      assert s[..0] == [];
    }
  }

  /** A witness after `ch` in `[ch] + t` is one in `t`. */
  lemma StarvedTail(ch: char, t: string, h: int, k: nat)
    requires k < |t|
    requires !IsOperand(([ch] + t)[k + 1]) && h + Height(([ch] + t)[..k + 1]) < 2
    ensures Starved(t, if IsOperand(ch) then h + 1 else h - 1)
  {
    StarvedLater(ch, t, h, k);
  }

  /** ... and each of those runs short in `[ch] + t`. */
  lemma StarvedStepUp(ch: char, t: string, h: int)
    requires h >= 0
    requires if IsOperand(ch) then Starved(t, h + 1) else h < 2 || Starved(t, h - 1)
    ensures Starved([ch] + t, h)
  {
    var s := [ch] + t;
    var h' := if IsOperand(ch) then h + 1 else h - 1;
    if !IsOperand(ch) && h < 2 {
      assert s[..0] == [];
      assert !IsOperand(s[0]) && h + Height(s[..0]) < 2;
    } else if t == [] {
      assert false;
    } else {
      var k :| 0 <= k < |t| && !IsOperand(t[k]) && h' + Height(t[..k]) < 2;
      StarvedLater(ch, t, h, k);
    }
  }

  /** An operator at position `k` of `t` is position `k + 1` of `[ch] + t`. */
  lemma StarvedLater(ch: char, t: string, h: int, k: nat)
    requires k < |t|
    ensures ([ch] + t)[k + 1] == t[k]
    ensures h + Height(([ch] + t)[..k + 1]) == (if IsOperand(ch) then h + 1 else h - 1) + Height(t[..k])
  {
    assert ([ch] + t)[..k + 1] == [ch] + t[..k];
    HeightCons(ch, t[..k]);
  }

  /** The postfix scan fails exactly when it runs short of values, and
      then with `Empty`. */
  lemma {:induction false} ScanPostFailure(rest: string, st: Stack<string>)
    requires st.Valid() && |st.elems| + |rest| <= st.capacity
    ensures ScanPost(rest, st).Err? <==> Starved(rest, |st.elems|)
    decreases |rest|
  {
    if rest != [] {
      var ch, t := rest[0], rest[1..];
      assert rest == [ch] + t;
      StarvedStep(ch, t, |st.elems|);
      if IsOperand(ch) {
        ScanPostFailure(t, Push(st, [ch]).value);
      } else if |st.elems| >= 2 {
        ScanPostFailure(t, Combine(st, ch).value);
      }
    }
  }

  /** `_post_to_in` never reports `Full`; it fails, with `Empty`, exactly
      when the input is empty or some operator (any character that is not a
      letter or digit, a space included) comes after fewer than two
      pending values. */
  lemma PostToInFailure(arg: string)
    ensures TryPostToIn(arg).Err? ==> TryPostToIn(arg).error == Empty
    ensures TryPostToIn(arg).Err? <==>
              || arg == []
              || exists k | 0 <= k < |arg| :: !IsOperand(arg[k]) && Height(arg[..k]) < 2
  {
    ScanPostFailure(arg, New(|arg| * 2));
  }

  // ---------------------------------------------------------------------
  // The public wrappers
  // ---------------------------------------------------------------------

  /** `in_to_post`: `_in_to_post` with the failure turned into a panic,
      which is the precondition here. */
  function InToPost(arg: string): (r: string)
    requires TryInToPost(arg).Ok?
    ensures Operands(r) == Operands(arg)
    ensures ' ' !in r && ')' !in r
  {
    InToPostOutput(arg);
    TryInToPost(arg).value
  }

  /** Every value the postfix scan stacks is a non-empty string, so its
      result is one too. */
  lemma {:induction false} ScanPostNonEmpty(rest: string, st: Stack<string>)
    requires st.Valid() && forall x | x in st.elems :: |x| > 0
    ensures ScanPost(rest, st).Ok? ==> |ScanPost(rest, st).value| > 0
    decreases |rest|
  {
    if rest == [] {
      if st.elems != [] {
        assert Last(st.elems) in st.elems;
      }
    } else {
      var ch, t := rest[0], rest[1..];
      if IsOperand(ch) {
        var p := Push(st, [ch]);
        if p.Ok? {
          assert forall x | x in p.value.elems :: x in st.elems || x == [ch];
          ScanPostNonEmpty(t, p.value);
        }
      } else {
        var p := Combine(st, ch);
        if p.Ok? {
          var n := |st.elems|;
          assert forall x | x in p.value.elems :: x in st.elems[..n - 2] || |x| > 0;
          assert forall x | x in st.elems[..n - 2] :: x in st.elems;
          ScanPostNonEmpty(t, p.value);
        }
      }
    }
  }

  /** `post_to_in`: `_post_to_in` with the failure turned into a panic,
      which is the precondition here. */
  function PostToIn(arg: string): (r: string)
    requires TryPostToIn(arg).Ok?
    ensures |r| > 0
  {
    ScanPostNonEmpty(arg, New(|arg| * 2));
    TryPostToIn(arg).value
  }
}

