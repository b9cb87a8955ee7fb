/** The Caesar and Vigenère ciphers of cryptography/src/lib.rs.
    The Rust functions walk the bytes of an ASCII `&str`; an ASCII string
    has one byte per character, so the model works on `string` directly and
    reads each character's code as the byte. Letters are rotated within
    their own case; every other byte is written back unchanged. */
module Cipher {
  import opened Wrappers

  predicate IsAscii(s: string) {
    forall i | 0 <= i < |s| :: s[i] as int < 128
  }

  predicate IsUpper(c: char) {
    'A' <= c <= 'Z'
  }

  predicate IsLower(c: char) {
    'a' <= c <= 'z'
  }

  predicate IsLetter(c: char) {
    IsUpper(c) || IsLower(c)
  }

  /** The meaning of one cipher step: `d` is `c` rotated forward by `k`
      places within `c`'s own alphabet, or `c` itself when `c` is not a
      letter. */
  predicate Rotated(c: char, d: char, k: int) {
    if IsUpper(c) then IsUpper(d) && (d as int - 'A' as int) == (c as int - 'A' as int + k) % 26
    else if IsLower(c) then IsLower(d) && (d as int - 'a' as int) == (c as int - 'a' as int + k) % 26
    else d == c
  }

  /** The encrypting byte step shared by `vigenere_encrypt` and
      `caesar_encrypt`: add the shift, wrap a letter that overshoots its
      alphabet back by 26, and subtract the shift again from anything else. */
  function ShiftUp(ch: char, k: int): (r: char)
    requires 0 <= k < 26 && ch as int < 128
    ensures Rotated(ch, r, k) && r as int < 128
  {
    var v := ch as int + k;
    if IsUpper(ch) then (if v > 'Z' as int then v - 26 else v) as char
    else if IsLower(ch) then (if v > 'z' as int then v - 26 else v) as char
    else (v - k) as char
  }

  /** The decrypting byte step shared by `vigenere_decrypt` and
      `caesar_decrypt`: subtract the shift, wrap a letter that falls below
      its alphabet forward by 26, and add the shift back to anything else.
      For a non-letter byte below the shift the `u8` subtraction wraps
      around and the addition wraps back, which the unbounded arithmetic
      here gives directly. */
  function ShiftDown(ch: char, k: int): (r: char)
    requires 0 <= k < 26 && ch as int < 128
    ensures Rotated(r, ch, k) && r as int < 128
  {
    var v := ch as int - k;
    if IsUpper(ch) then (if v < 'A' as int then v + 26 else v) as char
    else if IsLower(ch) then (if v < 'a' as int then v + 26 else v) as char
    else (v + k) as char
  }

  /** Each step undoes the other, and neither changes whether a byte is a
      letter, so the key position advances alike in both directions. */
  lemma ShiftInverse(ch: char, k: int)
    requires 0 <= k < 26 && ch as int < 128
    ensures ShiftDown(ShiftUp(ch, k), k) == ch
    ensures ShiftUp(ShiftDown(ch, k), k) == ch
    ensures IsLetter(ShiftUp(ch, k)) <==> IsLetter(ch)
    ensures IsLetter(ShiftDown(ch, k)) <==> IsLetter(ch)
  {
  }

  /** One key character as `_vigenere_aux` converts it: upper-cased, a
      letter becomes its place in the alphabet and anything else 0. */
  function KeyShift(c: char): (r: int)
    ensures 0 <= r < 26
    ensures IsUpper(c) ==> r == c as int - 'A' as int
    ensures IsLower(c) ==> r == c as int - 'a' as int
    ensures !IsLetter(c) ==> r == 0
  {
    var u := if IsLower(c) then (c as int - 32) as char else c;
    if IsUpper(u) then u as int - 'A' as int else 0
  }

  /** `_vigenere_aux`: `None` when the key or the text is not ASCII;
      otherwise the key's shifts, one per key character. */
  function VigenereAux(key: string, text: string): (r: Option<seq<int>>)
    ensures r.None? <==> !IsAscii(key) || !IsAscii(text)
    ensures r.Some? ==> |r.value| == |key|
    ensures r.Some? ==> forall i | 0 <= i < |key| :: r.value[i] == KeyShift(key[i])
  {
    if !IsAscii(key) || !IsAscii(text) then None
    else Some(seq(|key|, i requires 0 <= i < |key| => KeyShift(key[i])))
  }

  /** The number of letters in `s`: how far the key has advanced after
      `s` has been processed. */
  function Letters(s: string): nat {
    if s == [] then 0 else (if IsLetter(s[0]) then 1 else 0) + Letters(s[1..])
  }

  lemma {:induction false} LettersSnoc(s: string, c: char)
    ensures Letters(s + [c]) == Letters(s) + (if IsLetter(c) then 1 else 0)
    decreases |s|
  {
    if s == [] {
      assert [] + [c] == [c];
    } else {
      assert (s + [c])[0] == s[0];
      assert (s + [c])[1..] == s[1..] + [c];
      LettersSnoc(s[1..], c);
    }
  }

  predicate ValidShifts(shifts: seq<int>) {
    |shifts| > 0 && forall i | 0 <= i < |shifts| :: 0 <= shifts[i] < 26
  }

  /** The loop of `vigenere_encrypt` from key position `j`: the position
      wraps to 0 when it reaches the key's length and moves on only after
      a letter. */
  function EncodeFrom(text: string, shifts: seq<int>, j: nat): (r: string)
    requires ValidShifts(shifts) && j <= |shifts| && IsAscii(text)
    ensures |r| == |text| && IsAscii(r)
    decreases |text|
  {
    if text == [] then []
    else
      var j := if j == |shifts| then 0 else j;
      [ShiftUp(text[0], shifts[j])] + EncodeFrom(text[1..], shifts, if IsLetter(text[0]) then j + 1 else j)
  }

  /** The loop of `vigenere_decrypt` from key position `j`. */
  function DecodeFrom(text: string, shifts: seq<int>, j: nat): (r: string)
    requires ValidShifts(shifts) && j <= |shifts| && IsAscii(text)
    ensures |r| == |text| && IsAscii(r)
    decreases |text|
  {
    if text == [] then []
    else
      var j := if j == |shifts| then 0 else j;
      [ShiftDown(text[0], shifts[j])] + DecodeFrom(text[1..], shifts, if IsLetter(text[0]) then j + 1 else j)
  }

  /** The key position the loop reaches at byte `i`: `j` advanced by the
      letters before byte `i`, cycling through the key. */
  function KeyAt(text: string, n: nat, j: nat, i: nat): (k: nat)
    requires 0 < n && i <= |text|
    ensures k < n
  {
    (j + Letters(text[..i])) % n
  }

  /** Moving on by one byte: the position the rest of the text starts from
      gives the same positions as the whole text one byte later. */
  lemma {:induction false} KeyAtTail(text: string, n: nat, j: nat, i: nat)
    requires 0 < n && j <= n && 0 < i <= |text|
    ensures KeyAt(text, n, j, 0) == (if j == n then 0 else j)
    ensures KeyAt(text, n, j, i)
      == KeyAt(text[1..], n, (if j == n then 0 else j) + (if IsLetter(text[0]) then 1 else 0), i - 1)
  {
    KeyAtStart(text, n, j);
    var b := if IsLetter(text[0]) then 1 else 0;
    var l := Letters(text[1..][..i - 1]);
    LettersCons(text, i);
    if j == n {
      ModWrap(n, b + l);
    }
  }

  /** Before the first byte the position is `j`, wrapped at the key's length. */
  lemma KeyAtStart(text: string, n: nat, j: nat)
    requires 0 < n && j <= n
    ensures KeyAt(text, n, j, 0) == (if j == n then 0 else j)
  {
    assert text[..0] == [];
    if j == n {
      ModWrap(n, 0);
    }
  }

  /** The letters of a nonempty prefix: the first byte's, then the rest's. */
  lemma LettersCons(text: string, i: nat)
    requires 0 < i <= |text|
    ensures Letters(text[..i]) == (if IsLetter(text[0]) then 1 else 0) + Letters(text[1..][..i - 1])
  {
    var p := text[..i];
    assert p[0] == text[0];
    assert p[1..] == text[1..][..i - 1];
  }

  lemma ModWrap(n: nat, x: nat)
    requires 0 < n
    ensures (n + x) % n == x % n
  {
    var q := x / n;
    var r := x % n;
    assert x == q * n + r;
    assert n + x == (q + 1) * n + r;
    ModUnique(n + x, n, q + 1, r);
  }

  /** Division with remainder is unique. */
  lemma ModUnique(a: int, n: int, q: int, r: int)
    requires 0 < n && a == q * n + r && 0 <= r < n
    ensures a % n == r
  {
    var q' := a / n;
    var r' := a % n;
    assert a == q' * n + r';
    var d := q - q';
    assert d * n == q * n - q' * n;
    assert d * n == r' - r;
    if d > 0 {
      AtLeast(d, n);
    }
    if d < 0 {
      AtLeast(-d, n);
    }
  }

  lemma AtLeast(k: int, n: int)
    requires k >= 1 && n > 0
    ensures k * n >= n
  {
    assert k * n == (k - 1) * n + n;
  }

  /** Byte `i` of the encryption is byte `i` of the text rotated by the
      shift at the key position the loop has reached. */
  lemma {:induction false} EncodeAt(text: string, shifts: seq<int>, j: nat, i: nat)
    requires ValidShifts(shifts) && j <= |shifts| && IsAscii(text) && i < |text|
    ensures Rotated(text[i], EncodeFrom(text, shifts, j)[i], shifts[KeyAt(text, |shifts|, j, i)])
    decreases i
  {
    var n := |shifts|;
    var j0 := if j == n then 0 else j;
    var j1 := if IsLetter(text[0]) then j0 + 1 else j0;
    var r := EncodeFrom(text, shifts, j);
    KeyAtTail(text, n, j, i + 1);
    if i == 0 {
      assert r[0] == ShiftUp(text[0], shifts[j0]);
    } else {
      KeyAtTail(text, n, j, i);
      assert r[i] == EncodeFrom(text[1..], shifts, j1)[i - 1];
      assert text[1..][i - 1] == text[i];
      EncodeAt(text[1..], shifts, j1, i - 1);
    }
  }

  /** Byte `i` of the decryption rotated by the shift at the key position
      the loop has reached gives byte `i` of the text. */
  lemma {:induction false} DecodeAt(text: string, shifts: seq<int>, j: nat, i: nat)
    requires ValidShifts(shifts) && j <= |shifts| && IsAscii(text) && i < |text|
    ensures Rotated(DecodeFrom(text, shifts, j)[i], text[i], shifts[KeyAt(text, |shifts|, j, i)])
    decreases i
  {
    var n := |shifts|;
    var j0 := if j == n then 0 else j;
    var j1 := if IsLetter(text[0]) then j0 + 1 else j0;
    var r := DecodeFrom(text, shifts, j);
    KeyAtTail(text, n, j, i + 1);
    if i == 0 {
      assert r[0] == ShiftDown(text[0], shifts[j0]);
    } else {
      KeyAtTail(text, n, j, i);
      assert r[i] == DecodeFrom(text[1..], shifts, j1)[i - 1];
      assert text[1..][i - 1] == text[i];
      DecodeAt(text[1..], shifts, j1, i - 1);
    }
  }

  lemma EncodeAll(text: string, shifts: seq<int>)
    requires ValidShifts(shifts) && IsAscii(text)
    ensures forall i | 0 <= i < |text| ::
      Rotated(text[i], EncodeFrom(text, shifts, 0)[i], shifts[KeyAt(text, |shifts|, 0, i)])
  {
    forall i | 0 <= i < |text|
      ensures Rotated(text[i], EncodeFrom(text, shifts, 0)[i], shifts[KeyAt(text, |shifts|, 0, i)])
    {
      EncodeAt(text, shifts, 0, i);
    }
  }

  lemma DecodeAll(text: string, shifts: seq<int>)
    requires ValidShifts(shifts) && IsAscii(text)
    ensures forall i | 0 <= i < |text| ::
      Rotated(DecodeFrom(text, shifts, 0)[i], text[i], shifts[KeyAt(text, |shifts|, 0, i)])
  {
    forall i | 0 <= i < |text|
      ensures Rotated(DecodeFrom(text, shifts, 0)[i], text[i], shifts[KeyAt(text, |shifts|, 0, i)])
    {
      DecodeAt(text, shifts, 0, i);
    }
  }

  /** Decoding from the same key position undoes encoding. */
  lemma {:induction false} DecodeEncode(text: string, shifts: seq<int>, j: nat)
    requires ValidShifts(shifts) && j <= |shifts| && IsAscii(text)
    ensures DecodeFrom(EncodeFrom(text, shifts, j), shifts, j) == text
    decreases |text|
  {
    if text != [] {
      var j' := if j == |shifts| then 0 else j;
      var e := EncodeFrom(text, shifts, j);
      ShiftInverse(text[0], shifts[j']);
      assert e[1..] == EncodeFrom(text[1..], shifts, if IsLetter(text[0]) then j' + 1 else j');
      DecodeEncode(text[1..], shifts, if IsLetter(text[0]) then j' + 1 else j');
    }
  }

  /** `vigenere_encrypt`: `None` exactly when the key or the text is not
      ASCII; otherwise byte `i` is rotated by the key character that the
      letters before it have advanced to, cycling through the key. An empty
      key with non-empty ASCII text indexes past the key and panics, which
      the precondition excludes. */
  function VigenereEncrypt(text: string, key: string): (r: Option<string>)
    requires key == [] && IsAscii(text) ==> text == []
    ensures r.None? <==> !IsAscii(key) || !IsAscii(text)
    ensures r.Some? ==> |r.value| == |text| && IsAscii(r.value)
    ensures r.Some? && key != [] ==> forall i | 0 <= i < |text| ::
      Rotated(text[i], r.value[i], KeyShift(key[KeyAt(text, |key|, 0, i)]))
  {
    var shifts :- VigenereAux(key, text);
    if text == [] then Some([])
    else
      EncodeAll(text, shifts);
      Some(EncodeFrom(text, shifts, 0))
  }

  /** `vigenere_decrypt`: the same walk through the key, rotating each
      letter backwards. */
  function VigenereDecrypt(text: string, key: string): (r: Option<string>)
    requires key == [] && IsAscii(text) ==> text == []
    ensures r.None? <==> !IsAscii(key) || !IsAscii(text)
    ensures r.Some? ==> |r.value| == |text| && IsAscii(r.value)
    ensures r.Some? && key != [] ==> forall i | 0 <= i < |text| ::
      Rotated(r.value[i], text[i], KeyShift(key[KeyAt(text, |key|, 0, i)]))
  {
    var shifts :- VigenereAux(key, text);
    if text == [] then Some([])
    else
      DecodeAll(text, shifts);
      Some(DecodeFrom(text, shifts, 0))
  }

  /** Decrypting with the key used to encrypt gives back the text. */
  lemma VigenereRoundTrip(text: string, key: string)
    requires key == [] && IsAscii(text) ==> text == []
    requires IsAscii(key) && IsAscii(text)
    ensures VigenereEncrypt(text, key).Some?
    ensures VigenereDecrypt(VigenereEncrypt(text, key).value, key) == Some(text)
  {
    if text != [] {
      var shifts := VigenereAux(key, text).value;
      var e := EncodeFrom(text, shifts, 0);
      assert VigenereAux(key, e) == Some(shifts);
      DecodeEncode(text, shifts, 0);
    }
  }

  /** `caesar_encrypt`: `None` exactly when the text is not ASCII or the
      key exceeds 25; otherwise every byte is rotated by the key. */
  function CaesarEncrypt(text: string, key: nat): (r: Option<string>)
    requires key < 256
    ensures r.None? <==> !IsAscii(text) || key > 25
    ensures r.Some? ==> |r.value| == |text| && IsAscii(r.value)
    ensures r.Some? ==> forall i | 0 <= i < |text| :: Rotated(text[i], r.value[i], key)
  {
    if !IsAscii(text) || key > 25 then None
    else Some(seq(|text|, i requires 0 <= i < |text| => ShiftUp(text[i], key)))
  }

  /** `caesar_decrypt`: `None` in the same cases; otherwise every byte is
      rotated back by the key. */
  function CaesarDecrypt(text: string, key: nat): (r: Option<string>)
    requires key < 256
    ensures r.None? <==> !IsAscii(text) || key > 25
    ensures r.Some? ==> |r.value| == |text| && IsAscii(r.value)
    ensures r.Some? ==> forall i | 0 <= i < |text| :: Rotated(r.value[i], text[i], key)
  {
    if !IsAscii(text) || key > 25 then None
    else Some(seq(|text|, i requires 0 <= i < |text| => ShiftDown(text[i], key)))
  }

  /** Decrypting with the key used to encrypt gives back the text. */
  lemma CaesarRoundTrip(text: string, key: nat)
    requires key <= 25 && IsAscii(text)
    ensures CaesarEncrypt(text, key).Some?
    ensures CaesarDecrypt(CaesarEncrypt(text, key).value, key) == Some(text)
  {
    var e := CaesarEncrypt(text, key).value;
    var d := CaesarDecrypt(e, key).value;
    forall i | 0 <= i < |text|
      ensures d[i] == text[i]
    {
      ShiftInverse(text[i], key);
    }
    assert d == text;
  }

  /** Rust's overflow check in a debug build: a `u8` subtraction below zero
      panics. */
  datatype Panic = Overflow

  /** `caesar_decrypt` as a debug build runs it: the byte step computes
      `ch - key` on `u8` before looking at the byte, so a non-letter byte
      whose code is below the key panics instead of passing through. */
  function CaesarDecryptDebug(text: string, key: nat): (r: Result<Option<string>, Panic>)
    requires key < 256
    ensures r.Err? <==> IsAscii(text) && key <= 25 && exists i | 0 <= i < |text| :: text[i] as int < key
    ensures r.Ok? ==> r.value == CaesarDecrypt(text, key)
  {
    if !IsAscii(text) || key > 25 then Ok(None)
    else if exists i | 0 <= i < |text| :: text[i] as int < key then Err(Overflow)
    else Ok(CaesarDecrypt(text, key))
  }

  /** The round trip fails in a debug build: the NUL byte passes through
      encryption with key 1 unchanged, and decrypting it then panics. */
  lemma DecryptUnderflow()
    ensures CaesarEncrypt("\0", 1) == Some("\0")
    ensures CaesarDecryptDebug("\0", 1) == Err(Overflow)
    ensures CaesarDecrypt("\0", 1) == Some("\0")
  {
    var e := CaesarEncrypt("\0", 1).value;
    assert e[0] == '\0';
    assert e == "\0";
    var d := CaesarDecrypt("\0", 1).value;
    assert d[0] == '\0';
    assert d == "\0";
    assert ("\0")[0] as int < 1;
  }

  /** A candidate ciphertext is the Caesar encryption as soon as each byte
      is the text's byte rotated by the key. */
  lemma CaesarMatches(t: string, key: nat, x: string)
    requires key <= 25 && IsAscii(t) && |x| == |t|
    requires forall i | 0 <= i < |t| :: Rotated(t[i], x[i], key)
    ensures CaesarEncrypt(t, key) == Some(x)
  {
    var r := CaesarEncrypt(t, key).value;
    forall i | 0 <= i < |t|
      ensures r[i] == x[i]
    {
      RotatedUnique(t[i], r[i], x[i], key);
    }
    assert r == x;
  }

  lemma CaesarRotations(t: string, x: string)
    requires t == "abc ABC, xyz XYZ 01" && x == "bcd BCD, yza YZA 01"
    ensures IsAscii(t) && |x| == |t|
    ensures forall i | 0 <= i < |t| :: Rotated(t[i], x[i], 1)
  {
  }

  /** The `caesar_cypher` test. */
  lemma CaesarScenario()
    ensures CaesarEncrypt("abc ABC, xyz XYZ 01", 1) == Some("bcd BCD, yza YZA 01")
    ensures CaesarDecrypt("bcd BCD, yza YZA 01", 1) == Some("abc ABC, xyz XYZ 01")
  {
    CaesarRotations("abc ABC, xyz XYZ 01", "bcd BCD, yza YZA 01");
    CaesarMatches("abc ABC, xyz XYZ 01", 1, "bcd BCD, yza YZA 01");
    CaesarRoundTrip("abc ABC, xyz XYZ 01", 1);
  }

  /** A letter's rotation is determined by the letter and the shift. */
  lemma RotatedUnique(c: char, d: char, d': char, k: int)
    requires Rotated(c, d, k) && Rotated(c, d', k)
    ensures d == d'
  {
  }

  /** The key position the loop holds after the whole of `text`, before
      the wrap-around check of the next byte. */
  function EndPos(text: string, n: nat, j: nat): (e: nat)
    requires 0 < n && j <= n
    ensures e <= n
    decreases |text|
  {
    if text == [] then j
    else
      var j := if j == n then 0 else j;
      EndPos(text[1..], n, if IsLetter(text[0]) then j + 1 else j)
  }

  /** The final key position is the start advanced by the text's letters,
      cycling through the key. */
  lemma {:induction false} EndPosLetters(text: string, n: nat, j: nat)
    requires 0 < n && j <= n
    ensures EndPos(text, n, j) % n == (j + Letters(text)) % n
    decreases |text|
  {
    if text != [] {
      var j0 := if j == n then 0 else j;
      var b := if IsLetter(text[0]) then 1 else 0;
      EndPosLetters(text[1..], n, j0 + b);
      if j == n {
        ModWrap(n, b + Letters(text[1..]));
      }
    }
  }

  /** Encrypting a concatenation encrypts the second part from the key
      position the first part leaves. */
  lemma {:induction false} EncodeSplit(a: string, b: string, shifts: seq<int>, j: nat)
    requires ValidShifts(shifts) && j <= |shifts| && IsAscii(a) && IsAscii(b) && IsAscii(a + b)
    ensures EncodeFrom(a + b, shifts, j) == EncodeFrom(a, shifts, j) + EncodeFrom(b, shifts, EndPos(a, |shifts|, j))
    decreases |a|
  {
    if a == [] {
      assert a + b == b;
    } else {
      var j0 := if j == |shifts| then 0 else j;
      var j1 := if IsLetter(a[0]) then j0 + 1 else j0;
      EncodeSplitStep(a, b, shifts, j);
      EncodeSplit(a[1..], b, shifts, j1);
      var x := [ShiftUp(a[0], shifts[j0])];
      var p, q := EncodeFrom(a[1..], shifts, j1), EncodeFrom(b, shifts, EndPos(a[1..], |shifts|, j1));
      AppendAssoc(x, p, q);
    }
  }

  lemma AppendAssoc(x: string, p: string, q: string)
    ensures x + (p + q) == (x + p) + q
  {
  }

  /** Both sides of `EncodeSplit` for a nonempty first part, one byte in. */
  lemma EncodeSplitStep(a: string, b: string, shifts: seq<int>, j: nat)
    requires ValidShifts(shifts) && j <= |shifts| && IsAscii(a) && IsAscii(b) && IsAscii(a + b) && a != []
    ensures var j0 := if j == |shifts| then 0 else j;
      var j1 := if IsLetter(a[0]) then j0 + 1 else j0;
      var x := ShiftUp(a[0], shifts[j0]);
      && EncodeFrom(a + b, shifts, j) == [x] + EncodeFrom(a[1..] + b, shifts, j1)
      && EncodeFrom(a, shifts, j) == [x] + EncodeFrom(a[1..], shifts, j1)
      && EndPos(a, |shifts|, j) == EndPos(a[1..], |shifts|, j1)
  {
    assert (a + b)[0] == a[0];
    assert (a + b)[1..] == a[1..] + b;
  }

  /** Encrypting a concatenation whose first part uses the key a whole
      number of times encrypts the second part from the key's start. */
  lemma EncodeAppend(a: string, b: string, shifts: seq<int>)
    requires ValidShifts(shifts) && IsAscii(a) && IsAscii(b) && IsAscii(a + b)
    requires Letters(a) % |shifts| == 0
    ensures EncodeFrom(a + b, shifts, 0) == EncodeFrom(a, shifts, 0) + EncodeFrom(b, shifts, 0)
  {
    var n := |shifts|;
    EncodeSplit(a, b, shifts, 0);
    EndPosLetters(a, n, 0);
    var e := EndPos(a, n, 0);
    if e != 0 {
      if e < n {
        ModUnique(e, n, 0, e);
      }
      if b != [] {
        assert EncodeFrom(b, shifts, n) == EncodeFrom(b, shifts, 0);
      }
    }
  }

  lemma AsciiAppend(a: string, b: string)
    requires IsAscii(a) && IsAscii(b)
    ensures IsAscii(a + b)
  {
    forall i | 0 <= i < |a + b|
      ensures (a + b)[i] as int < 128
    {
      if i >= |a| {
        assert (a + b)[i] == b[i - |a|];
      }
    }
  }

  /** Once the letters of `a` have used the key a whole number of times,
      the key starts afresh: `b` is encrypted as if on its own. */
  lemma VigenereAppend(a: string, b: string, key: string)
    requires key != [] && IsAscii(key) && IsAscii(a) && IsAscii(b)
    requires Letters(a) % |key| == 0
    ensures IsAscii(a + b)
    ensures VigenereEncrypt(a + b, key)
      == Some(VigenereEncrypt(a, key).value + VigenereEncrypt(b, key).value)
  {
    AsciiAppend(a, b);
    var shifts := VigenereAux(key, a).value;
    assert VigenereAux(key, b) == Some(shifts);
    assert VigenereAux(key, a + b) == Some(shifts);
    if a == [] {
      assert a + b == b;
      var rb := VigenereEncrypt(b, key).value;
      assert VigenereEncrypt(a, key) == Some([]);
      assert [] + rb == rb;
    } else if b == [] {
      assert a + b == a;
      var ra := VigenereEncrypt(a, key).value;
      assert VigenereEncrypt(b, key) == Some([]);
      assert ra + [] == ra;
    } else {
      EncodeAppend(a, b, shifts);
      var ra, rb := EncodeFrom(a, shifts, 0), EncodeFrom(b, shifts, 0);
      assert VigenereEncrypt(a, key) == Some(ra);
      assert VigenereEncrypt(b, key) == Some(rb);
      assert VigenereEncrypt(a + b, key) == Some(ra + rb);
    }
  }

  /** A table of running letter counts gives the letters before each byte. */
  lemma {:induction false} RunningCounts(t: string, counts: seq<nat>, i: nat)
    requires i <= |t| < |counts| && counts[0] == 0
    requires forall k | 0 < k <= |t| :: counts[k] == counts[k - 1] + (if IsLetter(t[k - 1]) then 1 else 0)
    ensures Letters(t[..i]) == counts[i]
    decreases i
  {
    if i == 0 {
      assert t[..0] == [];
    } else {
      RunningCounts(t, counts, i - 1);
      assert t[..i] == t[..i - 1] + [t[i - 1]];
      LettersSnoc(t[..i - 1], t[i - 1]);
    }
  }

  /** A candidate ciphertext is the encryption as soon as each byte is the
      text's byte rotated by the key character its letter count selects. */
  lemma EncryptMatches(t: string, key: string, x: string, counts: seq<nat>)
    requires key != [] && IsAscii(key) && IsAscii(t) && |x| == |t| < |counts| && counts[0] == 0
    requires forall k | 0 < k <= |t| :: counts[k] == counts[k - 1] + (if IsLetter(t[k - 1]) then 1 else 0)
    requires forall i | 0 <= i < |t| :: Rotated(t[i], x[i], KeyShift(key[counts[i] % |key|]))
    ensures VigenereEncrypt(t, key) == Some(x)
    ensures Letters(t) == counts[|t|]
  {
    var r := VigenereEncrypt(t, key).value;
    forall i | 0 <= i < |t|
      ensures r[i] == x[i]
    {
      RunningCounts(t, counts, i);
      RotatedUnique(t[i], r[i], x[i], KeyShift(key[counts[i] % |key|]));
    }
    assert r == x;
    RunningCounts(t, counts, |t|);
    assert t[..|t|] == t;
  }

  /** The number of letters before each byte of either half of the test
      text, and the shifts of the test key. */
  const VigenereCounts: seq<nat> := [0, 1, 2, 3, 3, 4, 5, 6, 6, 6, 6]
  const CipherShifts: seq<int> := [2, 8, 15, 7, 4, 17]

  lemma CipherKey()
    ensures forall m | 0 <= m < 6 :: KeyShift("cipher"[m]) == CipherShifts[m]
  {
  }

  lemma FirstHalfRotations(t: string, x: string)
    requires t == "abc ABC, " && x == "cjr HFT, "
    ensures forall i | 0 <= i < |t| :: Rotated(t[i], x[i], KeyShift("cipher"[VigenereCounts[i] % 6]))
  {
    CipherKey();
  }

  lemma SecondHalfRotations(t: string, x: string)
    requires t == "xyz XYZ 01" && x == "zgo ECQ 01"
    ensures forall i | 0 <= i < |t| :: Rotated(t[i], x[i], KeyShift("cipher"[VigenereCounts[i] % 6]))
  {
    CipherKey();
  }

  lemma HalfCounts(t: string)
    requires t == "abc ABC, " || t == "xyz XYZ 01"
    ensures forall k | 0 < k <= |t| :: VigenereCounts[k] == VigenereCounts[k - 1] + (if IsLetter(t[k - 1]) then 1 else 0)
  {
  }

  lemma FirstHalf()
    ensures VigenereEncrypt("abc ABC, ", "cipher") == Some("cjr HFT, ")
    ensures Letters("abc ABC, ") == VigenereCounts[9]
  {
    var t, x := "abc ABC, ", "cjr HFT, ";
    FirstHalfRotations(t, x);
    HalfCounts(t);
    EncryptMatches(t, "cipher", x, VigenereCounts);
  }

  lemma SecondHalf()
    ensures VigenereEncrypt("xyz XYZ 01", "cipher") == Some("zgo ECQ 01")
  {
    var t, x := "xyz XYZ 01", "zgo ECQ 01";
    SecondHalfRotations(t, x);
    HalfCounts(t);
    EncryptMatches(t, "cipher", x, VigenereCounts);
  }

  /** The `vigenere_cypher` test. */
  lemma VigenereScenario()
    ensures VigenereEncrypt("abc ABC, xyz XYZ 01", "cipher") == Some("cjr HFT, zgo ECQ 01")
    ensures VigenereDecrypt("cjr HFT, zgo ECQ 01", "cipher") == Some("abc ABC, xyz XYZ 01")
  {
    FirstHalf();
    SecondHalf();
    TestStrings();
    VigenereAppend("abc ABC, ", "xyz XYZ 01", "cipher");
    VigenereRoundTrip("abc ABC, xyz XYZ 01", "cipher");
  }

  lemma TestStrings()
    ensures "abc ABC, " + "xyz XYZ 01" == "abc ABC, xyz XYZ 01"
    ensures "cjr HFT, " + "zgo ECQ 01" == "cjr HFT, zgo ECQ 01"
    ensures IsAscii("abc ABC, ") && IsAscii("xyz XYZ 01") && IsAscii("cipher")
  {
  }
}
