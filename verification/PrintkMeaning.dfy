// What each conversion of printk prints, wherever it stands in a format: numbers in arithmetic, letters one by one.
module PrintkMeaning {
  import opened CString
  import opened Numbers
  import opened Printk

  /** l, ll and q ask for 64 bits, h and no length at all for 32. */
  predicate IsLength(len: seq<Byte>) { len in [[], [104], [108], [108, 108], [113]] }

  function Modulus(len: seq<Byte>): nat {
    if len in [[108], [108, 108], [113]] then 0x1_0000_0000_0000_0000 else 0x1_0000_0000
  }

  predicate IsDecimal(c: Byte) { 48 <= c <= 57 }

  /** A number of digits without needless zeros in front. */
  predicate Plain(t: seq<Byte>) { t != [] && (|t| > 1 ==> t[0] != 48) }

  predicate DecimalText(t: seq<Byte>, n: int) { Plain(t) && (forall c | c in t :: IsDecimal(c)) && Value(t, 10) == n }

  predicate SignedText(t: seq<Byte>, n: int) {
    if n < 0 then t != [] && t[0] == 45 && DecimalText(t[1..], -n) else DecimalText(t, n)
  }

  // ---------- One conversion in a format ----------

  lemma ConversionAt(pre: seq<Byte>, w: seq<Byte>, post: seq<Byte>, c: Conv, arg: Arg, args: seq<Arg>)
    requires w != [] && Directive(pre + w + post, |pre|) == (c, |w|) && Wants(c) && Suits(c, arg)
    requires Typed(post, |post|, 0, args) && (arg.Str? ==> NoNul(arg.text))
    ensures var fmt := pre + w + post;
            && Typed(fmt, |fmt|, |pre|, [arg] + args)
            && Meaning(fmt, |fmt|, |pre|, [arg] + args) == ArgText(c, arg) + Meaning(post, |post|, 0, args)
  {
    hide Directive, Typed, Meaning, ArgText;
    var fmt, all := pre + w + post, [arg] + args;
    assert all[1..] == args;
    FromHere(pre + w, post, 0, args);
    TypedStep(fmt, |fmt|, |pre|, all);
    Unfold(fmt, |fmt|, |pre|, all);
  }

  lemma ReadsAt(pre: seq<Byte>, w: seq<Byte>, post: seq<Byte>)
    ensures forall k | 0 <= k < |w| :: At(pre + w + post, |pre| + k) == w[k]
  {
    forall k | 0 <= k < |w| ensures At(pre + w + post, |pre| + k) ==
      w[k] { assert (pre + w + post)[|pre| + k] == w[k]; }
  }

  function Spec(len: seq<Byte>, letter: Byte): seq<Byte> { [PERCENT] + len + [letter] }

  lemma IntDirective(pre: seq<Byte>, len: seq<Byte>, letter: Byte, post: seq<Byte>)
    requires IsLength(len) && letter in INT_SPECS
    ensures var w := Spec(len, letter);
            Directive(pre + w + post, |pre|) == (IntConv(letter, if Modulus(len) == TWO_64 then 64 else 32), |w|)
  {
    var w := Spec(len, letter);
    ReadsAt(pre, w, post);
    assert At(pre + w + post, |pre| + 0) == w[0] && At(pre + w + post, |pre| + 1) == w[1];
    if |w| > 2 { assert At(pre + w + post, |pre| + 2) == w[2]; }
    if |w| > 3 { assert At(pre + w + post, |pre| + 3) == w[3]; }
  }

  // ---------- Numbers ----------

  /**
   * %d and %i: the decimal number in the signed range of the width that the argument stands for, a minus sign in front.
   */
  lemma PrintsSigned(pre: seq<Byte>, len: seq<Byte>, letter: Byte, post: seq<Byte>, bits: nat, args: seq<Arg>)
      returns (t: seq<Byte>, n: int)
    requires IsLength(len) && letter in [100, 105] && Typed(post, |post|, 0, args)
    ensures var fmt := pre + Spec(len, letter) + post;
            && Typed(fmt, |fmt|, |pre|, [Word(bits)] + args)
            && Meaning(fmt, |fmt|, |pre|, [Word(bits)] + args) == t + Meaning(post, |post|, 0, args)
    ensures var m := Modulus(len); (n - bits) % m == 0 && 0 - m <= 2 * n < m
    ensures SignedText(t, n)
  {
    hide Number, Value, Directive, Typed, Meaning, SignedWord, Negated, Plain, ArgText, Signed, IntText;
    var width := if Modulus(len) == TWO_64 then 64 else 32;
    IntDirective(pre, len, letter, post);
    ConversionAt(pre, Spec(len, letter), post, IntConv(letter, width), Word(bits), args);
    t, n := IntText(letter, width, bits), SignedWord(bits, width);
    if width == 64 { SignedRange64(bits); } else { SignedRange32(bits); }
    SignedIs(n);
    SpelledOut(letter, width, bits, args);
  }

  lemma SpelledOut(letter: Byte, width: nat, bits: nat, args: seq<Arg>)
    requires letter in [100, 105]
    ensures ArgText(IntConv(letter, width), Word(bits)) == IntText(letter, width, bits)
    ensures IntText(letter, width, bits) == Signed(SignedWord(bits, width), 10, LOWERCASE, 0)
  {
    hide Signed, SignedWord;
  }

  lemma SignedIs(n: int)
    requires -TWO_63 <= n < TWO_63
    ensures SignedText(Signed(n, 10, LOWERCASE, 0), n)
  {
    hide Number, Value;
    var a := if n < 0 then Negated(n) else n;
    NumberReadsBack(a, 10, LOWERCASE, 0);
    NumberCase(a, 10, LOWERCASE, 0);
    PlainNumber(a, 10, LOWERCASE, 0);
    assert ([MINUS] + Number(a, 10, LOWERCASE, 0))[1..] == Number(a, 10, LOWERCASE, 0);
  }

  lemma SignedRange32(bits: nat)
    ensures var n := SignedWord(bits, 32); (n - bits) % 0x1_0000_0000 == 0 && -0x8000_0000 <= n < 0x8000_0000
  {
    Congruent32(bits);
  }

  lemma Congruent32(bits: nat)
    ensures (bits % 0x1_0000_0000 - bits) % 0x1_0000_0000 == 0
    ensures (bits % 0x1_0000_0000 - 0x1_0000_0000 - bits) % 0x1_0000_0000 == 0
  {
  }

  lemma SignedRange64(bits: nat)
    ensures var n := SignedWord(bits, 64);
            (n - bits) % 0x1_0000_0000_0000_0000 == 0 && -0x8000_0000_0000_0000 <= n < 0x8000_0000_0000_0000
  {
    Congruent64(bits);
  }

  lemma Congruent64(bits: nat)
    ensures (bits % 0x1_0000_0000_0000_0000 - bits) % 0x1_0000_0000_0000_0000 == 0
    ensures (bits % 0x1_0000_0000_0000_0000 - 0x1_0000_0000_0000_0000 - bits) % 0x1_0000_0000_0000_0000 == 0
  {
  }

  lemma PlainNumber(n: nat, base: nat, textCase: nat, numLen: nat)
    requires 2 <= base <= 36 && textCase in {LOWERCASE, UPPERCASE}
    ensures var t := Number(n, base, textCase, numLen);
            |t| >= numLen && t != [] && (|t| > numLen && |t| > 1 ==> t[0] != 48)
  {
    hide Number;
    NumberLength(n, base, textCase, numLen);
    if n > 0 && Digits(n, base) >= numLen { NoLeadingZero(n, base, textCase, numLen); }
  }

  function BaseOf(letter: Byte): nat { if letter == 117 then 10 else if letter == 111 then 8 else 16 }

  /**
   * %u, %o, %x and %X: the number in the unsigned range of the width, with small letters for %x and capitals for %X.
   */
  lemma PrintsUnsigned(pre: seq<Byte>, len: seq<Byte>, letter: Byte, post: seq<Byte>, bits: nat, args: seq<Arg>)
      returns (t: seq<Byte>)
    requires IsLength(len) && letter in [117, 111, 120, 88] && Typed(post, |post|, 0, args)
    ensures var fmt := pre + Spec(len, letter) + post;
            && Typed(fmt, |fmt|, |pre|, [Word(bits)] + args)
            && Meaning(fmt, |fmt|, |pre|, [Word(bits)] + args) == t + Meaning(post, |post|, 0, args)
    ensures var (n, m) := (Value(t, BaseOf(letter)), Modulus(len)); (n - bits) % m == 0 && 0 <= n < m
    ensures Plain(t)
    ensures forall c | c in t ::
              IsDecimal(c) || (letter == 120 && 97 <= c <= 102) || (letter == 88 && 65 <= c <= 70)
    ensures letter == 111 ==> forall c | c in t :: c <= 55
  {
    hide Number, Value, Directive, Typed, Meaning;
    var width := if Modulus(len) == TWO_64 then 64 else 32;
    IntDirective(pre, len, letter, post);
    ConversionAt(pre, Spec(len, letter), post, IntConv(letter, width), Word(bits), args);
    t := IntText(letter, width, bits);
    var n, textCase := Unsigned(bits, width), if letter == 88 then UPPERCASE else LOWERCASE;
    NumberReadsBack(n, BaseOf(letter), textCase, 0);
    NumberCase(n, BaseOf(letter), textCase, 0);
    PlainNumber(n, BaseOf(letter), textCase, 0);
    if width == 64 { Congruent64(bits); } else { Congruent32(bits); }
  }

  /**
   * %p: 0x and at least eight digits of the 64-bit address, with small
   * letters and no needless zeros beyond these eight.
   */
  lemma PrintsPointer(pre: seq<Byte>, post: seq<Byte>, bits: nat, args: seq<Arg>) returns (d: seq<Byte>)
    requires Typed(post, |post|, 0, args)
    ensures var fmt := pre + [37, 112] + post;
            && Typed(fmt, |fmt|, |pre|, [Word(bits)] + args)
            && Meaning(fmt, |fmt|, |pre|, [Word(bits)] + args) == [48, 120] + d + Meaning(post, |post|, 0, args)
    ensures (Value(d, 16) - bits) % 0x1_0000_0000_0000_0000 == 0 && Value(d, 16) < 0x1_0000_0000_0000_0000
    ensures |d| >= 8 && (|d| > 8 ==> d[0] != 48) && forall c | c in d :: IsDecimal(c) || 97 <= c <= 102
  {
    hide Number, Value, Typed, Meaning;
    var n := bits % TWO_64;
    ReadsAt(pre, [37, 112], post);
    assert At(pre + [37, 112] + post, |pre| + 0) == 37 && At(pre + [37, 112] + post, |pre| + 1) == 112;
    ConversionAt(pre, [37, 112], post, PtrConv, Word(bits), args);
    d := Number(n, 16, LOWERCASE, 8);
    NumberReadsBack(n, 16, LOWERCASE, 8);
    NumberCase(n, 16, LOWERCASE, 8);
    PlainNumber(n, 16, LOWERCASE, 8);
  }

  // ---------- Characters and strings ----------

  /** %c: the one character that the low byte of the argument is, and nothing for NUL. */
  lemma PrintsChar(pre: seq<Byte>, post: seq<Byte>, bits: nat, args: seq<Arg>) returns (t: seq<Byte>)
    requires Typed(post, |post|, 0, args)
    ensures var fmt := pre + [37, 99] + post;
            && Typed(fmt, |fmt|, |pre|, [Word(bits)] + args)
            && Meaning(fmt, |fmt|, |pre|, [Word(bits)] + args) == t + Meaning(post, |post|, 0, args)
    ensures if bits % 256 == 0 then t == [] else |t| == 1 && (bits - t[0]) % 256 == 0
  {
    hide Typed, Meaning;
    ReadsAt(pre, [37, 99], post);
    assert At(pre + [37, 99] + post, |pre| + 0) == 37 && At(pre + [37, 99] + post, |pre| + 1) == 99;
    ConversionAt(pre, [37, 99], post, CharConv, Word(bits), args);
    t := ArgText(CharConv, Word(bits));
  }

  /** %s: the string, and nothing for NULL. */
  lemma PrintsString(pre: seq<Byte>, post: seq<Byte>, text: seq<Byte>, args: seq<Arg>)
    requires Typed(post, |post|, 0, args) && NoNul(text)
    ensures var fmt := pre + [37, 115] + post;
            && Typed(fmt, |fmt|, |pre|, [Str(text)] + args) && Typed(fmt, |fmt|, |pre|, [NullStr] + args)
            && Meaning(fmt, |fmt|, |pre|, [Str(text)] + args) == text + Meaning(post, |post|, 0, args)
            && Meaning(fmt, |fmt|, |pre|, [NullStr] + args) == Meaning(post, |post|, 0, args)
  {
    hide Typed, Meaning;
    ReadsAt(pre, [37, 115], post);
    assert At(pre + [37, 115] + post, |pre| + 0) == 37 && At(pre + [37, 115] + post, |pre| + 1) == 115;
    ConversionAt(pre, [37, 115], post, StrConv, Str(text), args);
    ConversionAt(pre, [37, 115], post, StrConv, NullStr, args);
    assert [] + Meaning(post, |post|, 0, args) == Meaning(post, |post|, 0, args);
  }

  // ---------- What is no conversion ----------

  /** A percent sign before a letter that means nothing to printk prints itself and the letter, and two print one. */
  lemma PrintsItself(pre: seq<Byte>, c: Byte, post: seq<Byte>, args: seq<Arg>)
    requires Typed(post, |post|, 0, args) && c != NUL && c !in INT_SPECS && c !in [99, 115, 112, 108, 113, 104]
    ensures var fmt := pre + [37, c] + post;
            && Typed(fmt, |fmt|, |pre|, args)
            && Meaning(fmt, |fmt|, |pre|, args) ==
               (if c == 37 then [37] else [37, c]) + Meaning(post, |post|, 0, args)
  {
    hide Typed, Meaning;
    var fmt := pre + [37, c] + post;
    ReadsAt(pre, [37, c], post);
    assert At(fmt, |pre| + 0) == 37 && At(fmt, |pre| + 1) == c;
    assert Directive(fmt, |pre|) == (Literal(if c == 37 then [37] else [37, c]), 2);
    FromHere(pre + [37, c], post, 0, args);
    TypedStep(fmt, |fmt|, |pre|, args);
    Unfold(fmt, |fmt|, |pre|, args);
  }

  /** A percent sign at the end of a format, with or without a length, prints itself. */
  lemma EndsInPercent(pre: seq<Byte>, len: seq<Byte>, args: seq<Arg>)
    requires IsLength(len)
    ensures var fmt := pre + [37] + len;
            Typed(fmt, |fmt|, |pre|, args) && Meaning(fmt, |fmt|, |pre|, args) == [37]
  {
    hide Typed, Meaning;
    var w, fmt := [37] + len, pre + [37] + len;
    assert fmt == pre + w + [];
    ReadsAt(pre, w, []);
    assert At(fmt, |pre| + 0) == 37;
    if |w| > 1 { assert At(fmt, |pre| + 1) == w[1]; }
    if |w| > 2 { assert At(fmt, |pre| + 2) == w[2]; }
    TypedStep(fmt, |fmt|, |pre|, args);
    var (c, n) := Directive(fmt, |pre|);
    AtEnd(fmt, |fmt|, |pre| + n, args);
    Unfold(fmt, |fmt|, |pre|, args);
  }

  // ---------- When the buffer is flushed ----------

  /** What is in the buffer after n characters of plain text, which is flushed in pieces of 992. */
  function Filled(n: nat): nat { if n == 0 then 0 else (n - 1) % 992 + 1 }

  lemma FilledNext(n: nat)
    ensures Filled(n + 1) == (if Filled(n) >= 992 then 0 else Filled(n)) + 1 && Filled(n) <= 992
    ensures (if Filled(n) >= 992 then 0 else Filled(n)) == n % 992
  {
    if n > 0 { FilledAgain(n); }
  }

  lemma FilledAgain(n: nat)
    requires n > 0
    ensures n % 992 == if (n - 1) % 992 == 991 then 0 else (n - 1) % 992 + 1
  {
  }

  lemma {:induction false} TextThenStringFrom(plain: seq<Byte>, text: seq<Byte>, i: nat)
    requires i <= |plain| && NoNul(plain) && PERCENT !in plain && NoNul(text)
    ensures var fmt := plain + [37, 115];
            && Typed(fmt, |fmt|, i, [Str(text)])
            && (Fits(fmt, |fmt|, i, [Str(text)], Filled(i)) <==> |plain| % 992 + |text| < 1024)
    decreases |plain| - i
  {
    hide Filled;
    var fmt := plain + [37, 115];
    FilledNext(i);
    if i < |plain| {
      TextThenStringFrom(plain, text, i + 1);
      assert At(fmt, i) == plain[i];
      assert Directive(fmt, i) == (Literal([plain[i]]), 1);
    } else {
      assert At(fmt, i) == 37 && At(fmt, i + 1) == 115;
      assert Directive(fmt, i) == (StrConv, 2);
      assert [Str(text)][1..] == [];
    }
  }

  /** A string behind plain text fits exactly if it has room behind what is left of the text, by pieces of 992. */
  lemma TextThenString(plain: seq<Byte>, text: seq<Byte>)
    requires NoNul(plain) && PERCENT !in plain && NoNul(text)
    ensures var fmt := plain + [37, 115];
            && Typed(fmt, |fmt|, 0, [Str(text)])
            && (Fits(fmt, |fmt|, 0, [Str(text)], 0) <==> |plain| % 992 + |text| < 1024)
  {
    TextThenStringFrom(plain, text, 0);
  }
}
