// printk.c, the number formatting: text appended to a buffer by recursion over the digits.
module Numbers {
  import opened CString

  const LOWERCASE := 32
  const UPPERCASE := 0
  const TWO_32 := 0x1_0000_0000
  const TWO_63 := 0x8000_0000_0000_0000
  const TWO_64 := 0x1_0000_0000_0000_0000
  const MINUS: Byte := 45
  const PERCENT: Byte := 37
  const ZERO_DIGIT: Byte := 48

  // ---------- Numbers ----------

  function DigitChar(d: nat, textCase: nat): Byte
    requires d < 36 && textCase <= LOWERCASE
  {
    if d < 10 then d + 48 else d - 10 + 65 + textCase
  }

  function DigitValue(c: Byte): nat {
    if 48 <= c <= 57 then c - 48 else if 65 <= c <= 90 then c - 55 else if 97 <= c <= 122 then c - 87 else 36
  }

  lemma Doubled(q: nat, base: nat)
    requires base >= 2
    ensures q * base >= 2 * q
  {
    assert q * base == 2 * q + q * (base - 2);
  }

  lemma Shrinks(n: nat, base: nat)
    requires base >= 2
    ensures n / base == 0 || n / base < n
  {
    Doubled(n / base, base);
    assert n == n / base * base + n % base;
  }

  function Quot(n: nat, base: nat): (q: nat)
    requires base >= 2
    ensures q != 0 ==> q < n
  {
    Shrinks(n, base);
    n / base
  }

  function Rem(n: nat, base: nat): (r: nat)
    requires base >= 2
    ensures r < base
  {
    n % base
  }

  lemma QuotRem(n: nat, base: nat)
    requires base >= 2
    ensures n == Quot(n, base) * base + Rem(n, base)
    ensures Quot(n, base) == 0 ==> Rem(n, base) == n
  {
  }

  function Pad(k: nat): seq<Byte> { seq(k, _ => ZERO_DIGIT) }

  function Less(numLen: nat): nat { if numLen > 0 then numLen - 1 else 0 }

  /** The text of n, padded with zeros to numLen digits. */
  function Number(n: nat, base: nat, textCase: nat, numLen: nat): seq<Byte>
    requires 2 <= base <= 36 && textCase <= LOWERCASE
    decreases n
  {
    var q := Quot(n, base);
    (if q != 0 then Number(q, base, textCase, Less(numLen)) else Pad(Less(numLen)))
      + [DigitChar(Rem(n, base), textCase)]
  }

  /** Reading digits back. */
  function Value(s: seq<Byte>, base: nat): nat {
    if s == [] then 0 else Value(s[..|s| - 1], base) * base + DigitValue(s[|s| - 1])
  }

  lemma ValueSnoc(s: seq<Byte>, c: Byte, base: nat)
    ensures Value(s + [c], base) == Value(s, base) * base + DigitValue(c)
  {
    assert (s + [c])[..|s|] == s;
  }

  function Digits(n: nat, base: nat): nat
    requires base >= 2
    decreases n
  {
    if Quot(n, base) == 0 then 1 else 1 + Digits(Quot(n, base), base)
  }

  predicate IsDigit(c: Byte, base: nat) { DigitValue(c) < base }

  lemma {:induction false} ValueOfZeros(k: nat, base: nat)
    ensures Value(Pad(k), base) == 0
  {
    if k > 0 {
      assert Pad(k) == Pad(k - 1) + [ZERO_DIGIT];
      ValueOfZeros(k - 1, base);
      ValueSnoc(Pad(k - 1), ZERO_DIGIT, base);
    }
  }

  lemma DigitRoundTrip(d: nat, textCase: nat)
    requires d < 36 && textCase in {LOWERCASE, UPPERCASE}
    ensures DigitValue(DigitChar(d, textCase)) == d && DigitChar(d, textCase) >= ZERO_DIGIT
    ensures DigitChar(d, textCase) == ZERO_DIGIT <==> d == 0
  {
  }

  /** The text reads back as the number, in any base up to 36. */
  lemma {:induction false} NumberReadsBack(n: nat, base: nat, textCase: nat, numLen: nat)
    requires 2 <= base <= 36 && textCase in {LOWERCASE, UPPERCASE}
    ensures Value(Number(n, base, textCase, numLen), base) == n
    decreases n
  {
    hide Quot, Rem, Value, DigitChar, DigitValue, Pad;
    var q, r := Quot(n, base), Rem(n, base);
    QuotRem(n, base);
    DigitRoundTrip(r, textCase);
    var front := if q != 0 then Number(q, base, textCase, Less(numLen)) else Pad(Less(numLen));
    if q != 0 { NumberReadsBack(q, base, textCase, Less(numLen)); } else { ValueOfZeros(Less(numLen), base); }
    ValueSnoc(front, DigitChar(r, textCase), base);
  }

  lemma {:induction false} NumberLength(n: nat, base: nat, textCase: nat, numLen: nat)
    requires 2 <= base <= 36 && textCase <= LOWERCASE
    ensures |Number(n, base, textCase, numLen)| == if Digits(n, base) > numLen then Digits(n, base) else numLen
    decreases n
  {
    hide Quot, Rem, DigitChar;
    if Quot(n, base) != 0 {
      NumberLength(Quot(n, base), base, textCase, Less(numLen));
    }
  }

  lemma {:induction false} NumberDigits(n: nat, base: nat, textCase: nat, numLen: nat)
    requires 2 <= base <= 36 && textCase in {LOWERCASE, UPPERCASE}
    ensures forall c | c in Number(n, base, textCase, numLen) :: c >= ZERO_DIGIT && IsDigit(c, base)
    decreases n
  {
    hide Quot, Rem, DigitChar;
    DigitRoundTrip(Rem(n, base), textCase);
    if Quot(n, base) != 0 {
      NumberDigits(Quot(n, base), base, textCase, Less(numLen));
    }
  }

  /** No leading zero that was not asked for. */
  lemma {:induction false} NoLeadingZero(n: nat, base: nat, textCase: nat, numLen: nat)
    requires 2 <= base <= 36 && textCase in {LOWERCASE, UPPERCASE} && n > 0 && numLen <= Digits(n, base)
    ensures Number(n, base, textCase, numLen)[0] != ZERO_DIGIT
    decreases n
  {
    hide Quot, Rem, DigitChar;
    QuotRem(n, base);
    DigitRoundTrip(Rem(n, base), textCase);
    if Quot(n, base) != 0 {
      NoLeadingZero(Quot(n, base), base, textCase, Less(numLen));
      NumberLength(Quot(n, base), base, textCase, Less(numLen));
    }
  }

  /** Digits from ten on are letters of the case asked for. */
  predicate InCase(c: Byte, base: nat, textCase: nat) {
    (48 <= c < 48 + base && c <= 57) ||
    (if textCase == LOWERCASE then 97 <= c < 97 + base - 10 else 65 <= c < 65 + base - 10)
  }

  lemma {:induction false} NumberCase(n: nat, base: nat, textCase: nat, numLen: nat)
    requires 2 <= base <= 36 && textCase in {LOWERCASE, UPPERCASE}
    ensures forall c | c in Number(n, base, textCase, numLen) :: InCase(c, base, textCase)
    decreases n
  {
    hide Quot, Rem;
    if Quot(n, base) != 0 {
      NumberCase(Quot(n, base), base, textCase, Less(numLen));
    }
  }

  function Pow8(k: nat): nat { if k == 0 then 1 else 8 * Pow8(k - 1) }

  lemma {:induction false} FewDigits(n: nat, base: nat, k: nat)
    requires base >= 8 && k > 0 && n < Pow8(k)
    ensures Digits(n, base) <= k
    decreases k
  {
    if Quot(n, base) != 0 {
      Quotient(n, base);
      FewDigits(Quot(n, base), base, k - 1);
    }
  }

  lemma Quotient(n: nat, base: nat)
    requires base >= 8
    ensures Quot(n, base) * 8 <= n
  {
    assert n / base * base <= n;
    assert n / base * 8 <= n / base * base;
  }

  lemma WordDigits(n: nat, base: nat)
    requires n < TWO_64 && base >= 8
    ensures Digits(n, base) <= 22
  {
    assert Pow8(7) == 0x20_0000;
    assert Pow8(14) == 0x400_0000_0000;
    assert Pow8(21) == TWO_63;
    FewDigits(n, base, 22);
  }

  /** The negative of a 64-bit number, in 64 bits and taken as unsigned. */
  function Negated(n: int): nat
    requires -TWO_63 <= n < 0
  {
    var wrapped := if n == -TWO_63 then n else -n;
    wrapped % TWO_64
  }

  function Signed(n: int, base: nat, textCase: nat, numLen: nat): seq<Byte>
    requires 2 <= base <= 36 && textCase <= LOWERCASE && -TWO_63 <= n < TWO_63
  {
    if n < 0 then [MINUS] + Number(Negated(n), base, textCase, numLen) else Number(n, base, textCase, numLen)
  }

  function SignedValue(s: seq<Byte>, base: nat): int {
    if s != [] && s[0] == MINUS then 0 - Value(s[1..], base) else Value(s, base)
  }

  /** So does the signed text, for every 64-bit number, the least one included. */
  lemma SignedReadsBack(n: int, base: nat, textCase: nat, numLen: nat)
    requires 2 <= base <= 36 && textCase in {LOWERCASE, UPPERCASE} && -TWO_63 <= n < TWO_63
    ensures SignedValue(Signed(n, base, textCase, numLen), base) == n
  {
    hide Number, Value;
    var m := if n < 0 then Negated(n) else n;
    assert n < 0 ==> m == -n;
    assert ([MINUS] + Number(m, base, textCase, numLen))[1..] == Number(m, base, textCase, numLen);
    NumberReadsBack(m, base, textCase, numLen);
    NumberDigits(m, base, textCase, numLen);
    NumberLength(m, base, textCase, numLen);
    assert Number(m, base, textCase, numLen)[0] in Number(m, base, textCase, numLen);
  }

  // ---------- Formatting into a buffer ----------

  lemma HoldsTail(a: seq<Byte>, off: nat, text: seq<Byte>)
    requires Holds(a, off, text) && text != []
    ensures Holds(a, off + 1, text[1..]) && a[off] == text[0]
  {
    assert a[off] == a[off..][0];
    assert a[off + 1..] == a[off..][1..];
  }

  lemma HoldsCons(a: seq<Byte>, off: nat, text: seq<Byte>, more: seq<Byte>)
    requires text != [] && off < |a| && a[off] == text[0] && text[0] != NUL && Holds(a, off + 1, text[1..] + more)
    ensures Holds(a, off, text + more)
  {
    assert a[off..] == [a[off]] + a[off + 1..];
    assert text + more == [text[0]] + (text[1..] + more);
  }

  /** Digits put behind a minus sign that ends the text. */
  lemma BehindMinus(a: seq<Byte>, off: nat, text: seq<Byte>, m: seq<Byte>, b: seq<Byte>)
    requires Holds(a, off, text + [MINUS]) && Holds(b, off + 1, (text + [MINUS])[1..] + m)
    requires off < |a| == |b| && a[..off + 1] == b[..off + 1]
    ensures Holds(b, off, text + ([MINUS] + m)) && b[..off] == a[..off]
  {
    HoldsTail(a, off, text + [MINUS]);
    assert a[off] == a[..off + 1][off] && b[..off] == b[..off + 1][..off] && a[..off] == a[..off + 1][..off];
    HoldsCons(b, off, text + [MINUS], m);
    assert (text + [MINUS]) + m == text + ([MINUS] + m);
  }

  method FormatChar(a: array<Byte>, off: nat, c: Byte, ghost text: seq<Byte>)
    requires Holds(a[..], off, text) && a.Length < MAX_STR_LEN && off + |text| + 1 < a.Length
    modifies a
    ensures Holds(a[..], off, if c == NUL then text else text + [c]) && a[..off] == old(a[..off])
  {
    var stray: Byte := *;   // strncpy looks at the byte behind c
    StrNCat(a, off, [c, stray], 1, text);
    assert [c, stray][..1] == [c] && text + [c, stray][..0] == text;
  }

  method FormatStr(a: array<Byte>, off: nat, s: seq<Byte>, ghost text: seq<Byte>)
    requires Holds(a[..], off, text) && a.Length < MAX_STR_LEN && off + |text| + |s| < a.Length && NoNul(s)
    modifies a
    ensures Holds(a[..], off, text + s) && a[..off] == old(a[..off])
  {
    var strLen := TextLength(a, off, text);
    assert strLen < MAX_STR_LEN - 1;
    LengthIs(s + [NUL], |s|);
    assert (s + [NUL])[|s|] == NUL;
    var len := StrNLen(s + [NUL], MAX_STR_LEN);
    StrNCat(a, off, s + [NUL], len, text);
    assert (s + [NUL])[..|s|] == s;
  }

  method FormatLlu(a: array<Byte>, off: nat, n: nat, base: nat, textCase: nat, numLen: nat, ghost text: seq<Byte>)
    requires Holds(a[..], off, text) && a.Length < MAX_STR_LEN
    requires 2 <= base <= 36 && textCase in {LOWERCASE, UPPERCASE}
             && off + |text| + |Number(n, base, textCase, numLen)| < a.Length
    modifies a
    ensures Holds(a[..], off, text + Number(n, base, textCase, numLen)) && a[..off] == old(a[..off])
    decreases n
  {
    hide Pad, Holds, Quot, Rem;
    var strLen := TextLength(a, off, text);
    assert strLen < MAX_STR_LEN - 1;
    ghost var front := Pad(Less(numLen));
    if Quot(n, base) != 0 {
      FormatLlu(a, off, Quot(n, base), base, textCase, if numLen > 0 then numLen - 1 else 0, text);
      front := Number(Quot(n, base), base, textCase, Less(numLen));
    } else {
      NoPad(text, Less(numLen));
      if numLen > 0 {
        FormatZeros(a, off, numLen - 1, text);
      }
    }
    Snoc(text, front, DigitChar(Rem(n, base), textCase));
    FormatDigit(a, off, Rem(n, base), textCase, text + front);
  }

  // strnlen of the text the array holds.
  method TextLength(a: array<Byte>, off: nat, ghost text: seq<Byte>) returns (len: nat)
    requires Holds(a[..], off, text) && a.Length < MAX_STR_LEN
    ensures off <= a.Length && len == |text| < a.Length - off
  {
    HoldsLength(a[..], off, text);
    assert a[..][off..] == a[off..];
    len := StrNLen(a[off..], MAX_STR_LEN);
  }

  // The last digit.
  method FormatDigit(a: array<Byte>, off: nat, digit: nat, textCase: nat, ghost text: seq<Byte>)
    requires Holds(a[..], off, text) && a.Length < MAX_STR_LEN && off + |text| + 1 < a.Length
    requires digit < 36 && textCase in {LOWERCASE, UPPERCASE}
    modifies a
    ensures Holds(a[..], off, text + [DigitChar(digit, textCase)]) && a[..off] == old(a[..off])
  {
    hide Holds;
    DigitRoundTrip(digit, textCase);
    if digit < 10 {
      FormatChar(a, off, digit + 48, text);
    } else {
      FormatChar(a, off, digit - 10 + 65 + textCase, text);
    }
  }

  lemma NoPad(text: seq<Byte>, k: nat)
    ensures text + Pad(0) == text && |Pad(k)| == k
  {
  }

  lemma Snoc(a: seq<Byte>, b: seq<Byte>, c: Byte)
    ensures (a + b) + [c] == a + (b + [c])
  {
  }

  // The padding loop.
  method FormatZeros(a: array<Byte>, off: nat, k: nat, ghost text: seq<Byte>)
    requires Holds(a[..], off, text) && a.Length < MAX_STR_LEN && off + |text| + k < a.Length
    modifies a
    ensures Holds(a[..], off, text + Pad(k)) && a[..off] == old(a[..off])
  {
    ghost var zeros := Pad(k);
    assert text + zeros[..0] == text;
    var i := 0;
    while i < k
      invariant i <= k && Holds(a[..], off, text + zeros[..i]) && a[..off] == old(a[..off])
    {
      FormatChar(a, off, ZERO_DIGIT, text + zeros[..i]);
      assert (text + zeros[..i]) + [ZERO_DIGIT] == text + zeros[..i + 1];
      i := i + 1;
    }
    assert zeros[..k] == zeros;
  }

  method FormatLl(a: array<Byte>, off: nat, n: int, base: nat, textCase: nat, numLen: nat, ghost text: seq<Byte>)
    requires Holds(a[..], off, text) && a.Length < MAX_STR_LEN && -TWO_63 <= n < TWO_63
    requires 2 <= base <= 36 && textCase in {LOWERCASE, UPPERCASE}
             && off + |text| + |Signed(n, base, textCase, numLen)| < a.Length
    modifies a
    ensures Holds(a[..], off, text + Signed(n, base, textCase, numLen)) && a[..off] == old(a[..off])
  {
    hide Number, Holds, Negated;
    if n < 0 {
      NumberLength(Negated(n), base, textCase, numLen);
      FormatChar(a, off, MINUS, text);
      ghost var was, more := a[..], text + [MINUS];
      HoldsTail(was, off, more);
      FormatLlu(a, off + 1, Negated(n), base, textCase, numLen, more[1..]);
      BehindMinus(was, off, text, Number(Negated(n), base, textCase, numLen), a[..]);
    } else {
      FormatLlu(a, off, n, base, textCase, numLen, text);
    }
  }
}
