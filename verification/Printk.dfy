// printk.c, the format string: conversions written to a 1024-byte buffer, which is printed and cleared when it gets
// full.
module Printk {
  import opened CString
  import opened Numbers

  const OUTPUT_LEN := 1024
  const LONGEST := 32         // what is left of the buffer when it is flushed

  // ---------- What a format means ----------

  /** An argument: a 64-bit slot, or a pointer to a string. */
  datatype Arg = Word(bits: nat) | Str(text: seq<Byte>) | NullStr

  datatype Conv = Literal(text: seq<Byte>) | CharConv | StrConv | PtrConv | IntConv(spec: Byte, width: nat)

  /** Reading past the end of a string finds its terminator. */
  function At(s: seq<Byte>, i: nat): Byte { if i < |s| then s[i] else NUL }

  /** The characters d, i, u, x, X and o. */
  const INT_SPECS: seq<Byte> := [100, 105, 117, 120, 88, 111]

  function Specifier(sp: Byte, width: nat): Conv {
    if sp in INT_SPECS then IntConv(sp, width)
    else Literal(if sp == NUL then [PERCENT] else [PERCENT, sp])
  }

  /** The conversion at position i of a format, and how many characters it takes. */
  function Directive(fmt: seq<Byte>, i: nat): (r: (Conv, nat))
    ensures r.1 > 0
  {
    if At(fmt, i) != PERCENT then (Literal(if At(fmt, i) == NUL then [] else [At(fmt, i)]), 1)
    else
      match At(fmt, i + 1)
      case 37 => (Literal([PERCENT]), 2)                                      // %%
      case 99 => (CharConv, 2)                                                // %c
      case 115 => (StrConv, 2)                                                // %s
      case 112 => (PtrConv, 2)                                                // %p
      case 108 =>                                                             // %l
        if At(fmt, i + 2) == 108 then (Specifier(At(fmt, i + 3), 64), 4)
        else (Specifier(At(fmt, i + 2), 64), 3)
      case 113 => (Specifier(At(fmt, i + 2), 64), 3)                          // %q
      case 104 => (Specifier(At(fmt, i + 2), 32), 3)                          // %h
      case sp => (Specifier(sp, 32), 2)
  }

  predicate Wants(c: Conv) { !c.Literal? }

  function Unsigned(bits: nat, width: nat): nat
    ensures Unsigned(bits, width) < TWO_64
  {
    if width == 32 then bits % TWO_32 else bits % TWO_64
  }

  function SignedWord(bits: nat, width: nat): (n: int)
    ensures -TWO_63 <= n < TWO_63
  {
    if width == 32 then (if bits % TWO_32 < TWO_32 / 2 then bits % TWO_32 else bits % TWO_32 - TWO_32)
    else (if bits % TWO_64 < TWO_63 then bits % TWO_64 else bits % TWO_64 - TWO_64)
  }

  function IntText(spec: Byte, width: nat, bits: nat): seq<Byte> {
    match spec
    case 117 => Number(Unsigned(bits, width), 10, LOWERCASE, 0)
    case 120 => Number(Unsigned(bits, width), 16, LOWERCASE, 0)
    case 88 => Number(Unsigned(bits, width), 16, UPPERCASE, 0)
    case 111 => Number(Unsigned(bits, width), 8, LOWERCASE, 0)
    case _ => Signed(SignedWord(bits, width), 10, LOWERCASE, 0)
  }

  predicate Suits(c: Conv, arg: Arg) { if c.StrConv? then !arg.Word? else arg.Word? }

  function ArgText(c: Conv, arg: Arg): seq<Byte>
    requires Wants(c) && Suits(c, arg)
  {
    match c
    case CharConv => if arg.bits % 256 == 0 then [] else [arg.bits % 256]
    case StrConv => if arg.Str? then arg.text else []
    case PtrConv => [48, 120] + Number(arg.bits % TWO_64, 16, LOWERCASE, 8)
    case IntConv(spec, width) => IntText(spec, width, arg.bits)
  }

  /** The arguments are those the format from position i on asks for, and strings are strings. */
  predicate Typed(fmt: seq<Byte>, n: nat, i: nat, args: seq<Arg>)
    decreases n - i
  {
    i < n ==>
      var (c, len) := Directive(fmt, i);
      if Wants(c) then
        && args != [] && Suits(c, args[0]) && (args[0].Str? ==> NoNul(args[0].text))
        && Typed(fmt, n, i + len, args[1..])
      else Typed(fmt, n, i + len, args)
  }

  /** What the format, from position i up to n, stands for. */
  function Meaning(fmt: seq<Byte>, n: nat, i: nat, args: seq<Arg>): seq<Byte>
    requires Typed(fmt, n, i, args)
    decreases n - i
  {
    if i >= n then []
    else
      var (c, len) := Directive(fmt, i);
      if Wants(c) then ArgText(c, args[0]) + Meaning(fmt, n, i + len, args[1..])
      else c.text + Meaning(fmt, n, i + len, args)
  }

  /** The conversion at position i does not run over the end of a buffer that holds t characters: only a string can. */
  predicate FitsHere(fmt: seq<Byte>, i: nat, args: seq<Arg>, t: nat) {
    Directive(fmt, i).0.StrConv? && args != [] && args[0].Str? ==> t + |args[0].text| < OUTPUT_LEN
  }

  /** No string on the way from position i to n runs over the end of the buffer, which holds t characters. */
  predicate Fits(fmt: seq<Byte>, n: nat, i: nat, args: seq<Arg>, t: nat)
    requires Typed(fmt, n, i, args)
    decreases n - i
  {
    i < n ==>
      var (c, len) := Directive(fmt, i);
      var left := if t >= OUTPUT_LEN - LONGEST then 0 else t;
      && FitsHere(fmt, i, args, left)
      && if Wants(c) then Fits(fmt, n, i + len, args[1..], left + |ArgText(c, args[0])|)
         else Fits(fmt, n, i + len, args, left + |c.text|)
  }

  predicate ShortStrings(args: seq<Arg>) { forall a | a in args && a.Str? :: |a.text| <= LONGEST }

  /** Strings of at most 32 characters always fit. */
  lemma {:induction false} ShortFits(fmt: seq<Byte>, n: nat, i: nat, args: seq<Arg>, t: nat)
    requires Typed(fmt, n, i, args) && ShortStrings(args)
    ensures Fits(fmt, n, i, args, t)
    decreases n - i
  {
    hide Directive, ArgText;
    if i < n {
      var (c, len) := Directive(fmt, i);
      var left := if t >= OUTPUT_LEN - LONGEST then 0 else t;
      if Wants(c) {
        assert args[0] in args;
        ShortFits(fmt, n, i + len, args[1..], left + |ArgText(c, args[0])|);
      } else {
        ShortFits(fmt, n, i + len, args, left + |c.text|);
      }
    }
  }

  /** One string, printed alone, fits exactly if it has fewer than 1024 characters. */
  lemma LoneString(text: seq<Byte>)
    requires NoNul(text)
    ensures var fmt, args := [PERCENT, 115], [Str(text)];
            Typed(fmt, 2, 0, args) && (Fits(fmt, 2, 0, args, 0) <==> |text| < OUTPUT_LEN)
  {
    var fmt, args := [PERCENT, 115], [Str(text)];
    assert Directive(fmt, 0) == (StrConv, 2);
    assert Typed(fmt, 2, 2, args[1..]);
  }

  function Flatten(chunks: seq<seq<Byte>>): seq<Byte> {
    if chunks == [] then [] else Flatten(chunks[..|chunks| - 1]) + chunks[|chunks| - 1]
  }

  lemma FlattenSnoc(chunks: seq<seq<Byte>>, c: seq<Byte>)
    ensures Flatten(chunks + [c]) == Flatten(chunks) + c
  {
    assert (chunks + [c])[..|chunks|] == chunks;
  }

  // ---------- Every conversion fits behind the flush mark ----------

  lemma WordLength(n: nat, base: nat, textCase: nat)
    requires n < TWO_64 && base in {8, 10, 16} && textCase <= LOWERCASE
    ensures |Number(n, base, textCase, 0)| <= 22 && |Number(n, base, textCase, 8)| <= 22
  {
    NumberLength(n, base, textCase, 0);
    NumberLength(n, base, textCase, 8);
    WordDigits(n, base);
  }

  lemma IntFits(spec: Byte, width: nat, bits: nat)
    ensures |IntText(spec, width, bits)| <= LONGEST
  {
    hide Number;
    var u, v := Unsigned(bits, width), SignedWord(bits, width);
    WordLength(u, 10, LOWERCASE);
    WordLength(u, 16, LOWERCASE);
    WordLength(u, 16, UPPERCASE);
    WordLength(u, 8, LOWERCASE);
    WordLength(if v < 0 then Negated(v) else v, 10, LOWERCASE);
  }

  lemma ArgFits(c: Conv, arg: Arg)
    requires Wants(c) && Suits(c, arg) && (arg.Str? ==> |arg.text| <= LONGEST)
    ensures |ArgText(c, arg)| <= LONGEST
  {
    hide Number, IntText;
    if c.PtrConv? { WordLength(arg.bits % TWO_64, 16, LOWERCASE); }
    if c.IntConv? { IntFits(c.spec, c.width, arg.bits); }
  }

  function Base(spec: Byte): nat { if spec == 111 then 8 else if spec == 120 || spec == 88 then 16 else 10 }

  /** What a number conversion prints reads back as its argument, cut to the width the format asks for. */
  lemma IntReadsBack(spec: Byte, width: nat, bits: nat)
    requires spec in INT_SPECS
    ensures if spec in [100, 105] then SignedValue(IntText(spec, width, bits), 10) == SignedWord(bits, width)
            else Value(IntText(spec, width, bits), Base(spec)) == Unsigned(bits, width)
  {
    hide Number, Value, SignedValue, Signed;
    SignedReadsBack(SignedWord(bits, width), 10, LOWERCASE, 0);
    NumberReadsBack(Unsigned(bits, width), Base(spec), if spec == 88 then UPPERCASE else LOWERCASE, 0);
  }

  // ---------- The conversions ----------

  // parse_specifier for one of its six letters.
  method FormatInt(a: array<Byte>, spec: Byte, width: nat, bits: nat, ghost text: seq<Byte>)
    requires Holds(a[..], 0, text) && a.Length < MAX_STR_LEN && |text| + LONGEST < a.Length
    modifies a
    ensures Holds(a[..], 0, text + IntText(spec, width, bits))
  {
    hide Holds, Number;
    IntFits(spec, width, bits);
    match spec
    case 117 => FormatLlu(a, 0, Unsigned(bits, width), 10, LOWERCASE, 0, text);
    case 120 => FormatLlu(a, 0, Unsigned(bits, width), 16, LOWERCASE, 0, text);
    case 88 => FormatLlu(a, 0, Unsigned(bits, width), 16, UPPERCASE, 0, text);
    case 111 => FormatLlu(a, 0, Unsigned(bits, width), 8, LOWERCASE, 0, text);
    case _ => FormatLl(a, 0, SignedWord(bits, width), 10, LOWERCASE, 0, text);
  }

  method FormatArg(a: array<Byte>, c: Conv, arg: Arg, ghost text: seq<Byte>)
    requires Holds(a[..], 0, text) && a.Length < MAX_STR_LEN && |text| + LONGEST < a.Length
    requires Wants(c) && Suits(c, arg) && (arg.Str? ==> NoNul(arg.text) && |text| + |arg.text| < a.Length)
    modifies a
    ensures Holds(a[..], 0, text + ArgText(c, arg))
  {
    hide Holds, Number, IntText;
    if !arg.Str? { ArgFits(c, arg); }
    assert text + [] == text;
    match c
    case CharConv => FormatChar(a, 0, arg.bits % 256, text);
    case StrConv =>
      if arg.Str? {
        FormatStr(a, 0, arg.text, text);
      }
    case PtrConv =>
      FormatStr(a, 0, [48, 120], text);
      FormatLlu(a, 0, arg.bits % TWO_64, 16, LOWERCASE, 8, text + [48, 120]);
      assert text + [48, 120] + Number(arg.bits % TWO_64, 16, LOWERCASE, 8)
          == text + ([48, 120] + Number(arg.bits % TWO_64, 16, LOWERCASE, 8));
    case IntConv(spec, width) => FormatInt(a, spec, width, arg.bits, text);
  }

  method FormatLiteral(a: array<Byte>, s: seq<Byte>, ghost text: seq<Byte>)
    requires Holds(a[..], 0, text) && a.Length < MAX_STR_LEN && |text| + |s| < a.Length && NoNul(s)
    modifies a
    ensures Holds(a[..], 0, text + s)
  {
    assert text + s[..0] == text;
    var i := 0;
    while i < |s|
      invariant i <= |s| && Holds(a[..], 0, text + s[..i])
    {
      FormatChar(a, 0, s[i], text + s[..i]);
      assert (text + s[..i]) + [s[i]] == text + s[..i + 1];
      i := i + 1;
    }
    assert s[..|s|] == s;
  }

  // print_clear_buff: the text goes to the screen and the serial port, and the buffer is all zeros again.
  method PrintClearBuff(a: array<Byte>, ghost text: seq<Byte>) returns (printed: seq<Byte>)
    requires Holds(a[..], 0, text) && a.Length < MAX_STR_LEN
    modifies a
    ensures printed == text && Holds(a[..], 0, [])
  {
    HoldsLength(a[..], 0, text);
    assert a[..][0..] == a[..];
    var len := StrNLen(a[..], MAX_STR_LEN);
    printed := a[..len];
    ghost var was := a[..];
    MemSet(a, 0, NUL, len);
    WipedText(was, text, a[..]);
  }

  lemma WipedText(a: seq<Byte>, text: seq<Byte>, b: seq<Byte>)
    requires Holds(a, 0, text) && b == Overlaid(a, 0, seq(|text|, _ => NUL), |text|)
    ensures Holds(b, 0, [])
  {
    forall i | 0 <= i < |b| ensures b[i] == NUL {
      assert i >= |text| ==> a[i] == a[0..][i];
    }
    assert b[0..] == [] + Zeros(|b|);
  }

  // ---------- printk ----------

  lemma Cleared(a: seq<Byte>)
    requires |a| > 0 && a == Overlaid(a, 0, seq(|a|, _ => NUL), |a|)
    ensures Holds(a, 0, [])
  {
    assert a == Zeros(|a|);
  }

  lemma TextShort(a: seq<Byte>, text: seq<Byte>)
    requires Holds(a, 0, text)
    ensures |text| < |a|
  {
  }

  lemma LiteralText(fmt: seq<Byte>, i: nat)
    ensures var c := Directive(fmt, i).0; c.Literal? ==> |c.text| <= 2 && NoNul(c.text)
  {
  }

  lemma Unfold(fmt: seq<Byte>, n: nat, i: nat, args: seq<Arg>)
    requires Typed(fmt, n, i, args) && i < n
    ensures var (c, len) := Directive(fmt, i);
            if Wants(c) then
              && args != [] && Suits(c, args[0]) && (args[0].Str? ==> NoNul(args[0].text))
              && Typed(fmt, n, i + len, args[1..])
              && Meaning(fmt, n, i, args) == ArgText(c, args[0]) + Meaning(fmt, n, i + len, args[1..])
            else Typed(fmt, n, i + len, args) && Meaning(fmt, n, i, args) == c.text + Meaning(fmt, n, i + len, args)
  {
  }

  lemma NextFits(fmt: seq<Byte>, n: nat, i: nat, args: seq<Arg>, left: nat)
    requires Typed(fmt, n, i, args) && i < n
    ensures var (c, len) := Directive(fmt, i);
            && (Wants(c) ==> args != [] && Suits(c, args[0]) && Typed(fmt, n, i + len, args[1..]))
            && (!Wants(c) ==> Typed(fmt, n, i + len, args))
            && forall t | (if t >= OUTPUT_LEN - LONGEST then 0 else t) == left ::
                 Fits(fmt, n, i, args, t) <==>
                 FitsHere(fmt, i, args, left)
                 && if Wants(c) then Fits(fmt, n, i + len, args[1..], left + |ArgText(c, args[0])|)
                    else Fits(fmt, n, i + len, args, left + |c.text|)
  {
  }

  lemma Done(fmt: seq<Byte>, n: nat, i: nat, args: seq<Arg>)
    requires Typed(fmt, n, i, args) && i >= n
    ensures Meaning(fmt, n, i, args) == [] && forall t: nat :: Fits(fmt, n, i, args, t)
  {
  }

  lemma Regroup(a: seq<Byte>, b: seq<Byte>, c: seq<Byte>, d: seq<Byte>)
    ensures a + b + (c + d) == a + (b + c) + d
  {
  }

  ghost predicate AllShort(chunks: seq<seq<Byte>>) { forall c | c in chunks :: |c| < OUTPUT_LEN }

  // Print and clear the buffer.
  method Flush(buff: array<Byte>, chunks: seq<seq<Byte>>, ghost text: seq<Byte>) returns (chunks': seq<seq<Byte>>)
    requires Holds(buff[..], 0, text) && buff.Length == OUTPUT_LEN && AllShort(chunks)
    modifies buff
    ensures Holds(buff[..], 0, []) && AllShort(chunks') && Flatten(chunks') == Flatten(chunks) + text
  {
    hide Holds;
    FlattenSnoc(chunks, text);
    TextShort(buff[..], text);
    var printed := PrintClearBuff(buff, text);
    chunks' := chunks + [printed];
  }

  // One turn of the loop behind the check for a full buffer; more is what it adds.
  method Convert(buff: array<Byte>, fmt: seq<Byte>, i: nat, args: seq<Arg>, ghost n: nat, ghost text: seq<Byte>)
      returns (next: nat, rest: seq<Arg>, ghost more: seq<Byte>)
    requires Holds(buff[..], 0, text) && buff.Length == OUTPUT_LEN && |text| + LONGEST < OUTPUT_LEN
    requires i < n && Typed(fmt, n, i, args) && FitsHere(fmt, i, args, |text|)
    modifies buff
    ensures next > i && Typed(fmt, n, next, rest) && Holds(buff[..], 0, text + more)
    ensures forall t | (if t >= OUTPUT_LEN - LONGEST then 0 else t) == |text| ::
              Fits(fmt, n, i, args, t) <==> Fits(fmt, n, next, rest, |text + more|)
    ensures Meaning(fmt, n, i, args) == more + Meaning(fmt, n, next, rest)
  {
    hide Holds, Meaning, Typed, Directive, ArgText, Suits, Fits;
    var (c, len) := Directive(fmt, i);
    next, rest := i + len, args;
    Unfold(fmt, n, i, args);
    NextFits(fmt, n, i, args, |text|);
    if Wants(c) {
      FormatArg(buff, c, args[0], text);
      rest := args[1..];
      more := ArgText(c, args[0]);
    } else {
      LiteralText(fmt, i);
      FormatLiteral(buff, c.text, text);
      more := c.text;
    }
  }

  /**
   * The chunks printed, put together, are what the format means, wherever the buffer was flushed, and no
   * chunk overruns it. It fails exactly where a string runs over the end of the buffer.
   */
  method Print(fmt: seq<Byte>, args: seq<Arg>) returns (ok: bool, chunks: seq<seq<Byte>>)
    requires NoNul(fmt) && Typed(fmt, Min(|fmt|, MAX_STR_LEN), 0, args)
    ensures ok <==> Fits(fmt, Min(|fmt|, MAX_STR_LEN), 0, args, 0)
    ensures ok ==> Flatten(chunks) == Meaning(fmt, Min(|fmt|, MAX_STR_LEN), 0, args) && AllShort(chunks)
  {
    hide Holds, Meaning, Typed, Flatten, AllShort, Fits, Directive;
    LengthIs(fmt + [NUL], |fmt|);
    assert (fmt + [NUL])[|fmt|] == NUL;
    var n := StrNLen(fmt + [NUL], MAX_STR_LEN);
    var buff := new Byte[OUTPUT_LEN];
    MemSet(buff, 0, NUL, OUTPUT_LEN);
    Cleared(buff[..]);
    chunks := [];
    ghost var text: seq<Byte> := [];
    var i, rest := 0, args;
    Start(Meaning(fmt, n, 0, args));
    while i < n
      invariant Typed(fmt, n, i, rest) && Holds(buff[..], 0, text) && fresh(buff) && AllShort(chunks)
      invariant Flatten(chunks) + text + Meaning(fmt, n, i, rest) == Meaning(fmt, n, 0, args)
      invariant Fits(fmt, n, i, rest, |text|) <==> Fits(fmt, n, 0, args, 0)
      decreases if i < n then n - i else 0
    {
      HoldsLength(buff[..], 0, text);
      assert buff[..][0..] == buff[..];
      var len := StrNLen(buff[..], MAX_STR_LEN);
      ghost var t := |text|;
      if len >= OUTPUT_LEN - LONGEST {
        chunks := Flush(buff, chunks, text);
        NothingLeft(Flatten(chunks));
        text, len := [], 0;
      }
      if !FitsHere(fmt, i, rest, len) {   // strncat runs over the end of the buffer
        NextFits(fmt, n, i, rest, len);
        assert !Fits(fmt, n, i, rest, t);
        return false, chunks;
      }
      var next;
      ghost var more;
      next, rest, more := Convert(buff, fmt, i, rest, n, text);
      Regroup(Flatten(chunks), text, more, Meaning(fmt, n, next, rest));
      text := text + more;
      i := next;
    }
    Done(fmt, n, i, rest);
    NothingLeft(Flatten(chunks) + text);
    chunks := Flush(buff, chunks, text);
    ok := true;
  }

  lemma Start(m: seq<Byte>)
    ensures Flatten([]) + [] + m == m && AllShort([])
  {
  }

  lemma NothingLeft(a: seq<Byte>)
    ensures a + [] == a
  {
  }

  // ---------- Formats ----------

  /** Text without a percent sign prints as it is. */
  lemma {:induction false} PlainText(fmt: seq<Byte>, n: nat, i: nat, args: seq<Arg>)
    requires i <= n <= |fmt| && NoNul(fmt) && PERCENT !in fmt
    ensures Typed(fmt, n, i, args) && Meaning(fmt, n, i, args) == fmt[i..n]
    decreases n - i
  {
    if i < n {
      PlainText(fmt, n, i + 1, args);
      assert fmt[i..n] == [fmt[i]] + fmt[i + 1..n];
    }
  }

  /** What a format means from some position on depends on nothing in front of it. */
  lemma {:induction false} FromHere(pre: seq<Byte>, post: seq<Byte>, i: nat, args: seq<Arg>)
    ensures var fmt := pre + post;
            && (Typed(fmt, |fmt|, |pre| + i, args) <==> Typed(post, |post|, i, args))
            && (Typed(post, |post|, i, args) ==> Meaning(fmt, |fmt|, |pre| + i, args) == Meaning(post, |post|, i, args))
    decreases |post| - i
  {
    hide Directive, ArgText, Suits, Typed, Meaning;
    var fmt := pre + post;
    if i < |post| {
      SameDirective(pre, post, i);
      var (c, len) := Directive(post, i);
      var rest := if Wants(c) && args != [] then args[1..] else args;
      FromHere(pre, post, i + len, rest);
      TypedStep(fmt, |fmt|, |pre| + i, args);
      TypedStep(post, |post|, i, args);
      if Typed(post, |post|, i, args) {
        Unfold(fmt, |fmt|, |pre| + i, args);
        Unfold(post, |post|, i, args);
      }
    } else {
      AtEnd(fmt, |fmt|, |pre| + i, args);
      AtEnd(post, |post|, i, args);
    }
  }

  lemma AtEnd(fmt: seq<Byte>, n: nat, i: nat, args: seq<Arg>)
    requires i >= n
    ensures Typed(fmt, n, i, args) && Meaning(fmt, n, i, args) == []
  {
  }

  lemma TypedStep(fmt: seq<Byte>, n: nat, i: nat, args: seq<Arg>)
    requires i < n
    ensures var (c, len) := Directive(fmt, i);
            Typed(fmt, n, i, args) <==>
            if Wants(c) then
              && args != [] && Suits(c, args[0]) && (args[0].Str? ==> NoNul(args[0].text))
              && Typed(fmt, n, i + len, args[1..])
            else Typed(fmt, n, i + len, args)
  {
  }

  lemma SameDirective(pre: seq<Byte>, post: seq<Byte>, i: nat)
    ensures Directive(pre + post, |pre| + i) == Directive(post, i)
  {
    forall k: nat ensures At(pre + post, |pre| + k) == At(post, k) {}
    assert At(pre + post, |pre| + i) == At(post, i) && At(pre + post, |pre| + (i + 1)) == At(post, i + 1);
    assert At(pre + post, |pre| + (i + 2)) == At(post, i + 2) && At(pre + post, |pre| + (i + 3)) == At(post, i + 3);
  }

  /**
   * A length before a letter that names no number is dropped: the percent sign and the letter are printed, and every
   * argument is left for the rest of the format. So "%hc" and "%ls" print themselves without the length.
   */
  lemma LengthDropped(pre: seq<Byte>, len: Byte, c: Byte, post: seq<Byte>, args: seq<Arg>)
    requires len in [108, 113, 104] && c != NUL && c !in INT_SPECS && !(len == 108 && c == 108)
    ensures var fmt := pre + [PERCENT, len, c] + post;
            && (Typed(fmt, |fmt|, |pre|, args) <==> Typed(post, |post|, 0, args))
            && (Typed(post, |post|, 0, args) ==>
                  Meaning(fmt, |fmt|, |pre|, args) == [PERCENT, c] + Meaning(post, |post|, 0, args))
  {
    hide Directive, Typed, Meaning;
    var fmt, front := pre + [PERCENT, len, c] + post, pre + [PERCENT, len, c];
    DropsHere(pre, len, c, post);
    FromHere(front, post, 0, args);
    TypedStep(fmt, |fmt|, |pre|, args);
    if Typed(post, |post|, 0, args) { Unfold(fmt, |fmt|, |pre|, args); }
  }

  lemma DropsHere(pre: seq<Byte>, len: Byte, c: Byte, post: seq<Byte>)
    requires len in [108, 113, 104] && c != NUL && c !in INT_SPECS && !(len == 108 && c == 108)
    ensures Directive(pre + [PERCENT, len, c] + post, |pre|) == (Literal([PERCENT, c]), 3)
  {
    var here := [PERCENT, len, c] + post;
    assert pre + [PERCENT, len, c] + post == pre + here;
    SameDirective(pre, here, 0);
    assert here[0] == PERCENT && here[1] == len && here[2] == c;
  }

  // ---------- Formats written for what they are to print ----------

  datatype Item = Char(c: Byte) | Arg(conv: Conv)

  /** What a programmer writes for an item. */
  function Written(it: Item): seq<Byte> {
    match it
    case Char(c) => if c == PERCENT then [PERCENT, PERCENT] else [c]
    case Arg(CharConv) => [PERCENT, 99]
    case Arg(StrConv) => [PERCENT, 115]
    case Arg(PtrConv) => [PERCENT, 112]
    case Arg(IntConv(spec, width)) => if width == 32 then [PERCENT, spec] else [PERCENT, 108, spec]
    case Arg(Literal(text)) => text
  }

  function WrittenAll(items: seq<Item>): seq<Byte> {
    if items == [] then [] else Written(items[0]) + WrittenAll(items[1..])
  }

  predicate Proper(it: Item) {
    match it
    case Char(c) => c != NUL
    case Arg(IntConv(spec, width)) => spec in INT_SPECS && (width == 32 || width == 64)
    case Arg(c) => Wants(c)
  }

  predicate Given(items: seq<Item>, args: seq<Arg>)
    decreases |items|
  {
    items == [] ||
    (Proper(items[0]) &&
     if items[0].Char? then Given(items[1..], args)
     else args != [] && Suits(items[0].conv, args[0]) && (args[0].Str? ==> NoNul(args[0].text))
          && Given(items[1..], args[1..]))
  }

  function Texts(items: seq<Item>, args: seq<Arg>): seq<Byte>
    requires Given(items, args)
    decreases |items|
  {
    if items == [] then []
    else if items[0].Char? then [items[0].c] + Texts(items[1..], args)
    else ArgText(items[0].conv, args[0]) + Texts(items[1..], args[1..])
  }

  lemma WrittenReads(pre: seq<Byte>, it: Item, post: seq<Byte>)
    requires Proper(it)
    ensures Directive(pre + Written(it) + post, |pre|) == (if it.Char? then Literal([it.c]) else it.conv, |Written(it)|)
  {
    var fmt, w := pre + Written(it) + post, Written(it);
    forall k | 0 <= k < |w| ensures At(fmt, |pre| + k) == w[k] { assert fmt[|pre| + k] == w[k]; }
    assert At(fmt, |pre| + 0) == w[0];
    if |w| > 1 { assert At(fmt, |pre| + 1) == w[1]; }
    if |w| > 2 { assert At(fmt, |pre| + 2) == w[2]; }
  }

  /** A format written item by item prints the items' texts, wherever in it one starts. */
  lemma {:induction false} FormatPrintsItems(pre: seq<Byte>, items: seq<Item>, args: seq<Arg>)
    requires Given(items, args)
    ensures var fmt := pre + WrittenAll(items);
            Typed(fmt, |fmt|, |pre|, args) && Meaning(fmt, |fmt|, |pre|, args) == Texts(items, args)
    decreases |items|
  {
    hide Directive, ArgText, Suits;
    if items != [] {
      var w, rest := Written(items[0]), WrittenAll(items[1..]);
      WrittenReads(pre, items[0], rest);
      assert pre + (w + rest) == pre + w + rest;
      FormatPrintsItems(pre + w, items[1..], if items[0].Char? then args else args[1..]);
    }
  }
}
