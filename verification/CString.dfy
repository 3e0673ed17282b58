// string.c: the byte loops that printk and the screen rest on. A pointer is an array and an offset into it, or, for a
// string that is only read, the bytes from the pointer on.
module CString {

  type Byte = b: int | 0 <= b < 256

  const NUL: Byte := 0
  const MAX_STR_LEN := 65536

  function Min(a: nat, b: nat): nat { if a < b then a else b }

  /** How many bytes come before the first NUL. */
  function Length(s: seq<Byte>): (n: nat)
    ensures n <= |s|
  {
    if s == [] || s[0] == NUL then 0 else 1 + Length(s[1..])
  }

  predicate NoNul(s: seq<Byte>) { NUL !in s }

  lemma {:induction false} LengthMeaning(s: seq<Byte>)
    ensures (forall i | 0 <= i < Length(s) :: s[i] != NUL) && (Length(s) < |s| ==> s[Length(s)] == NUL)
  {
    if s != [] && s[0] != NUL { LengthMeaning(s[1..]); }
  }

  lemma {:induction false} LengthIs(s: seq<Byte>, n: nat)
    requires n <= |s| && (forall i | 0 <= i < n :: s[i] != NUL) && (n < |s| ==> s[n] == NUL)
    ensures Length(s) == n
  {
    if n > 0 { LengthIs(s[1..], n - 1); }
  }

  function Zeros(n: nat): seq<Byte> { seq(n, _ => NUL) }

  /** A string with the first n bytes of another one laid over it at offset d. */
  function Overlaid(was: seq<Byte>, d: nat, src: seq<Byte>, n: nat): (r: seq<Byte>)
    requires d + n <= |was| && n <= |src|
    ensures |r| == |was|
  {
    was[..d] + src[..n] + was[d + n..]
  }

  lemma OverlayNone(was: seq<Byte>, d: nat, src: seq<Byte>)
    requires d <= |was|
    ensures Overlaid(was, d, src, 0) == was
  {
  }

  lemma OverlayStep(was: seq<Byte>, d: nat, src: seq<Byte>, n: nat)
    requires d + n < |was| && n < |src|
    ensures Overlaid(was, d, src, n)[d + n := src[n]] == Overlaid(was, d, src, n + 1)
  {
  }

  method MemSet(a: array<Byte>, d: nat, c: Byte, n: nat)
    requires d + n <= a.Length
    modifies a
    ensures a[..] == Overlaid(old(a[..]), d, seq(n, _ => c), n)
  {
    hide Overlaid;
    ghost var was, cs := a[..], seq(n, _ => c);
    var i := 0;
    OverlayNone(was, d, cs);
    while i < n
      invariant i <= n && a[..] == Overlaid(was, d, cs, i)
    {
      OverlayStep(was, d, cs, i);
      a[d + i] := c;
      assert a[..] == Overlaid(was, d, cs, i)[d + i := c];
      i := i + 1;
    }
  }

  // ---------- Copying forwards ----------

  /** What a byte-by-byte copy of n bytes from s to d, lowest first, leaves in memory. */
  function Copied(b: seq<Byte>, d: nat, s: nat, n: nat): (r: seq<Byte>)
    requires d + n <= |b| && s + n <= |b|
    ensures |r| == |b|
  {
    if n == 0 then b
    else
      var r := Copied(b, d, s, n - 1);
      r[d + n - 1 := r[s + n - 1]]
  }

  /** k reduced to one of the first p steps. */
  function Phase(k: nat, p: nat): (r: nat)
    requires p > 0
    ensures r < p && r <= k
  {
    if k < p then k else Phase(k - p, p)
  }

  lemma {:induction false} CopiedOutside(b: seq<Byte>, d: nat, s: nat, n: nat, j: nat)
    requires d + n <= |b| && s + n <= |b| && j < |b| && !(d <= j < d + n)
    ensures Copied(b, d, s, n)[j] == b[j]
  {
    if n > 0 { CopiedOutside(b, d, s, n - 1, j); }
  }

  lemma {:induction false} CopiedAt(b: seq<Byte>, d: nat, s: nat, n: nat, k: nat)
    requires d + n <= |b| && s + n <= |b| && k < n
    ensures d <= s || s + n <= d ==> Copied(b, d, s, n)[d + k] == b[s + k]
    ensures s < d ==> Copied(b, d, s, n)[d + k] == b[s + Phase(k, d - s)]
    decreases n
  {
    if k < n - 1 {
      CopiedAt(b, d, s, n - 1, k);
    } else if s < d <= s + k {
      CopiedAt(b, d, s, n - 1, k - (d - s));
    } else {
      CopiedOutside(b, d, s, n - 1, s + k);
    }
  }

  /** A copy is what it should be when the destination is below the source, or the two do not overlap. */
  lemma CopiedMeaning(b: seq<Byte>, d: nat, s: nat, n: nat)
    requires d + n <= |b| && s + n <= |b| && (d <= s || s + n <= d)
    ensures Copied(b, d, s, n) == b[..d] + b[s..s + n] + b[d + n..]
  {
    forall j | 0 <= j < |b| ensures Copied(b, d, s, n)[j] == (b[..d] + b[s..s + n] + b[d + n..])[j] {
      if d <= j < d + n { CopiedAt(b, d, s, n, j - d); } else { CopiedOutside(b, d, s, n, j); }
    }
  }

  /** Into its own source it repeats the first d - s bytes. */
  lemma CopiedOverlap(b: seq<Byte>, d: nat, s: nat, n: nat, k: nat)
    requires s < d <= s + n && d + n <= |b| && k < n
    ensures Copied(b, d, s, n)[d + k] == b[s + Phase(k, d - s)]
  {
    CopiedAt(b, d, s, n, k);
  }

  method MemCpy(a: array<Byte>, d: nat, s: nat, n: nat)
    requires d + n <= a.Length && s + n <= a.Length
    modifies a
    ensures a[..] == Copied(old(a[..]), d, s, n)
  {
    var i := 0;
    while i < n
      invariant i <= n && a[..] == Copied(old(a[..]), d, s, i)
    {
      ghost var was := a[..];
      a[d + i] := a[s + i];
      assert a[..] == was[d + i := was[s + i]];
      i := i + 1;
    }
  }

  /** strnlen on a string with a terminator, or with maxlen bytes to look at. */
  method StrNLen(s: seq<Byte>, maxlen: nat) returns (len: nat)
    requires NUL in s || maxlen <= |s|
    ensures len == Min(Length(s), maxlen)
  {
    LengthMeaning(s);
    if maxlen == 0 || s[0] == NUL {
      return 0;
    }
    len := 0;
    while s[len] != NUL
      invariant len < Min(Length(s) + 1, maxlen) && len < |s|
      decreases |s| - len
    {
      len := len + 1;
      if len >= maxlen { break; }
    }
  }

  /** strncpy: at most n bytes of the string, and no terminator. */
  method StrNCpy(a: array<Byte>, d: nat, src: seq<Byte>, n: nat)
    requires NUL in src || n < |src|
    requires d + Min(Length(src), n) <= a.Length
    modifies a
    ensures a[..] == Overlaid(old(a[..]), d, src, Min(Length(src), n))
  {
    hide Length, Overlaid;
    ghost var was, len := a[..], Length(src);
    LengthMeaning(src);
    OverlayNone(was, d, src);
    if src[0] == NUL || n == 0 {
      return;
    }
    var i := 0;
    while true
      invariant i < n && i < len && a[..] == Overlaid(was, d, src, i)
      decreases n - i
    {
      OverlayStep(was, d, src, i);
      a[d + i] := src[i];
      assert a[..] == Overlaid(was, d, src, i)[d + i := src[i]];
      i := i + 1;
      if src[i] == NUL || i >= n { break; }
    }
  }

  /** The array holds, from off on, a text, and nothing but zeros behind it. */
  ghost predicate Holds(a: seq<Byte>, off: nat, text: seq<Byte>) {
    off + |text| < |a| && a[off..] == text + Zeros(|a| - off - |text|) && NoNul(text)
  }

  lemma HoldsLength(a: seq<Byte>, off: nat, text: seq<Byte>)
    requires Holds(a, off, text)
    ensures Length(a[off..]) == |text| && NUL in a[off..]
  {
    assert a[off..][|text|] == NUL;
    LengthIs(a[off..], |text|);
  }

  /** strncat, onto a text with room behind it; the array is shorter than the strings strlen can measure. */
  method StrNCat(a: array<Byte>, off: nat, src: seq<Byte>, n: nat, ghost text: seq<Byte>)
    requires Holds(a[..], off, text) && a.Length < MAX_STR_LEN && (NUL in src || n < |src|)
    requires off + |text| + Min(Length(src), n) < a.Length
    modifies a
    ensures Holds(a[..], off, text + src[..Min(Length(src), n)]) && a[..off] == old(a[..off])
  {
    LengthMeaning(src);
    if src[0] == NUL || n == 0 {
      assert text + src[..0] == text;
      return;
    }
    HoldsLength(a[..], off, text);
    assert a[..][off..] == a[off..];
    var len := StrNLen(a[off..], MAX_STR_LEN);
    ghost var was, m := a[..], Min(Length(src), n);
    StrNCpy(a, off + len, src, n);
    Appended(was, off, text, src[..m], a[..]);
  }

  lemma Appended(a: seq<Byte>, off: nat, text: seq<Byte>, more: seq<Byte>, b: seq<Byte>)
    requires Holds(a, off, text) && NoNul(more) && off + |text| + |more| < |a|
    requires b == Overlaid(a, off + |text|, more, |more|)
    ensures Holds(b, off, text + more) && b[..off] == a[..off]
  {
    forall i | off <= i < |b| ensures b[i] == (text + more + Zeros(|b| - off - |text + more|))[i - off] {
      assert a[i] == a[off..][i - off];
    }
    assert b[off..] == text + more + Zeros(|b| - off - |text + more|);
  }
}
