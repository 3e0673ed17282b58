// The memory kmalloc.c works in: bytes, and the headers that still stand unbroken in them. A byte that
// was never written has no value here.
module Memory {

  const HEADER_BYTES := 32

  type Byte = x: int | 0 <= x < 256

  datatype Header = Header(ptr: int, size: int, free: bool, next: int, prev: int)

  datatype Memory = Memory(hdr: map<int, Header>, bytes: map<int, Byte>)

  /** Byte k of a number, the lowest first. */
  function Le(v: int, k: nat): Byte
    decreases k
  {
    if k == 0 then v % 256 else Le(v / 256, k - 1)
  }

  /** The offsets of a header's fields; three bytes behind the flag are never written. */
  predicate IsField(k: int) { 0 <= k < 13 || 16 <= k < 32 }

  function HeaderByte(h: Header, k: int): Byte
    requires IsField(k)
  {
    if k < 8 then Le(h.ptr, k)
    else if k < 12 then Le(h.size, k - 8)
    else if k == 12 then (if h.free then 1 else 0)
    else if k < 24 then Le(h.next, k - 16)
    else Le(h.prev, k - 24)
  }

  /** x is the address of a field byte of a header at a. */
  predicate FieldAt(a: int, x: int) { IsField(x - a) }

  /** The bytes from a on spell out the fields of h. */
  ghost predicate Spelled(b: map<int, Byte>, a: int, h: Header) {
    forall x {:trigger FieldAt(a, x)} | FieldAt(a, x) :: x in b && b[x] == HeaderByte(h, x - a)
  }

  /** The bytes of a header at a. */
  function HeaderBytes(a: int, h: Header): (b: map<int, Byte>)
    ensures Spelled(b, a, h) && forall x | x in b :: a <= x < a + HEADER_BYTES
  {
    map x | a <= x < a + HEADER_BYTES && FieldAt(a, x) :: HeaderByte(h, x - a)
  }

  ghost predicate AllSpelled(m: Memory) {
    forall a {:trigger Spelled(m.bytes, a, m.hdr[a])} | a in m.hdr :: Spelled(m.bytes, a, m.hdr[a])
  }

  /** Memory in which every header stands in the bytes. */
  type Store = m: Memory | AllSpelled(m) witness Memory(map[], map[])

  /** The 32-bit number at an address, where all four of its bytes are known. */
  function Word32(b: map<int, Byte>, a: int): int
    requires a in b && a + 1 in b && a + 2 in b && a + 3 in b
  {
    Join32(b[a], b[a + 1], b[a + 2], b[a + 3])
  }

  function Join32(b0: Byte, b1: Byte, b2: Byte, b3: Byte): int { b0 + 0x100 * b1 + 0x1_0000 * b2 + 0x100_0000 * b3 }

  lemma JoinLe(v: int)
    ensures Join32(Le(v, 0), Le(v, 1), Le(v, 2), Le(v, 3)) == v % 0x1_0000_0000
  {
    var a, b, c := v / 0x100, v / 0x1_0000, v / 0x100_0000;
    assert Le(v, 1) == Le(a, 0) && Le(v, 2) == Le(a, 1) == Le(a / 0x100, 0);
    assert Le(v, 3) == Le(a, 2) == Le(a / 0x100, 1) == Le(a / 0x100 / 0x100, 0);
    assert a / 0x100 == b && b / 0x100 == c && c / 0x100 == v / 0x1_0000_0000;
  }

  predicate Same(b: map<int, Byte>, c: map<int, Byte>, a: int) {
    (a in b <==> a in c) && (a in b ==> b[a] == c[a])
  }

  /** Headers lying wholly inside [lo, hi) have survived. */
  ghost predicate SameHeaders(h: map<int, Header>, k: map<int, Header>, lo: int, hi: int) {
    forall a | a in h && lo <= a && a + HEADER_BYTES <= hi :: a in k && k[a] == h[a]
  }

  ghost predicate HeadersBelow(h: map<int, Header>, k: map<int, Header>, hi: int) {
    forall a | a in h && a + HEADER_BYTES <= hi :: a in k && k[a] == h[a]
  }

  /** Every header that does not overlap [lo, hi) has survived. */
  ghost predicate HeadersOutside(h: map<int, Header>, k: map<int, Header>, lo: int, hi: int) {
    forall a | a in h && (a + HEADER_BYTES <= lo || hi <= a) :: a in k && k[a] == h[a]
  }

  ghost predicate BytesOutside(b: map<int, Byte>, c: map<int, Byte>, lo: int, hi: int) {
    forall a {:trigger a in b} {:trigger a in c} | !(lo <= a < hi) :: (a in b <==> a in c) && (a in b ==> b[a] == c[a])
  }

  /** Bytes change at most where the fields of a header at a are. */
  ghost predicate FieldsOnly(b: map<int, Byte>, c: map<int, Byte>, a: int) {
    forall x {:trigger x in b} {:trigger x in c} | !FieldAt(a, x) :: (x in b <==> x in c) && (x in b ==> b[x] == c[x])
  }

  /** m becomes n by storing header h at address a. */
  ghost predicate HeaderStored(m: Memory, n: Memory, a: int, h: Header) {
    && a in n.hdr && n.hdr[a] == h && Spelled(n.bytes, a, h)
    && HeadersOutside(m.hdr, n.hdr, a, a + HEADER_BYTES)
    && FieldsOnly(m.bytes, n.bytes, a)
  }

  /** m becomes n by writing the one byte at address a. */
  ghost predicate ByteStored(m: Memory, n: Memory, a: int) {
    HeadersOutside(m.hdr, n.hdr, a, a + 1) && BytesOutside(m.bytes, n.bytes, a, a + 1)
  }

  /** The n bytes at dest in c are those that were at src in b, where known. */
  ghost predicate Copied(b: map<int, Byte>, src: int, c: map<int, Byte>, dest: int, n: int) {
    forall a {:trigger a in c} | dest <= a < dest + n ::
      (src + (a - dest) in b <==> a in c) && (a in c ==> b[src + (a - dest)] == c[a])
  }

  ghost predicate Filled(b: map<int, Byte>, lo: int, hi: int, v: Byte) {
    forall a {:trigger a in b} | lo <= a < hi :: a in b && b[a] == v
  }

  ghost predicate SameBytes(b: map<int, Byte>, c: map<int, Byte>, lo: int, hi: int) {
    forall a {:trigger a in b} {:trigger a in c} | lo <= a < hi :: (a in b <==> a in c) && (a in b ==> b[a] == c[a])
  }
}
