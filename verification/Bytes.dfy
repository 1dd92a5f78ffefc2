/** Bytes, little-endian fixed-width fields and the option type shared by every layer. */
module Bytes {

  newtype byte = x: int | 0 <= x < 256

  type Data = seq<byte>

  datatype Option<+T> = None | Some(value: T)

  predicate Distinct<T(==)>(s: seq<T>) {
    forall i, j :: 0 <= i < j < |s| ==> s[i] != s[j]
  }

  const PAGE_SIZE: nat := 8192

  const U16_LIMIT: nat := 0x1_0000
  const U32_LIMIT: nat := 0x1_0000_0000
  const I32_LIMIT: int := 0x8000_0000

  function U16At(s: Data, at: nat): (v: nat)
    requires at + 2 <= |s|
    ensures v < U16_LIMIT
  {
    s[at] as nat + 256 * s[at + 1] as nat
  }

  function U32At(s: Data, at: nat): (v: nat)
    requires at + 4 <= |s|
    ensures v < U32_LIMIT
  {
    U16At(s, at) + U16_LIMIT * U16At(s, at + 2)
  }

  /** The two's-complement reading of the four bytes at `at`. */
  function I32At(s: Data, at: nat): (v: int)
    requires at + 4 <= |s|
    ensures -I32_LIMIT <= v < I32_LIMIT
  {
    var u := U32At(s, at);
    if u < I32_LIMIT then u else u - U32_LIMIT
  }

  function U16Bytes(v: nat): (s: Data)
    requires v < U16_LIMIT
    ensures |s| == 2 && U16At(s, 0) == v
  {
    [(v % 256) as byte, (v / 256) as byte]
  }

  function U32Bytes(v: nat): (s: Data)
    requires v < U32_LIMIT
    ensures |s| == 4 && U32At(s, 0) == v
  {
    U16Bytes(v % U16_LIMIT) + U16Bytes(v / U16_LIMIT)
  }

  /** The unsigned value with the same 32 bits as `v`. */
  function Bits32(v: int): (u: nat)
    requires -I32_LIMIT <= v < I32_LIMIT
    ensures u < U32_LIMIT
    ensures u == v || u == v + U32_LIMIT
  {
    if v < 0 then v + U32_LIMIT else v
  }

  lemma Digit(a: nat, rest: nat, n: nat)
    requires a < 256
    ensures n == a + 256 * rest <==> a == n % 256 && rest == n / 256
  {
  }

  /** The digits of a number in base 256. */
  lemma DigitsOf(a: nat, b: nat, c: nat, d: nat, n: nat)
    requires a < 256 && b < 256 && c < 256
    ensures n == a + 256 * b + 65536 * c + 16777216 * d <==>
      a == n % 256 && b == n / 256 % 256 && c == n / 65536 % 256 && d == n / 16777216
  {
    var m := n / 256;
    assert n / 65536 == m / 256 && n / 16777216 == m / 256 / 256;
    Digit(a, b + 256 * (c + 256 * d), n);
    Digit(b, c + 256 * d, m);
    Digit(c, d, m / 256);
  }

  /** Integers are stored the least significant byte first. */
  lemma LittleEndian(v: nat)
    requires v < U32_LIMIT
    ensures var s := U32Bytes(v);
            && s[0] as nat == v % 256 && s[1] as nat == v / 256 % 256
            && s[2] as nat == v / 65536 % 256 && s[3] as nat == v / 16777216
    ensures v < U16_LIMIT ==> U16Bytes(v)[0] as nat == v % 256 && U16Bytes(v)[1] as nat == v / 256
  {
    hide U32Bytes, U32At;
    var s := U32Bytes(v);
    ReadLittleEndian(s, 0);
    DigitsOf(s[0] as nat, s[1] as nat, s[2] as nat, s[3] as nat, v);
  }

  lemma ReadLittleEndian(s: Data, at: nat)
    requires at + 4 <= |s|
    ensures U16At(s, at) == s[at] as nat + 256 * s[at + 1] as nat
    ensures U32At(s, at)
         == s[at] as nat + 256 * s[at + 1] as nat + 65536 * s[at + 2] as nat + 16777216 * s[at + 3] as nat
    ensures I32At(s, at) == U32At(s, at) - if s[at + 3] >= 128 then 4294967296 else 0
  {
  }

  /** A field reads the same inside a buffer as on its own. */
  lemma FieldReads(b: Data, at: nat, f: Data)
    requires at + |f| <= |b| && b[at..at + |f|] == f
    ensures |f| >= 2 ==> U16At(b, at) == U16At(f, 0)
    ensures |f| >= 4 ==> U32At(b, at) == U32At(f, 0) && I32At(b, at) == I32At(f, 0)
  {
    if |f| >= 2 {
      assert f[0] == b[at] && f[1] == b[at + 1];
    }
    if |f| >= 4 {
      assert f[2] == b[at + 2] && f[3] == b[at + 3];
    }
  }

  /** A borrowed stretch of a buffer: what a `const char*` plus a length denotes.
      Its meaning follows the buffer, so it can change when the buffer is reused. */
  datatype Span = Span(buf: array<byte>, at: nat, len: nat) {
    predicate InBounds() {
      at + len <= buf.Length
    }

    function Read(): Data
      requires InBounds()
      reads buf
    {
      buf[at..at + len]
    }
  }

  /** Positions `lo..hi` hold the same bytes in both buffers. */
  ghost predicate Agree(s: Data, t: Data, lo: int, hi: int)
  {
    forall k :: lo <= k < hi && 0 <= k < |s| && k < |t| ==> s[k] == t[k]
  }

  /** Copies `d` into the buffer at `at`, the memcpy of the source. */
  method CopyInto(a: array<byte>, at: nat, d: Data)
    requires at + |d| <= a.Length
    modifies a
    ensures a[at..at + |d|] == d
    ensures Agree(a[..], old(a[..]), 0, at) && Agree(a[..], old(a[..]), at + |d|, a.Length)
  {
    for k := 0 to |d|
      invariant forall j :: 0 <= j < k ==> a[at + j] == d[j]
      invariant forall j :: 0 <= j < a.Length && !(at <= j < at + k) ==> a[j] == old(a[j])
    {
      a[at + k] := d[k];
    }
  }

  method StoreU16(a: array<byte>, at: nat, v: nat)
    requires at + 2 <= a.Length && v < U16_LIMIT
    modifies a
    ensures U16At(a[..], at) == v
    ensures Agree(a[..], old(a[..]), 0, at) && Agree(a[..], old(a[..]), at + 2, a.Length)
  {
    a[at] := (v % 256) as byte;
    a[at + 1] := (v / 256) as byte;
  }

  method StoreI32(a: array<byte>, at: nat, v: int)
    requires at + 4 <= a.Length && -I32_LIMIT <= v < I32_LIMIT
    modifies a
    ensures I32At(a[..], at) == v
    ensures Agree(a[..], old(a[..]), 0, at) && Agree(a[..], old(a[..]), at + 4, a.Length)
  {
    var u := Bits32(v);
    StoreU16(a, at, u % U16_LIMIT);
    ghost var mid := a[..];
    StoreU16(a, at + 2, u / U16_LIMIT);
    assert U16At(a[..], at) == U16At(mid, at);
  }
}
