/** What several modules share: bytes, machine words, pages, little-endian fields
    and division with a variable divisor. */
module Machine {

  const W16: nat := 0x1_0000
  const W32: nat := 0x1_0000_0000
  const WORD: nat := 0x1_0000_0000_0000_0000
  const PAGE: nat := 4096

  type Byte = x: nat | x < 256

  function Min(a: nat, b: nat): nat { if a < b then a else b }

  // Little-endian fields.

  function U16(b: seq<Byte>, at: nat): nat
    requires at + 2 <= |b|
  {
    b[at] as nat + 0x100 * (b[at + 1] as nat)
  }

  function U32(b: seq<Byte>, at: nat): nat
    requires at + 4 <= |b|
  {
    U16(b, at) + 0x1_0000 * U16(b, at + 2)
  }

  function U64(b: seq<Byte>, at: nat): nat
    requires at + 8 <= |b|
  {
    U32(b, at) + 0x1_0000_0000 * U32(b, at + 4)
  }

  function Le16(x: nat): (b: seq<Byte>)
    requires x < W16
    ensures |b| == 2
  {
    [x % 0x100, x / 0x100]
  }

  function Le32(x: nat): (b: seq<Byte>)
    requires x < W32
    ensures |b| == 4
  {
    Le16(x % W16) + Le16(x / W16)
  }

  function Le64(x: nat): (b: seq<Byte>)
    requires x < WORD
    ensures |b| == 8
  {
    Le32(x % W32) + Le32(x / W32)
  }

  /** Reading a field gives back what was put there. */
  lemma Field16(b: seq<Byte>, at: nat, x: nat)
    requires x < W16 && at + 2 <= |b| && b[at..at + 2] == Le16(x)
    ensures U16(b, at) == x
  {
    assert b[at] == b[at..at + 2][0] && b[at + 1] == b[at..at + 2][1];
  }

  lemma Field32(b: seq<Byte>, at: nat, x: nat)
    requires x < W32 && at + 4 <= |b| && b[at..at + 4] == Le32(x)
    ensures U32(b, at) == x
  {
    assert b[at..at + 2] == b[at..at + 4][..2] && b[at + 2..at + 4] == b[at..at + 4][2..];
    Field16(b, at, x % W16);
    Field16(b, at + 2, x / W16);
  }

  lemma Field64(b: seq<Byte>, at: nat, x: nat)
    requires x < WORD && at + 8 <= |b| && b[at..at + 8] == Le64(x)
    ensures U64(b, at) == x
  {
    assert b[at..at + 4] == b[at..at + 8][..4] && b[at + 4..at + 8] == b[at..at + 8][4..];
    Field32(b, at, x % W32);
    Field32(b, at + 4, x / W32);
  }

  // Division.

  /** Quotient and remainder are unique. */
  lemma QuotRem(q: int, r: nat, n: nat)
    requires r < n
    ensures (q * n + r) / n == q && (q * n + r) % n == r
  {
    var x := q * n + r;
    assert (x / n - q) * n == r - x % n;
    Multiple(x / n - q, n, r - x % n);
  }

  /** The only multiple of `n` strictly between `-n` and `n` is 0. */
  lemma Multiple(d: int, n: int, r: int)
    requires n > 0 && -n < r < n && d * n == r
    ensures d == 0
  {
    if d >= 1 { AtLeast(d, n); } else if d <= -1 { AtLeast(-d, n); }
  }

  lemma AtLeast(d: int, n: int)
    requires d >= 1 && n > 0
    ensures d * n >= n && -d * n == -(d * n)
  {}
}
