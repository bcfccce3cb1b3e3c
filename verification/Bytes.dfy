/** Bytes and the little-endian fixed-width integers the file formats copy out of memory. */
module Bytes {

  type byte = b: int | 0 <= b < 256

  const TWO_32 := 0x1_0000_0000
  const TWO_64 := 0x1_0000_0000_0000_0000
  const TWO_63 := 0x8000_0000_0000_0000

  type uint32 = n: int | 0 <= n < TWO_32
  type int64 = n: int | -TWO_63 <= n < TWO_63

  /** A checksum: any function from bytes to 32 bits. */
  type Crc = seq<byte> -> uint32

  // ---- Slices of byte strings ----

  lemma SliceOfSlice<T>(s: seq<T>, a: nat, b: nat, i: nat, j: nat)
    requires a <= b <= |s| && i <= j <= b - a
    ensures s[a..b][i..j] == s[a + i..a + j]
  {
    assert |s[a..b][i..j]| == |s[a + i..a + j]| == j - i;
    forall k | 0 <= k < j - i ensures s[a..b][i..j][k] == s[a + i..a + j][k] {
      assert s[a..b][i + k] == s[a + (i + k)];
    }
  }

  lemma DropOfTake<T>(s: seq<T>, k: nat, n: nat)
    requires k <= n <= |s|
    ensures s[..n][k..] == s[k..][..n - k]
  {
  }

  lemma DropDrop<T>(s: seq<T>, a: nat, b: nat)
    requires a + b <= |s|
    ensures s[a..][b..] == s[a + b..]
  {
  }

  /** If a + row begins a + rest, row begins rest. */
  lemma CancelPrefix<T>(a: seq<T>, row: seq<T>, rest: seq<T>)
    requires a + row <= a + rest
    ensures |row| <= |rest| && rest[..|row|] == row && a + rest == (a + row) + rest[|row|..]
  {
    assert (a + rest)[|a|..] == rest && (a + row)[|a|..] == row;
    assert (a + rest)[..|a + row|] == a + row;
    forall k | 0 <= k < |row| ensures rest[k] == row[k] {
      assert (a + rest)[..|a + row|][|a| + k] == (a + row)[|a| + k];
    }
  }

  lemma CutInTwo<T>(s: seq<T>, a: nat, b: nat, tail: seq<T>)
    requires a + b <= |s|
    ensures var kept := s[a..][..b] + tail;
      s[..a + b] + tail == s[..a] + kept && (s[..a] + kept)[a..] == kept
  {
    assert s[..a + b] == s[..a] + s[a..][..b];
  }

  lemma ConcatAssoc<T>(a: seq<T>, b: seq<T>, c: seq<T>)
    ensures (a + b) + c == a + (b + c)
  {
  }

  // ---- Little-endian integers ----

  function Pow256(k: nat): (r: nat)
    ensures r >= 1
  {
    if k == 0 then 1 else 256 * Pow256(k - 1)
  }

  /** The low k bytes of n, least significant first. */
  function LE(n: nat, k: nat): (r: seq<byte>)
    ensures |r| == k
  {
    if k == 0 then [] else [n % 256] + LE(n / 256, k - 1)
  }

  function FromLE(s: seq<byte>): nat {
    if s == [] then 0 else s[0] + 256 * FromLE(s[1..])
  }

  /** Writing keeps the low bytes; reading them back gives n modulo the width. */
  lemma {:induction false} LERoundTrip(n: nat, k: nat)
    ensures FromLE(LE(n, k)) == n % Pow256(k)
  {
    if k > 0 {
      LERoundTrip(n / 256, k - 1);
      assert LE(n, k)[1..] == LE(n / 256, k - 1);
      ModSplit(n, Pow256(k - 1));
    }
  }

  lemma ModSplit(n: nat, p: nat)
    requires p >= 1
    ensures n % (256 * p) == n % 256 + 256 * ((n / 256) % p)
  {
    var q, r := (n / 256) / p, (n / 256) % p;
    assert n / 256 == q * p + r;
    assert n == 256 * (n / 256) + n % 256;
    var low := n % 256 + 256 * r;
    assert 256 * (q * p + r) == (256 * p) * q + 256 * r by { Distribute(q, p, r); }
    assert n == (256 * p) * q + low;
    assert low < 256 * p;
    ModUnique(n, 256 * p, q, low);
  }

  lemma Distribute(q: nat, p: nat, r: nat)
    ensures 256 * (q * p + r) == (256 * p) * q + 256 * r
  {
  }

  lemma ModUnique(n: nat, m: nat, q: nat, r: nat)
    requires m > 0 && r < m && n == m * q + r
    ensures n % m == r
  {
    var q', r' := n / m, n % m;
    assert n == m * q' + r';
    assert m * (q - q') == r' - r;
    assert m * (q' - q) == -(m * (q - q'));
    if q > q' { AtLeast(m, q - q'); }
    if q < q' { AtLeast(m, q' - q); }
  }

  lemma SmallMod(n: nat, m: nat)
    ensures n < m ==> n % m == n
  {
  }

  lemma AtLeast(m: nat, k: nat)
    requires k >= 1
    ensures m * k >= m
  {
  }

  lemma {:induction false} FromLEBound(s: seq<byte>)
    ensures FromLE(s) < Pow256(|s|)
  {
    if s != [] { FromLEBound(s[1..]); }
  }

  lemma Widths()
    ensures Pow256(4) == TWO_32 && Pow256(8) == TWO_64
  {
    assert Pow256(2) == 0x1_0000;
    assert Pow256(3) == 0x100_0000 && Pow256(4) == 0x1_0000_0000;
    assert Pow256(5) == 0x100_0000_0000 && Pow256(6) == 0x1_0000_0000_0000;
    assert Pow256(7) == 0x100_0000_0000_0000;
  }

  /** A 32-bit length as stored: larger sizes lose their high bits. */
  function U32(n: nat): (r: seq<byte>)
    ensures |r| == 4
  {
    LE(n, 4)
  }

  function ReadU32(s: seq<byte>): uint32
    requires |s| == 4
  {
    Widths();
    FromLEBound(s);
    FromLE(s)
  }

  lemma U32RoundTrip(n: nat)
    ensures ReadU32(U32(n)) == n % TWO_32
    ensures n < TWO_32 ==> ReadU32(U32(n)) == n
  {
    Widths();
    LERoundTrip(n, 4);
    SmallMod(n, TWO_32);
  }

  /** A signed 64-bit key in two's complement. */
  function I64(k: int): (r: seq<byte>)
    ensures |r| == 8
  {
    LE(k % TWO_64, 8)
  }

  function ReadI64(s: seq<byte>): int64
    requires |s| == 8
  {
    Widths();
    FromLEBound(s);
    var n := FromLE(s);
    if n >= TWO_63 then n - TWO_64 else n
  }

  lemma I64RoundTrip(k: int64)
    ensures ReadI64(I64(k)) == k
  {
    Widths();
    var n := k % TWO_64;
    LERoundTrip(n, 8);
    hide LE, FromLE, Pow256;
    SmallMod(n, TWO_64);
    assert n == if k < 0 then k + TWO_64 else k;
  }

  /** Reading and writing again gives the same bytes. */
  lemma {:induction false} LEOfFromLE(s: seq<byte>)
    ensures LE(FromLE(s), |s|) == s
  {
    if s != [] {
      LEOfFromLE(s[1..]);
      assert FromLE(s) % 256 == s[0] && FromLE(s) / 256 == FromLE(s[1..]);
    }
  }

  lemma WrittenAgain(s: seq<byte>)
    ensures |s| == 4 ==> U32(ReadU32(s)) == s
    ensures |s| == 8 ==> I64(ReadI64(s)) == s && U64(ReadU64(s)) == s
  {
    Widths();
    LEOfFromLE(s);
    if |s| == 8 {
      FromLEBound(s);
      assert ReadI64(s) % TWO_64 == FromLE(s);
    }
  }

  function U64(n: nat): (r: seq<byte>)
    ensures |r| == 8
  {
    LE(n, 8)
  }

  function ReadU64(s: seq<byte>): nat
    requires |s| == 8
  {
    FromLE(s)
  }

  lemma U64RoundTrip(n: nat)
    ensures n < TWO_64 ==> ReadU64(U64(n)) == n
  {
    Widths();
    LERoundTrip(n, 8);
    SmallMod(n, TWO_64);
  }
}
