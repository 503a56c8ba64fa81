/** Bytes and words, powers of two, and the optional result, shared by every component. */
module Common {

  newtype byte = x: int | 0 <= x < 256

  const U32_MODULUS := 0x1_0000_0000
  const U64_MODULUS := 0x1_0000_0000_0000_0000

  type u32 = x: int | 0 <= x < U32_MODULUS

  datatype Option<+T> = None | Some(value: T)

  function Min(a: int, b: int): int {
    if a <= b then a else b
  }

  function Max(a: int, b: int): int {
    if a <= b then b else a
  }

  function Concat(pieces: seq<seq<byte>>): (whole: seq<byte>)
    decreases |pieces|
  {
    if pieces == [] then [] else pieces[0] + Concat(pieces[1..])
  }

  lemma Regroup<T>(a: seq<T>, b: seq<T>, c: seq<T>)
    ensures a + b + c == a + (b + c)
  {
  }

  lemma Times(a: nat, b: nat, c: nat)
    requires a <= b
    ensures a * c <= b * c
  {
  }

  /** A quotient and a remainder are what they add up to. */
  lemma Divided(n: int, q: int, r: nat, d: nat)
    requires n == q * d + r && r < d
    ensures n / d == q && n % d == r
  {
    assert n == (n / d) * d + n % d;
    SameMultiple(n / d, q, d);
  }

  /** Two multiples less than one apart are the same. */
  lemma SameMultiple(a: int, b: int, d: int)
    requires -d < a * d - b * d < d
    ensures a == b
  {
    assert a * d - b * d == (a - b) * d;
    Magnitude(a - b, d);
  }

  lemma Magnitude(n: int, d: int)
    requires 0 < d
    ensures n == 0 || n * d >= d || n * d <= -d
  {
  }

  /** The little-endian number a run of bytes spells. */
  function Le(s: seq<byte>): nat
    decreases |s|
  {
    if s == [] then 0 else s[0] as int + 256 * Le(s[1..])
  }

  /** The number `n` in `size` bytes, least significant first. */
  function LeBytes(n: nat, size: nat): (bytes: seq<byte>)
    ensures |bytes| == size
    decreases size
  {
    if size == 0 then [] else [(n % 256) as byte] + LeBytes(n / 256, size - 1)
  }

  /** How many numbers `size` bytes spell. */
  function Range(size: nat): (r: nat)
    ensures 0 < r
  {
    if size == 0 then 1 else 256 * Range(size - 1)
  }

  lemma {:induction false} LeOfLeBytes(n: nat, size: nat)
    requires n < Range(size)
    ensures Le(LeBytes(n, size)) == n
    decreases size
  {
    if size != 0 {
      LeOfLeBytes(n / 256, size - 1);
      assert LeBytes(n, size)[1..] == LeBytes(n / 256, size - 1);
    }
  }

  lemma Ranges()
    ensures Range(1) == 256 && Range(2) == 65536 && Range(4) == U32_MODULUS && Range(8) == U64_MODULUS
  {
    assert Range(2) == 256 * Range(1);
    assert Range(4) == 256 * (256 * Range(2));
    assert Range(8) == 256 * (256 * (256 * (256 * Range(4))));
  }

  lemma Regrouped(a: nat, b: nat, c: nat)
    ensures a * b * c == a * (b * c)
  {
  }

  /** What comes behind counts for more. */
  lemma {:induction false} LeOfBoth(a: seq<byte>, b: seq<byte>)
    ensures Le(a + b) == Le(a) + Range(|a|) * Le(b)
    decreases |a|
  {
    if a == [] {
      assert a + b == b;
    } else {
      LeOfBoth(a[1..], b);
      assert (a + b)[1..] == a[1..] + b;
      Regrouped(256, Range(|a| - 1), Le(b));
    }
  }

  lemma LeOfFour(s: seq<byte>)
    requires |s| == 4
    ensures Le(s) == s[0] as int + 0x100 * s[1] as int + 0x1_0000 * s[2] as int + 0x100_0000 * s[3] as int
  {
    assert s[1..][1..] == s[2..] && s[2..][1..] == s[3..] && s[3..][1..] == [];
    assert Le(s[3..]) == s[3] as int;
    assert Le(s[2..]) == s[2] as int + 256 * Le(s[3..]);
    assert Le(s[1..]) == s[1] as int + 256 * Le(s[2..]);
  }

  function Pow2(n: nat): (p: nat)
    ensures 0 < p
  {
    if n == 0 then 1 else 2 * Pow2(n - 1)
  }

  lemma Pow2Adds(a: nat, b: nat)
    ensures Pow2(a + b) == Pow2(a) * Pow2(b)
  {
    if a != 0 {
      Pow2Adds(a - 1, b);
    }
  }

  lemma Pow2Of8()
    ensures Pow2(8) == 256
  {
  }

  lemma Pow2Of32()
    ensures Pow2(32) == U32_MODULUS
  {
    hide Pow2;
    Pow2Of8();
    Pow2Adds(8, 8);
    Pow2Adds(16, 16);
  }

  lemma Pow2Of64()
    ensures Pow2(64) == U64_MODULUS
  {
    hide Pow2;
    Pow2Of32();
    Pow2Adds(32, 32);
  }
}
