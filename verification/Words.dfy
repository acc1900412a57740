/**
 Bytes and words: the big-endian value bytes of a stored number (types.h), and the host words
 (little-endian) in which tags, block ids, offsets and stack positions are stored (types.cpp).
 */
module Words {

  type byte = n: nat | n < 0x100

  function Pow2(n: nat): (r: nat)
    ensures r > 0
  {
    if n == 0 then 1 else 2 * Pow2(n - 1)
  }

  function Pow256(w: nat): (r: nat)
    ensures r > 0
  {
    if w == 0 then 1 else 0x100 * Pow256(w - 1)
  }

  /** The low `w` bytes of `n`, least significant first. */
  function Le(n: nat, w: nat): (b: seq<byte>)
    ensures |b| == w
  {
    if w == 0 then [] else [n % 0x100] + Le(n / 0x100, w - 1)
  }

  function FromLe(b: seq<byte>): nat {
    if b == [] then 0 else b[0] + 0x100 * FromLe(b[1..])
  }

  /** The low `w` bytes of `n`, most significant first. */
  function Be(n: nat, w: nat): (b: seq<byte>)
    ensures |b| == w
  {
    if w == 0 then [] else Be(n / 0x100, w - 1) + [n % 0x100]
  }

  function FromBe(b: seq<byte>): nat {
    if b == [] then 0 else 0x100 * FromBe(b[..|b| - 1]) + b[|b| - 1]
  }

  /** The `n` bytes of `s` from `o` on (`SliceIsRange`). */
  function Slice(s: seq<byte>, o: nat, n: nat): (r: seq<byte>)
    requires o + n <= |s|
    ensures |r| == n
    decreases n
  {
    if n == 0 then [] else [s[o]] + Slice(s, o + 1, n - 1)
  }

  lemma {:induction false} SliceIsRange(s: seq<byte>, o: nat, n: nat)
    requires o + n <= |s|
    ensures Slice(s, o, n) == s[o..o + n]
    decreases n
  {
    if n > 0 {
      SliceIsRange(s, o + 1, n - 1);
      assert s[o..o + n] == [s[o]] + s[o + 1..o + n];
    }
  }

  lemma {:induction false} Digits(n: nat, d: byte)
    ensures (0x100 * n + d) % 0x100 == d && (0x100 * n + d) / 0x100 == n
  {
  }

  lemma {:induction false} LeBytes(b: seq<byte>)
    ensures Le(FromLe(b), |b|) == b && FromLe(b) < Pow256(|b|)
  {
    if b != [] {
      LeBytes(b[1..]);
      var n := FromLe(b[1..]);
      Digits(n, b[0]);
    }
  }

  lemma {:induction false} LeWord(n: nat, w: nat)
    requires n < Pow256(w)
    ensures FromLe(Le(n, w)) == n
  {
    if w > 0 {
      assert n / 0x100 < Pow256(w - 1);
      LeWord(n / 0x100, w - 1);
      assert Le(n, w)[1..] == Le(n / 0x100, w - 1);
    }
  }

  lemma {:induction false} BeBytes(b: seq<byte>)
    ensures Be(FromBe(b), |b|) == b && FromBe(b) < Pow256(|b|)
  {
    if b != [] {
      BeBytes(b[..|b| - 1]);
      var n, last := FromBe(b[..|b| - 1]), b[|b| - 1];
      Digits(n, last);
      assert b == b[..|b| - 1] + [last];
    }
  }

  lemma {:induction false} BeWord(n: nat, w: nat)
    requires n < Pow256(w)
    ensures FromBe(Be(n, w)) == n
  {
    if w > 0 {
      assert n / 0x100 < Pow256(w - 1);
      BeWord(n / 0x100, w - 1);
      assert Be(n, w)[..w - 1] == Be(n / 0x100, w - 1);
    }
  }

  /** The `i`-th digit to the base 256, from the least significant one on. */
  function Digit(n: nat, i: nat): nat {
    if i == 0 then n % 0x100 else Digit(n / 0x100, i - 1)
  }

  /** The digits stand from the front in a host word, and from the back in the value of a number. */
  lemma {:induction false} PlaceOfDigits(n: nat, w: nat, i: nat)
    requires i < w
    ensures Le(n, w)[i] == Digit(n, i) && Be(n, w)[w - 1 - i] == Digit(n, i)
  {
    if i > 0 {
      PlaceOfDigits(n / 0x100, w - 1, i - 1);
    }
  }
}
