/** The chunk hash `hashString` (revision.cpp:14-20): djb2, seeded with 5381,
    `hash * 33 + c` per byte, in a 64-bit `unsigned long`. */
module Hashing {
  import opened Bytes

  /** 2^64: values of an `unsigned long` are taken modulo this. */
  const WORD: nat := 0x1_0000_0000_0000_0000
  const SEED: nat := 5381

  /** The hash of `s`, folding its bytes from the left. */
  function Hash(s: seq<Byte>): (h: nat)
    ensures h < WORD
  {
    if s == [] then SEED else (Hash(s[..|s| - 1]) * 33 + s[|s| - 1]) % WORD
  }

  /** The hash of the bytes of `s` from `a` up to `b`, folded in place. */
  function HashRange(s: seq<Byte>, a: nat, b: nat): (h: nat)
    requires a <= b <= |s|
    ensures h < WORD
    decreases b - a
  {
    if b == a then SEED else (HashRange(s, a, b - 1) * 33 + s[b - 1]) % WORD
  }

  /** Folding in place is hashing the slice. */
  lemma {:induction false} HashRangeIsHash(s: seq<Byte>, a: nat, b: nat)
    requires a <= b <= |s|
    ensures HashRange(s, a, b) == Hash(s[a..b])
    decreases b - a
  {
    if b > a {
      HashRangeIsHash(s, a, b - 1);
      assert s[a..b][..b - a - 1] == s[a..b - 1];
    }
  }

  /** `(h << 5) + h + c` in 64-bit unsigned arithmetic is `h * 33 + c` modulo 2^64. */
  lemma {:induction false} ShiftAddIsTimes33(h: nat, c: Byte)
    ensures ((h * 32) % WORD + h + c) % WORD == (h * 33 + c) % WORD
  {
    var q := (h * 32) / WORD;
    assert (h * 32) % WORD == h * 32 - q * WORD;
    assert (h * 32) % WORD + h + c == (h * 33 + c) - q * WORD;
    ModMinusMultiple(h * 33 + c, q);
  }

  lemma {:induction false} ModMinusMultiple(x: int, q: int)
    ensures (x - q * WORD) % WORD == x % WORD
  {
    var r := x % WORD;
    var d := x / WORD;
    assert x == d * WORD + r;
    assert x - q * WORD == (d - q) * WORD + r;
  }

  /** The accumulator loop of `hashString`, with the shift written out. */
  method HashString(s: seq<Byte>) returns (h: nat)
    ensures h == Hash(s)
  {
    h := SEED;
    for k := 0 to |s|
      invariant h == Hash(s[..k])
    {
      assert s[..k + 1][..k] == s[..k];
      ShiftAddIsTimes33(h, s[k]);
      h := ((h * 32) % WORD + h + s[k]) % WORD;
    }
    assert s[..|s|] == s;
  }
}
