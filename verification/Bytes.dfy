/** Bytes and NUL-terminated strings, as the C code sees them. */
module Bytes {
  type byte = bv8

  predicate NulFree(s: seq<byte>) {
    forall i | 0 <= i < |s| :: s[i] != 0
  }

  /** The bytes before the terminator. */
  type CString = s: seq<byte> | NulFree(s)

  /** What a pointer i bytes into s points at: the terminator follows the last byte. */
  function At(s: seq<byte>, i: nat): byte {
    if i < |s| then s[i] else 0
  }

  /** t lies in s at position i. */
  predicate Has(s: seq<byte>, i: nat, t: seq<byte>) {
    i + |t| <= |s| && s[i..i + |t|] == t
  }

  lemma HasAt(s: seq<byte>, i: nat, t: seq<byte>, k: nat)
    requires Has(s, i, t) && k < |t|
    ensures At(s, i + k) == s[i + k] == t[k]
  {
    assert s[i..i + |t|][k] == t[k];
  }

  lemma HasConcat(s: seq<byte>, i: nat, a: seq<byte>, b: seq<byte>)
    ensures Has(s, i, a + b) <==> Has(s, i, a) && Has(s, i + |a|, b)
  {
    if i + |a| + |b| <= |s| {
      assert s[i..i + |a + b|] == s[i..i + |a|] + s[i + |a|..i + |a| + |b|];
      assert (a + b)[..|a|] == a && (a + b)[|a|..] == b;
      assert s[i..i + |a + b|][..|a|] == s[i..i + |a|];
      assert s[i..i + |a + b|][|a|..] == s[i + |a|..i + |a| + |b|];
    }
  }

  /** The string that strlen and strcmp see in a buffer. */
  function UpToNul(s: seq<byte>): (r: CString)
    ensures |r| <= |s| && r == s[..|r|] && (|r| < |s| ==> s[|r|] == 0)
    ensures NulFree(s) ==> r == s
  {
    if s == [] || s[0] == 0 then [] else
      assert s == [s[0]] + s[1..];
      [s[0]] + UpToNul(s[1..])
  }

  /** A byte as a number. */
  function Num(x: bv8): (i: nat)
    ensures i < 256
  {
    x as nat
  }

  /** Splitting a byte into its high and its low two, four or six bits. */
  lemma LowTwo(x: bv8)
    ensures Num(x) == 4 * Num(x >> 2) + Num(x & 0x3)
  {
  }

  lemma LowFour(x: bv8)
    ensures Num(x) == 16 * Num(x >> 4) + Num(x & 0xF)
  {
  }

  lemma LowSix(x: bv8)
    ensures Num(x) == 64 * Num(x >> 6) + Num(x & 0x3F)
  {
  }

  /** A code point as a number, and back. */
  function Num32(x: bv32): nat {
    x as nat
  }

  function Bits32(n: nat): bv32
    requires n < 0x1_0000_0000
  {
    n as bv32
  }

  lemma BackToBits(x: bv32, n: nat)
    requires Num32(x) == n
    ensures n < 0x1_0000_0000 && Bits32(n) == x
  {
  }
}
