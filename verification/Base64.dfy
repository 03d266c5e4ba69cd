/** base64_encode and base64_decode. */
module Base64 {
  import opened Bytes

  const PAD: byte := 0x3D

  // ----- the alphabet of section 4 of RFC 4648 -----

  function Letter(x: bv8): byte
    requires x < 64
  {
    if x < 26 then x + 0x41 else if x < 52 then x - 26 + 0x61 else if x < 62 then x - 52 + 0x30
    else if x == 62 then 0x2B else 0x2F
  }

  /** is_base64. */
  predicate IsLetter(c: byte) {
    0x41 <= c <= 0x5A || 0x61 <= c <= 0x7A || 0x30 <= c <= 0x39 || c == 0x2B || c == 0x2F
  }

  /** base64_chars.find. */
  function Value(c: byte): (x: bv8)
    requires IsLetter(c)
    ensures x < 64
  {
    if 0x41 <= c <= 0x5A then c - 0x41 else if 0x61 <= c <= 0x7A then c - 0x61 + 26
    else if 0x30 <= c <= 0x39 then c - 0x30 + 52 else if c == 0x2B then 62 else 63
  }

  lemma LetterValue(x: bv8)
    requires x < 64
    ensures IsLetter(Letter(x)) && Value(Letter(x)) == x && Letter(x) != PAD
  {
  }

  lemma ValueLetter(c: byte)
    requires IsLetter(c)
    ensures Letter(Value(c)) == c && c != PAD
  {
  }

  // ----- three bytes as four letters -----

  function First(a: byte): bv8 {
    (a & 0xFC) >> 2
  }

  function Second(a: byte, b: byte): bv8 {
    ((a & 0x03) << 4) + ((b & 0xF0) >> 4)
  }

  function Third(b: byte, c: byte): bv8 {
    ((b & 0x0F) << 2) + ((c & 0xC0) >> 6)
  }

  function Fourth(c: byte): bv8 {
    c & 0x3F
  }

  lemma SixBits(a: byte, b: byte, c: byte)
    ensures First(a) < 64 && Second(a, b) < 64 && Third(b, c) < 64 && Fourth(c) < 64
  {
  }

  function Group(a: byte, b: byte, c: byte): (r: seq<byte>)
    ensures |r| == 4
  {
    SixBits(a, b, c);
    [Letter(First(a)), Letter(Second(a, b)), Letter(Third(b, c)), Letter(Fourth(c))]
  }

  function ByteA(w: bv8, x: bv8): byte {
    (w << 2) + ((x & 0x30) >> 4)
  }

  function ByteB(x: bv8, y: bv8): byte {
    ((x & 0xF) << 4) + ((y & 0x3C) >> 2)
  }

  function ByteC(y: bv8, z: bv8): byte {
    ((y & 0x3) << 6) + z
  }

  lemma BytesBack(a: byte, b: byte, c: byte)
    ensures ByteA(First(a), Second(a, b)) == a
    ensures ByteB(Second(a, b), Third(b, c)) == b
    ensures ByteC(Third(b, c), Fourth(c)) == c
  {
  }

  lemma LettersBack(w: bv8, x: bv8, y: bv8, z: bv8)
    requires w < 64 && x < 64 && y < 64 && z < 64
    ensures First(ByteA(w, x)) == w
    ensures Second(ByteA(w, x), ByteB(x, y)) == x
    ensures Third(ByteB(x, y), ByteC(y, z)) == y
    ensures Fourth(ByteC(y, z)) == z
  {
  }

  // ----- whole strings -----

  /** The first n groups of three bytes. */
  function GroupsTo(s: seq<byte>, n: nat): (r: seq<byte>)
    requires 3 * n <= |s|
    ensures |r| == 4 * n
  {
    if n == 0 then [] else GroupsTo(s, n - 1) + Group(s[3 * n - 3], s[3 * n - 2], s[3 * n - 1])
  }

  /** What is appended for the one or two bytes after the last whole group. */
  function Rest(s: seq<byte>): seq<byte>
    requires |s| < 3
  {
    if |s| == 0 then []
    else if |s| == 1 then Group(s[0], 0, 0)[..2] + [PAD, PAD]
    else Group(s[0], s[1], 0)[..3] + [PAD]
  }

  function Encode(s: seq<byte>): seq<byte> {
    var n := |s| / 3;
    GroupsTo(s, n) + Rest(s[3 * n..])
  }

  /** Where the letters that begin at i end. */
  function Letters(t: seq<byte>, i: nat): (n: nat)
    requires i <= |t|
    ensures i <= n <= |t| && (n < |t| ==> !IsLetter(t[n])) && forall k | i <= k < n :: IsLetter(t[k])
    decreases |t| - i
  {
    if i < |t| && IsLetter(t[i]) then Letters(t, i + 1) else i
  }

  predicate AllLetters(l: seq<byte>) {
    forall k | 0 <= k < |l| :: IsLetter(l[k])
  }

  function Ungroup(w: byte, x: byte, y: byte, z: byte): seq<byte>
    requires IsLetter(w) && IsLetter(x) && IsLetter(y) && IsLetter(z)
  {
    [ByteA(Value(w), Value(x)), ByteB(Value(x), Value(y)), ByteC(Value(y), Value(z))]
  }

  /** The first n groups of four letters. */
  function UngroupsTo(l: seq<byte>, n: nat): (r: seq<byte>)
    requires 4 * n <= |l| && AllLetters(l)
    ensures |r| == 3 * n
  {
    if n == 0 then [] else UngroupsTo(l, n - 1) + Ungroup(l[4 * n - 4], l[4 * n - 3], l[4 * n - 2], l[4 * n - 1])
  }

  /** The letters after the last whole group: a single one is dropped. */
  function Unrest(l: seq<byte>): seq<byte>
    requires |l| < 4 && AllLetters(l)
  {
    if |l| < 2 then []
    else if |l| == 2 then [ByteA(Value(l[0]), Value(l[1]))]
    else [ByteA(Value(l[0]), Value(l[1])), ByteB(Value(l[1]), Value(l[2]))]
  }

  function DecodeLetters(l: seq<byte>): seq<byte>
    requires AllLetters(l)
  {
    var n := |l| / 4;
    UngroupsTo(l, n) + Unrest(l[4 * n..])
  }

  /** Decoding stops at the first byte that is not a letter. */
  function Decode(t: seq<byte>): seq<byte> {
    DecodeLetters(t[..Letters(t, 0)])
  }

  // ----- decode after encode -----

  lemma GroupBack(a: byte, b: byte, c: byte)
    ensures var g := Group(a, b, c);
      && |g| == 4 && AllLetters(g)
      && Value(g[0]) == First(a) && Value(g[1]) == Second(a, b) && Value(g[2]) == Third(b, c) &&
        Value(g[3]) == Fourth(c)
      && Ungroup(g[0], g[1], g[2], g[3]) == [a, b, c]
  {
    hide Letter;
    hide Value;
    hide IsLetter;
    hide First;
    hide Second;
    hide Third;
    hide Fourth;
    hide ByteA;
    hide ByteB;
    hide ByteC;
    SixBits(a, b, c);
    LetterValue(First(a));
    LetterValue(Second(a, b));
    LetterValue(Third(b, c));
    LetterValue(Fourth(c));
    BytesBack(a, b, c);
  }

  lemma {:induction false} GroupsAreLetters(s: seq<byte>, n: nat)
    requires 3 * n <= |s|
    ensures AllLetters(GroupsTo(s, n))
    decreases n
  {
    hide Group;
    hide IsLetter;
    if n > 0 {
      GroupsAreLetters(s, n - 1);
      GroupBack(s[3 * n - 3], s[3 * n - 2], s[3 * n - 1]);
    }
  }

  /** l begins with the first n groups of s, and so decodes to their bytes. */
  lemma {:induction false} GroupsBack(s: seq<byte>, n: nat, l: seq<byte>)
    requires 3 * n <= |s| && 4 * n <= |l| && AllLetters(l) && l[..4 * n] == GroupsTo(s, n)
    ensures UngroupsTo(l, n) == s[..3 * n]
    decreases n
  {
    hide Group;
    hide Ungroup;
    hide IsLetter;
    hide AllLetters;
    if n > 0 {
      var a, b, c := s[3 * n - 3], s[3 * n - 2], s[3 * n - 1];
      var g, front := Group(a, b, c), GroupsTo(s, n - 1);
      GroupBack(a, b, c);
      LastGroup(l, n, front, g);
      GroupsBack(s, n - 1, l);
      LastThree(s, n);
    }
  }

  lemma LastThree(s: seq<byte>, n: nat)
    requires 0 < 3 * n <= |s|
    ensures s[..3 * n] == s[..3 * n - 3] + [s[3 * n - 3], s[3 * n - 2], s[3 * n - 1]]
  {
  }

  lemma LastFour(l: seq<byte>, n: nat)
    requires 0 < 4 * n <= |l|
    ensures l[..4 * n] == l[..4 * n - 4] + [l[4 * n - 4], l[4 * n - 3], l[4 * n - 2], l[4 * n - 1]]
  {
  }

  lemma LastGroup(l: seq<byte>, n: nat, front: seq<byte>, g: seq<byte>)
    requires n > 0 && 4 * n <= |l| && |front| == 4 * n - 4 && |g| == 4 && l[..4 * n] == front + g
    ensures l[..4 * (n - 1)] == front
    ensures l[4 * n - 4] == g[0] && l[4 * n - 3] == g[1] && l[4 * n - 2] == g[2] && l[4 * n - 1] == g[3]
  {
    var t := l[..4 * n];
    assert l[..4 * (n - 1)] == t[..4 * (n - 1)];
    assert t[4 * n - 4] == g[0] && t[4 * n - 3] == g[1] && t[4 * n - 2] == g[2] && t[4 * n - 1] == g[3];
  }

  /** The letters of the last, shorter group and its padding. */
  lemma RestBack(s: seq<byte>)
    requires |s| < 3
    ensures var r := Rest(s); var k := if |s| == 0 then 0 else |s| + 1;
      && |r| == (if |s| == 0 then 0 else 4)
      && AllLetters(r[..k]) && Unrest(r[..k]) == s
      && forall j | k <= j < |r| :: r[j] == PAD
  {
    hide Letter;
    hide Value;
    hide IsLetter;
    hide First;
    hide Second;
    hide Third;
    hide Fourth;
    hide Ungroup;
    if |s| == 1 {
      GroupBack(s[0], 0, 0);
      BytesBack(s[0], 0, 0);
    } else if |s| == 2 {
      GroupBack(s[0], s[1], 0);
      BytesBack(s[0], s[1], 0);
    }
  }

  lemma {:induction false} LettersEnd(t: seq<byte>, i: nat, n: nat)
    requires i <= n <= |t| && (forall k | i <= k < n :: IsLetter(t[k])) && (n < |t| ==> !IsLetter(t[n]))
    ensures Letters(t, i) == n
    decreases n - i
  {
    if i < n { LettersEnd(t, i + 1, n); }
  }

  lemma PadIsNoLetter()
    ensures !IsLetter(PAD)
  {
  }

  lemma Quotients(n: nat, k: nat)
    ensures k < 4 ==> (4 * n + k) / 4 == n
    ensures k < 3 ==> (3 * n + k) / 3 == n
  {
  }

  /** The letters of n whole groups and k more, then padding. */
  lemma SplitLetters(g: seq<byte>, n: nat, r: seq<byte>, k: nat)
    requires |g| == 4 * n && AllLetters(g) && k <= |r| <= 4 && k < 4 && AllLetters(r[..k])
    requires forall j | k <= j < |r| :: r[j] == PAD
    ensures Letters(g + r, 0) == 4 * n + k
    ensures AllLetters((g + r)[..4 * n + k]) && Decode(g + r) == UngroupsTo((g + r)[..4 * n + k], n) + Unrest(r[..k])
  {
    hide IsLetter;
    hide UngroupsTo;
    hide Unrest;
    PadIsNoLetter();
    var t := g + r;
    forall j | 0 <= j < 4 * n + k ensures IsLetter(t[j]) {
      assert j >= 4 * n ==> t[j] == r[..k][j - 4 * n];
    }
    LettersEnd(t, 0, 4 * n + k);
    var l := t[..4 * n + k];
    assert l[4 * n..] == r[..k];
    Quotients(n, k);
  }

  lemma Divided(n: nat)
    ensures 3 * (n / 3) <= n < 3 * (n / 3) + 3
    ensures (n + 2) / 3 == if n == 3 * (n / 3) then n / 3 else n / 3 + 1
  {
  }

  /** Decoding what was encoded gives the bytes back; the encoding of n bytes has
      4 * ceil(n / 3) characters. */
  lemma DecodeEncode(s: seq<byte>)
    ensures Decode(Encode(s)) == s
    ensures |Encode(s)| == 4 * ((|s| + 2) / 3)
  {
    hide GroupsTo;
    hide Rest;
    hide Decode;
    hide Unrest;
    hide UngroupsTo;
    hide AllLetters;
    var n := |s| / 3;
    var tail := s[3 * n..];
    var k := if |tail| == 0 then 0 else |tail| + 1;
    var g, r := GroupsTo(s, n), Rest(tail);
    Divided(|s|);
    GroupsAreLetters(s, n);
    RestBack(tail);
    SplitLetters(g, n, r, k);
    var l := (g + r)[..4 * n + k];
    assert l[..4 * n] == g;
    GroupsBack(s, n, l);
    assert s == s[..3 * n] + tail;
  }

  // ----- encode after decode -----

  /** A string in the form of section 4 of RFC 4648: whole groups of four letters, of which
      the last may end in one or two padding characters with the unused bits zero. */
  predicate Padded(t: seq<byte>) {
    var m := Letters(t, 0);
    && |t| % 4 == 0
    && (|| m == |t|
        || (m == |t| - 1 && t[m] == PAD && Value(t[m - 1]) & 0x3 == 0)
        || (m == |t| - 2 && t[m] == PAD && t[m + 1] == PAD && Value(t[m - 1]) & 0xF == 0))
  }

  lemma UngroupBack(w: byte, x: byte, y: byte, z: byte)
    requires IsLetter(w) && IsLetter(x) && IsLetter(y) && IsLetter(z)
    ensures var u := Ungroup(w, x, y, z); |u| == 3 && Group(u[0], u[1], u[2]) == [w, x, y, z]
  {
    hide Letter;
    hide Value;
    hide IsLetter;
    LettersBack(Value(w), Value(x), Value(y), Value(z));
    ValueLetter(w);
    ValueLetter(x);
    ValueLetter(y);
    ValueLetter(z);
  }

  /** s begins with the bytes of the first n groups of l, and so encodes to their letters. */
  lemma {:induction false} UngroupsBack(l: seq<byte>, n: nat, s: seq<byte>)
    requires 4 * n <= |l| && AllLetters(l) && 3 * n <= |s| && s[..3 * n] == UngroupsTo(l, n)
    ensures GroupsTo(s, n) == l[..4 * n]
    decreases n
  {
    hide Group;
    hide Ungroup;
    hide IsLetter;
    if n > 0 {
      var w, x, y, z := l[4 * n - 4], l[4 * n - 3], l[4 * n - 2], l[4 * n - 1];
      var u, front := Ungroup(w, x, y, z), UngroupsTo(l, n - 1);
      UngroupBack(w, x, y, z);
      LastBytes(s, n, front, u);
      UngroupsBack(l, n - 1, s);
      LastFour(l, n);
    }
  }

  lemma LastBytes(s: seq<byte>, n: nat, front: seq<byte>, u: seq<byte>)
    requires n > 0 && 3 * n <= |s| && |front| == 3 * n - 3 && |u| == 3 && s[..3 * n] == front + u
    ensures s[..3 * (n - 1)] == front
    ensures s[3 * n - 3] == u[0] && s[3 * n - 2] == u[1] && s[3 * n - 1] == u[2]
  {
    var t := s[..3 * n];
    assert s[..3 * (n - 1)] == t[..3 * (n - 1)];
    assert t[3 * n - 3] == u[0] && t[3 * n - 2] == u[1] && t[3 * n - 1] == u[2];
  }

  lemma TwoBits(w: bv8, x: bv8)
    requires w < 64 && x < 64
    ensures First(ByteA(w, x)) == w
    ensures Second(ByteA(w, x), 0) == x <==> x & 0xF == 0
    ensures Second(ByteA(w, x), 0) < 64 && Second(ByteA(w, x), 0) & 0xF == 0
  {
  }

  lemma ThreeBits(w: bv8, x: bv8, y: bv8)
    requires w < 64 && x < 64 && y < 64
    ensures First(ByteA(w, x)) == w && Second(ByteA(w, x), ByteB(x, y)) == x
    ensures Third(ByteB(x, y), 0) == y <==> y & 0x3 == 0
    ensures Third(ByteB(x, y), 0) < 64
  {
  }

  lemma TwoLetters(w: byte, x: byte)
    requires IsLetter(w) && IsLetter(x)
    ensures Value(x) & 0xF == 0 ==> Rest(Unrest([w, x])) == [w, x, PAD, PAD]
  {
    hide Value;
    hide Letter;
    hide IsLetter;
    hide First;
    hide Second;
    hide ByteA;
    ValueLetter(w);
    ValueLetter(x);
    TwoBits(Value(w), Value(x));
  }

  lemma ThreeLetters(w: byte, x: byte, y: byte)
    requires IsLetter(w) && IsLetter(x) && IsLetter(y)
    ensures Value(y) & 0x3 == 0 ==> Rest(Unrest([w, x, y])) == [w, x, y, PAD]
  {
    hide Value;
    hide Letter;
    hide IsLetter;
    hide First;
    hide Second;
    hide Third;
    hide ByteA;
    hide ByteB;
    ValueLetter(w);
    ValueLetter(x);
    ValueLetter(y);
    ThreeBits(Value(w), Value(x), Value(y));
  }

  /** Whole groups and the right ending make a padded string. */
  lemma PaddedForm(g: seq<byte>, n: nat, r: seq<byte>, size: nat)
    requires |g| == 4 * n && size < 3 && |r| == (if size == 0 then 0 else 4)
    requires Letters(g + r, 0) == 4 * n + (if size == 0 then 0 else size + 1)
    requires size == 1 ==> IsLetter(r[1]) && Value(r[1]) & 0xF == 0 && r[2] == PAD && r[3] == PAD
    requires size == 2 ==> IsLetter(r[2]) && Value(r[2]) & 0x3 == 0 && r[3] == PAD
    ensures Padded(g + r)
  {
    hide IsLetter;
    hide Value;
    hide Letters;
    var t := g + r;
    if size == 1 {
      assert t[4 * n + 1] == r[1] && t[4 * n + 2] == r[2] && t[4 * n + 3] == r[3];
    } else if size == 2 {
      assert t[4 * n + 2] == r[2] && t[4 * n + 3] == r[3];
    }
  }

  /** Every encoding is padded. */
  lemma EncodePadded(s: seq<byte>)
    ensures Padded(Encode(s))
  {
    hide GroupsTo;
    hide IsLetter;
    hide AllLetters;
    hide Value;
    hide Rest;
    hide Letters;
    hide Decode;
    hide Padded;
    var n := |s| / 3;
    var tail := s[3 * n..];
    var g, r := GroupsTo(s, n), Rest(tail);
    Divided(|s|);
    GroupsAreLetters(s, n);
    RestBack(tail);
    RestBits(tail);
    SplitLetters(g, n, r, if |tail| == 0 then 0 else |tail| + 1);
    PaddedForm(g, n, r, |tail|);
  }

  lemma RestBits(s: seq<byte>)
    requires |s| < 3
    ensures |s| == 1 ==> |Rest(s)| == 4 && IsLetter(Rest(s)[1]) && Value(Rest(s)[1]) & 0xF == 0
    ensures |s| == 2 ==> |Rest(s)| == 4 && IsLetter(Rest(s)[2]) && Value(Rest(s)[2]) & 0x3 == 0
  {
    hide Value;
    hide Letter;
    hide IsLetter;
    if |s| == 1 {
      GroupBack(s[0], 0, 0);
      LowBits(s[0], 0);
    } else if |s| == 2 {
      GroupBack(s[0], s[1], 0);
      LowBits(s[0], s[1]);
    }
  }

  lemma LowBits(a: byte, b: byte)
    ensures Second(a, 0) & 0xF == 0 && Third(b, 0) & 0x3 == 0
  {
  }

  /** A padded string is the encoding of what it decodes to. */
  lemma PaddedBack(t: seq<byte>)
    requires Padded(t)
    ensures Encode(Decode(t)) == t
  {
    hide GroupsTo;
    hide UngroupsTo;
    hide IsLetter;
    hide Value;
    hide Rest;
    hide Unrest;
    var m := Letters(t, 0);
    var l, n, k := t[..m], m / 4, m % 4;
    var tail := l[4 * n..];
    var s := Decode(t);
    UnrestSize(tail);
    Quotients(n, |Unrest(tail)|);
    UngroupsBack(l, n, s);
    assert s[3 * n..] == Unrest(tail);
    if k == 0 {
      assert t == l[..4 * n] + [];
    } else if k == 2 {
      TwoLetters(tail[0], tail[1]);
      assert tail == [tail[0], tail[1]];
      assert t == l[..4 * n] + [tail[0], tail[1], PAD, PAD];
    } else {
      ThreeLetters(tail[0], tail[1], tail[2]);
      assert tail == [tail[0], tail[1], tail[2]];
      assert t == l[..4 * n] + [tail[0], tail[1], tail[2], PAD];
    }
  }

  lemma UnrestSize(l: seq<byte>)
    requires |l| < 4 && AllLetters(l)
    ensures |Unrest(l)| == if |l| < 2 then 0 else |l| - 1
    ensures |l| == 0 ==> Rest(Unrest(l)) == []
  {
  }

  /** Encoding what was decoded gives the string back exactly when it is padded. */
  lemma EncodeDecodeExact(t: seq<byte>)
    ensures Encode(Decode(t)) == t <==> Padded(t)
  {
    hide Decode;
    hide Encode;
    hide Padded;
    EncodePadded(Decode(t));
    if Padded(t) { PaddedBack(t); }
  }
}
