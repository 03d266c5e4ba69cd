/** Base64 against Table 1 of RFC 4648: a group is a number of 24 bits, written as three bytes
    or as four letters of the table. */
module Base64Table {
  import opened Bytes
  import opened Base64

  const ALPHABET: string := "ABCDEFGHIJKLMNOPQRSTUVWXYZ" + "abcdefghijklmnopqrstuvwxyz" + "0123456789+/"

  /** c is the letter of the table for the number i. */
  predicate IsEntry(c: byte, i: nat) {
    i < |ALPHABET| && ALPHABET[i] as int == c as int
  }

  ghost predicate InTable(c: byte) {
    exists i: nat :: IsEntry(c, i)
  }

  // ----- the table -----

  lemma Table(i: nat)
    requires i < 64
    ensures |ALPHABET| == 64
    ensures i < 26 ==> ALPHABET[i] as int == 65 + i
    ensures 26 <= i < 52 ==> ALPHABET[i] as int == 97 + i - 26
    ensures 52 <= i < 62 ==> ALPHABET[i] as int == 48 + i - 52
    ensures i == 62 ==> ALPHABET[i] as int == 43
    ensures i == 63 ==> ALPHABET[i] as int == 47
  {
    var upper, lower, rest := "ABCDEFGHIJKLMNOPQRSTUVWXYZ", "abcdefghijklmnopqrstuvwxyz", "0123456789+/";
    if i < 26 {
      Upper(i);
      assert ALPHABET[i] == upper[i];
    } else if i < 52 {
      Lower(i - 26);
      assert ALPHABET[i] == lower[i - 26];
    } else {
      assert ALPHABET[i] == rest[i - 52];
    }
  }

  lemma Upper(i: nat)
    requires i < 26
    ensures "ABCDEFGHIJKLMNOPQRSTUVWXYZ"[i] as int == 65 + i
  {
  }

  lemma Lower(i: nat)
    requires i < 26
    ensures "abcdefghijklmnopqrstuvwxyz"[i] as int == 97 + i
  {
  }

  lemma LetterCodes(x: bv8)
    requires x < 64
    ensures var i, c := x as int, Letter(x) as int;
            c == if i < 26 then 65 + i else if i < 52 then 97 + i - 26 else if i < 62 then 48 + i - 52
                 else if i == 62 then 43 else 47
  {
  }

  lemma LetterEntry(x: bv8)
    requires x < 64
    ensures IsEntry(Letter(x), Num(x))
  {
    hide Letter;
    LetterCodes(x);
    Table(x as nat);
  }

  lemma SameCode(c: byte, d: byte)
    requires c as int == d as int
    ensures c == d
  {
  }

  lemma {:induction false} AsByte(i: nat) returns (x: bv8)
    requires i < 64
    ensures x < 64 && x as nat == i
  {
    x := i as bv8;
  }

  /** The letters the decoder takes are those of the table, with their places. */
  lemma EntryValue(c: byte, i: nat)
    requires IsEntry(c, i)
    ensures IsLetter(c) && Num(Value(c)) == i
  {
    hide Letter;
    hide Value;
    hide IsLetter;
    Table(0);
    var x := AsByte(i);
    LetterEntry(x);
    SameCode(c, Letter(x));
    LetterValue(x);
  }

  lemma LetterInTable(c: byte)
    ensures IsLetter(c) <==> InTable(c)
  {
    hide Letter;
    hide Value;
    hide IsLetter;
    hide IsEntry;
    if IsLetter(c) {
      LetterEntry(Value(c));
      ValueLetter(c);
    }
    if i: nat :| IsEntry(c, i) {
      EntryValue(c, i);
    }
  }

  // ----- groups as numbers -----

  /** Byte p of s, and zero behind its end. */
  function ByteAt(s: seq<byte>, p: nat): nat {
    if p < |s| then Num(s[p]) else 0
  }

  /** Group k of s as a number. */
  function Number(s: seq<byte>, k: nat): nat {
    65536 * ByteAt(s, 3 * k) + 256 * ByteAt(s, 3 * k + 1) + ByteAt(s, 3 * k + 2)
  }

  /** Digit j of the four that n has in base 64. */
  function Digit64(n: nat, j: nat): nat
    requires j < 4
  {
    if j == 0 then n / 262144 else if j == 1 then n / 4096 % 64 else if j == 2 then n / 64 % 64 else n % 64
  }

  /** Digit j of the three that n has in base 256. */
  function Digit256(n: nat, j: nat): nat
    requires j < 3
  {
    if j == 0 then n / 65536 else if j == 1 then n / 256 % 256 else n % 256
  }

  lemma Shared(a: byte, b: byte, c: byte)
    ensures First(a) == a >> 2 && Second(a, b) >> 4 == a & 0x3 && Second(a, b) & 0xF == b >> 4
    ensures Third(b, c) >> 2 == b & 0xF && Third(b, c) & 0x3 == c >> 6 && Fourth(c) == c & 0x3F
  {
  }

  lemma Below64(x: bv8)
    requires x < 64
    ensures Num(x) < 64
  {
  }

  /** Three bytes and four six-bit parts of the same bits are the same number. */
  lemma Regroup(a: nat, b: nat, c: nat, w: nat, x: nat, y: nat, z: nat, x1: nat, x0: nat, y1: nat, y0: nat)
    requires a == 4 * w + x1 && b == 16 * x0 + y1 && c == 64 * y0 + z
    requires x == 16 * x1 + x0 && y == 4 * y1 + y0
    ensures (a * 256 + b) * 256 + c == ((w * 64 + x) * 64 + y) * 64 + z == 65536 * a + 256 * b + c
  {
  }

  /** The four parts of three bytes are the digits of their number. */
  lemma PartsAreDigits(a: byte, b: byte, c: byte)
    ensures var n := 65536 * Num(a) + 256 * Num(b) + Num(c);
            Num(First(a)) == Digit64(n, 0) && Num(Second(a, b)) == Digit64(n, 1) &&
            Num(Third(b, c)) == Digit64(n, 2) && Num(Fourth(c)) == Digit64(n, 3)
  {
    hide First;
    hide Second;
    hide Third;
    hide Fourth;
    hide Num;
    hide Digit64;
    SixBits(a, b, c);
    Shared(a, b, c);
    LowTwo(a);
    LowFour(b);
    LowSix(c);
    LowFour(Second(a, b));
    LowTwo(Third(b, c));
    Regroup(Num(a), Num(b), Num(c), Num(First(a)), Num(Second(a, b)), Num(Third(b, c)), Num(Fourth(c)),
      Num(a & 0x3), Num(b >> 4), Num(b & 0xF), Num(c >> 6));
    Below64(First(a));
    Below64(Second(a, b));
    Below64(Third(b, c));
    Below64(Fourth(c));
    Base64Digits(65536 * Num(a) + 256 * Num(b) + Num(c), Num(First(a)), Num(Second(a, b)), Num(Third(b, c)),
      Num(Fourth(c)));
  }

  lemma Base64Digits(n: nat, i: nat, j: nat, k: nat, l: nat)
    requires i < 64 && j < 64 && k < 64 && l < 64 && n == ((i * 64 + j) * 64 + k) * 64 + l
    ensures Digit64(n, 0) == i && Digit64(n, 1) == j && Digit64(n, 2) == k && Digit64(n, 3) == l
  {
    assert n / 64 == (i * 64 + j) * 64 + k;
    assert n / 4096 == i * 64 + j;
    assert n / 262144 == i;
  }

  lemma GroupByTable(a: byte, b: byte, c: byte, j: nat)
    requires j < 4
    ensures IsEntry(Group(a, b, c)[j], Digit64(65536 * Num(a) + 256 * Num(b) + Num(c), j))
  {
    hide First;
    hide Second;
    hide Third;
    hide Fourth;
    hide Letter;
    hide IsEntry;
    hide Digit64;
    hide Num;
    SixBits(a, b, c);
    PartsAreDigits(a, b, c);
    LetterEntry(First(a));
    LetterEntry(Second(a, b));
    LetterEntry(Third(b, c));
    LetterEntry(Fourth(c));
  }

  lemma {:induction false} GroupsByTable(s: seq<byte>, n: nat, k: nat)
    requires k < n && 3 * n <= |s|
    ensures GroupsTo(s, n)[4 * k..4 * k + 4] == Group(s[3 * k], s[3 * k + 1], s[3 * k + 2])
    decreases n
  {
    hide Group;
    if k < n - 1 {
      GroupsByTable(s, n - 1, k);
      assert GroupsTo(s, n)[4 * k..4 * k + 4] == GroupsTo(s, n - 1)[4 * k..4 * k + 4];
    }
  }

  /** Group k of an encoding: the digits in base 64 of the number of group k, with zeros for
      missing bytes, in letters of the table; padding for the digits that hold no bit of s. */
  lemma EncodeByTable(s: seq<byte>, k: nat, j: nat)
    requires 3 * k < |s| && j < 4
    ensures 4 * k + j < |Encode(s)|
    ensures if 3 * k + j <= |s| then IsEntry(Encode(s)[4 * k + j], Digit64(Number(s, k), j))
            else Encode(s)[4 * k + j] == '=' as byte
  {
    hide Group;
    hide GroupsTo;
    hide IsEntry;
    hide Digit64;
    var n := |s| / 3;
    Divided(|s|);
    if k < n {
      GroupsByTable(s, n, k);
      assert Encode(s)[4 * k + j] == GroupsTo(s, n)[4 * k..4 * k + 4][j];
      GroupByTable(s[3 * k], s[3 * k + 1], s[3 * k + 2], j);
    } else {
      var tail := s[3 * n..];
      assert Encode(s)[4 * k + j] == Rest(tail)[j];
      GroupByTable(tail[0], if |tail| == 2 then tail[1] else 0, 0, j);
    }
  }

  // ----- decoding -----

  lemma SharedBack(w: bv8, x: bv8, y: bv8, z: bv8)
    requires w < 64 && x < 64 && y < 64 && z < 64
    ensures ByteA(w, x) >> 2 == w && ByteA(w, x) & 0x3 == x >> 4
    ensures ByteB(x, y) >> 4 == x & 0xF && ByteB(x, y) & 0xF == y >> 2
    ensures ByteC(y, z) >> 6 == y & 0x3 && ByteC(y, z) & 0x3F == z
  {
  }

  lemma Base256Digits(n: nat, a: nat, b: nat, c: nat)
    requires a < 256 && b < 256 && c < 256 && n == (a * 256 + b) * 256 + c
    ensures Digit256(n, 0) == a && Digit256(n, 1) == b && Digit256(n, 2) == c
  {
    assert n / 256 == a * 256 + b;
    assert n / 65536 == a;
  }

  /** Three bytes from four letters are the digits of the letters' number. */
  lemma BytesAreDigits(w: bv8, x: bv8, y: bv8, z: bv8)
    requires w < 64 && x < 64 && y < 64 && z < 64
    ensures var n := ((Num(w) * 64 + Num(x)) * 64 + Num(y)) * 64 + Num(z);
            Num(ByteA(w, x)) == Digit256(n, 0) && Num(ByteB(x, y)) == Digit256(n, 1) &&
            Num(ByteC(y, z)) == Digit256(n, 2)
  {
    hide ByteA;
    hide ByteB;
    hide ByteC;
    hide Digit256;
    hide Num;
    var a, b, c := ByteA(w, x), ByteB(x, y), ByteC(y, z);
    SharedBack(w, x, y, z);
    LowTwo(a);
    LowFour(b);
    LowSix(c);
    LowFour(x);
    LowTwo(y);
    Regroup(Num(a), Num(b), Num(c), Num(w), Num(x), Num(y), Num(z),
      Num(x >> 4), Num(x & 0xF), Num(y >> 2), Num(y & 0x3));
    Base256Digits(((Num(w) * 64 + Num(x)) * 64 + Num(y)) * 64 + Num(z), Num(a), Num(b), Num(c));
  }

  /** i is the number of letter p, or zero behind the last of the m letters. */
  predicate Numbered(t: seq<byte>, m: nat, p: nat, i: nat)
    requires m <= |t|
  {
    if p < m then IsEntry(t[p], i) else i == 0
  }

  lemma {:induction false} UngroupsByTable(l: seq<byte>, n: nat, k: nat)
    requires k < n && 4 * n <= |l| && AllLetters(l)
    ensures var u := Ungroup(l[4 * k], l[4 * k + 1], l[4 * k + 2], l[4 * k + 3]);
            UngroupsTo(l, n)[3 * k..3 * k + 3] == u
    decreases n
  {
    hide IsLetter;
    hide Value;
    hide ByteA;
    hide ByteB;
    hide ByteC;
    if k < n - 1 {
      UngroupsByTable(l, n - 1, k);
      assert UngroupsTo(l, n)[3 * k..3 * k + 3] == UngroupsTo(l, n - 1)[3 * k..3 * k + 3];
    }
  }

  function ValueOr0(l: seq<byte>, p: nat): (x: bv8)
    requires AllLetters(l)
    ensures x < 64
  {
    if p < |l| then Value(l[p]) else 0
  }

  lemma DecodedByte(l: seq<byte>, k: nat, j: nat)
    requires AllLetters(l) && j < 3 && 4 * k + j + 1 < |l|
    ensures |DecodeLetters(l)| == 3 * |l| / 4 && 3 * k + j < |DecodeLetters(l)|
    ensures var w, x, y, z :=
              ValueOr0(l, 4 * k), ValueOr0(l, 4 * k + 1), ValueOr0(l, 4 * k + 2), ValueOr0(l, 4 * k + 3);
            DecodeLetters(l)[3 * k + j] == if j == 0 then ByteA(w, x) else if j == 1 then ByteB(x, y) else ByteC(y, z)
  {
    hide IsLetter;
    hide Value;
    hide ByteA;
    hide ByteB;
    hide ByteC;
    hide UngroupsTo;
    var n := |l| / 4;
    UnrestSize(l[4 * n..]);
    if k < n {
      UngroupsByTable(l, n, k);
      assert DecodeLetters(l)[3 * k + j] == UngroupsTo(l, n)[3 * k..3 * k + 3][j];
    } else {
      assert DecodeLetters(l)[3 * k + j] == Unrest(l[4 * n..])[j];
    }
  }

  lemma DecodedSize(l: seq<byte>)
    requires AllLetters(l)
    ensures |DecodeLetters(l)| == 3 * |l| / 4
  {
    hide IsLetter;
    hide Unrest;
    hide UngroupsTo;
    UnrestSize(l[4 * (|l| / 4)..]);
  }

  lemma NumberedValue(t: seq<byte>, m: nat, p: nat, i: nat)
    requires m <= |t| && AllLetters(t[..m]) && Numbered(t, m, p, i)
    ensures Num(ValueOr0(t[..m], p)) == i
  {
    hide IsLetter;
    hide Value;
    hide IsEntry;
    if p < m { EntryValue(t[p], i); }
  }

  lemma LettersOfTable(t: seq<byte>, m: nat)
    requires m <= |t| && (forall p | 0 <= p < m :: InTable(t[p])) && (m < |t| ==> !InTable(t[m]))
    ensures AllLetters(t[..m]) && Decode(t) == DecodeLetters(t[..m])
  {
    hide IsLetter;
    hide InTable;
    hide DecodeLetters;
    forall p | 0 <= p < |t|
      ensures IsLetter(t[p]) <==> InTable(t[p])
    {
      LetterInTable(t[p]);
    }
    LettersEnd(t, 0, m);
  }

  lemma DecodeSize(t: seq<byte>, m: nat)
    requires m <= |t| && (forall p | 0 <= p < m :: InTable(t[p])) && (m < |t| ==> !InTable(t[m]))
    ensures |Decode(t)| == 3 * m / 4
  {
    hide DecodeLetters;
    hide Decode;
    LettersOfTable(t, m);
    DecodedSize(t[..m]);
  }

  /** Byte j of group k of a decoding: the digit in base 256 of the number that the letters of
      the group write, up to the first byte that is not in the table. */
  lemma DecodeByTable(t: seq<byte>, m: nat, k: nat, j: nat, w: nat, x: nat, y: nat, z: nat)
    requires m <= |t| && (forall p | 0 <= p < m :: InTable(t[p])) && (m < |t| ==> !InTable(t[m]))
    requires Numbered(t, m, 4 * k, w) && Numbered(t, m, 4 * k + 1, x) && Numbered(t, m, 4 * k + 2, y) &&
      Numbered(t, m, 4 * k + 3, z)
    requires j < 3 && 4 * k + j + 1 < m
    ensures |Decode(t)| == 3 * m / 4 && 3 * k + j < |Decode(t)|
    ensures Num(Decode(t)[3 * k + j]) == Digit256(((w * 64 + x) * 64 + y) * 64 + z, j)
  {
    hide DecodeLetters;
    hide Decode;
    hide ByteA;
    hide ByteB;
    hide ByteC;
    hide ValueOr0;
    hide Numbered;
    hide Digit256;
    hide Num;
    LettersOfTable(t, m);
    DecodedByte(t[..m], k, j);
    NumberedValue(t, m, 4 * k, w);
    NumberedValue(t, m, 4 * k + 1, x);
    NumberedValue(t, m, 4 * k + 2, y);
    NumberedValue(t, m, 4 * k + 3, z);
    BytesAreDigits(ValueOr0(t[..m], 4 * k), ValueOr0(t[..m], 4 * k + 1), ValueOr0(t[..m], 4 * k + 2),
      ValueOr0(t[..m], 4 * k + 3));
  }
}
