/** UTF-8 in parson.c: the validator, and the encoder behind the \u escapes. */
module Utf8 {
  import opened Bytes

  // ----- section 4 of RFC 3629 -----

  predicate Tail(b: byte) {
    0x80 <= b <= 0xBF
  }

  predicate TwoBytes(b0: byte, b1: byte) {
    0xC2 <= b0 <= 0xDF && Tail(b1)
  }

  predicate ThreeBytes(b0: byte, b1: byte, b2: byte) {
    || (b0 == 0xE0 && 0xA0 <= b1 <= 0xBF && Tail(b2))
    || (0xE1 <= b0 <= 0xEC && Tail(b1) && Tail(b2))
    || (b0 == 0xED && 0x80 <= b1 <= 0x9F && Tail(b2))
    || (0xEE <= b0 <= 0xEF && Tail(b1) && Tail(b2))
  }

  predicate FourBytes(b0: byte, b1: byte, b2: byte, b3: byte) {
    || (b0 == 0xF0 && 0x90 <= b1 <= 0xBF && Tail(b2) && Tail(b3))
    || (0xF1 <= b0 <= 0xF3 && Tail(b1) && Tail(b2) && Tail(b3))
    || (b0 == 0xF4 && 0x80 <= b1 <= 0x8F && Tail(b2) && Tail(b3))
  }

  /** The ABNF UTF8-char: the UTF-8 form of one character. */
  predicate Utf8Char(b: seq<byte>) {
    match |b|
    case 1 => b[0] <= 0x7F
    case 2 => TwoBytes(b[0], b[1])
    case 3 => ThreeBytes(b[0], b[1], b[2])
    case 4 => FourBytes(b[0], b[1], b[2], b[3])
    case _ => false
  }

  /** UTF8-octets: any number of UTF8-char one after the other. */
  ghost predicate Utf8Octets(s: seq<byte>) {
    s == [] || exists n: nat | 1 <= n <= |s| :: Utf8Char(s[..n]) && Utf8Octets(s[n..])
  }

  // ----- the validator -----

  predicate IsCont(b: byte) {
    b & 0xC0 == 0x80
  }

  function SequenceLength(c: byte): (n: nat)
    ensures n <= 4
  {
    if c == 0xC0 || c == 0xC1 || c > 0xF4 || IsCont(c) then 0
    else if c & 0x80 == 0 then 1
    else if c & 0xE0 == 0xC0 then 2
    else if c & 0xF0 == 0xE0 then 3
    else assert c & 0xF8 == 0xF0; 4
  }

  datatype Sequence = Invalid | Valid(length: nat, codePoint: bv32)

  /** Six more bits of the code point, from a continuation byte. */
  function Append6(cp: bv32, b: byte): bv32 {
    (cp << 6) | ((b & 0x3F) as bv32)
  }

  function Lead4(b0: byte, b1: byte): bv32 {
    Append6((b0 & 0x7) as bv32, b1)
  }

  /** The code point assembled from n bytes, before it is checked. */
  function Assemble(b0: byte, b1: byte, b2: byte, b3: byte, n: nat): bv32 {
    if n == 1 then b0 as bv32
    else if n == 2 then Append6((b0 & 0x1F) as bv32, b1)
    else if n == 3 then Append6(Append6((b0 & 0xF) as bv32, b1), b2)
    else Append6(Append6(Lead4(b0, b1), b2), b3)
  }

  predicate Acceptable(cp: bv32, n: nat) {
    && !(cp < 0x80 && n > 1) && !(cp < 0x800 && n > 2) && !(cp < 0x10000 && n > 3)
    && !(cp > 0x10FFFF)
    && !(0xD800 <= cp <= 0xDFFF)
  }

  predicate Continued(b1: byte, b2: byte, b3: byte, n: nat) {
    && n != 0
    && (n > 1 ==> IsCont(b1)) && (n > 2 ==> IsCont(b2)) && (n > 3 ==> IsCont(b3))
  }

  function VerifySequence(s: seq<byte>, i: nat): Sequence {
    var n := SequenceLength(At(s, i));
    var cp := Assemble(At(s, i), At(s, i + 1), At(s, i + 2), At(s, i + 3), n);
    if Continued(At(s, i + 1), At(s, i + 2), At(s, i + 3), n) && Acceptable(cp, n) then Valid(n, cp) else Invalid
  }

  /** The encoding of section 3 of RFC 3629. */
  function Encode(cp: bv32): seq<byte> {
    if cp < 0x80 then [cp as byte]
    else if cp < 0x800 then [(((cp >> 6) & 0x1F) | 0xC0) as byte, ((cp & 0x3F) | 0x80) as byte]
    else if cp < 0x10000 then
      [(((cp >> 12) & 0x0F) | 0xE0) as byte, (((cp >> 6) & 0x3F) | 0x80) as byte, ((cp & 0x3F) | 0x80) as byte]
    else
      [(((cp >> 18) & 0x07) | 0xF0) as byte, (((cp >> 12) & 0x3F) | 0x80) as byte,
       (((cp >> 6) & 0x3F) | 0x80) as byte, ((cp & 0x3F) | 0x80) as byte]
  }

  predicate Scalar(cp: bv32) {
    cp <= 0x10FFFF && !(0xD800 <= cp <= 0xDFFF)
  }

  lemma OneByteForm(b0: byte, b1: byte, b2: byte, b3: byte, cp: bv32)
    requires cp == Assemble(b0, b1, b2, b3, 1)
    ensures SequenceLength(b0) == 1 && Acceptable(cp, 1) <==> b0 <= 0x7F
    ensures b0 <= 0x7F ==> Scalar(cp) && Encode(cp) == [b0]
  {
  }

  lemma TwoByteForm(b0: byte, b1: byte, b2: byte, b3: byte, cp: bv32)
    requires cp == Assemble(b0, b1, b2, b3, 2)
    ensures SequenceLength(b0) == 2 && IsCont(b1) && Acceptable(cp, 2) <==> TwoBytes(b0, b1)
    ensures TwoBytes(b0, b1) ==> Scalar(cp) && Encode(cp) == [b0, b1]
  {
  }

  lemma ThreeByteRange(b0: byte, b1: byte, b2: byte, b3: byte)
    requires SequenceLength(b0) == 3 && IsCont(b1) && IsCont(b2)
    ensures Acceptable(Assemble(b0, b1, b2, b3, 3), 3) <==> ThreeBytes(b0, b1, b2)
  {
  }

  lemma ThreeByteBits(b0: byte, b1: byte, b2: byte, b3: byte)
    requires b0 & 0xF0 == 0xE0 && IsCont(b1) && IsCont(b2)
    ensures var cp := Assemble(b0, b1, b2, b3, 3);
      && (((cp >> 12) & 0x0F) | 0xE0) as byte == b0
      && (((cp >> 6) & 0x3F) | 0x80) as byte == b1
      && ((cp & 0x3F) | 0x80) as byte == b2
      && cp < 0x10000
  {
  }

  lemma ThreeByteLead(b0: byte, b1: byte, b2: byte)
    requires ThreeBytes(b0, b1, b2)
    ensures SequenceLength(b0) == 3 && IsCont(b1) && IsCont(b2) && b0 & 0xF0 == 0xE0
  {
  }

  lemma ThreeByteForm(b0: byte, b1: byte, b2: byte, b3: byte, cp: bv32)
    requires cp == Assemble(b0, b1, b2, b3, 3)
    ensures SequenceLength(b0) == 3 && IsCont(b1) && IsCont(b2) && Acceptable(cp, 3) <==> ThreeBytes(b0, b1, b2)
    ensures ThreeBytes(b0, b1, b2) ==> Scalar(cp) && Encode(cp) == [b0, b1, b2]
  {
    hide SequenceLength;
    hide IsCont;
    hide Assemble;
    hide ThreeBytes;
    if SequenceLength(b0) == 3 && IsCont(b1) && IsCont(b2) {
      ThreeByteRange(b0, b1, b2, b3);
    }
    if ThreeBytes(b0, b1, b2) {
      ThreeByteLead(b0, b1, b2);
      ThreeByteBits(b0, b1, b2, b3);
    }
  }

  /** The two leading bytes decide the range of a four-byte code point. */
  lemma FourByteRange(hi: bv32, b2: byte, b3: byte, cp: bv32)
    requires hi < 0x200 && cp == Append6(Append6(hi, b2), b3)
    ensures cp < 0x10000 <==> hi < 0x10
    ensures cp > 0x10FFFF <==> hi > 0x10F
  {
  }

  lemma FourByteHead(b0: byte, b1: byte)
    ensures Lead4(b0, b1) < 0x200
    ensures SequenceLength(b0) == 4 && IsCont(b1) && 0x10 <= Lead4(b0, b1) <= 0x10F <==>
      || (b0 == 0xF0 && 0x90 <= b1 <= 0xBF) || (0xF1 <= b0 <= 0xF3 && Tail(b1)) || (b0 == 0xF4 && 0x80 <= b1 <= 0x8F)
  {
  }

  lemma FourByteAcceptable(b0: byte, b1: byte, b2: byte, b3: byte)
    ensures var cp := Assemble(b0, b1, b2, b3, 4);
      Acceptable(cp, 4) <==> 0x10 <= Lead4(b0, b1) <= 0x10F
    ensures var cp := Assemble(b0, b1, b2, b3, 4);
      Acceptable(cp, 4) ==> Scalar(cp) && 0x10000 <= cp
  {
    hide Append6;
    hide Lead4;
    FourByteHead(b0, b1);
    FourByteRange(Lead4(b0, b1), b2, b3, Assemble(b0, b1, b2, b3, 4));
  }

  lemma ContIsTail(b: byte)
    ensures IsCont(b) == Tail(b)
  {
  }

  lemma FourByteForm(b0: byte, b1: byte, b2: byte, b3: byte, cp: bv32)
    requires cp == Assemble(b0, b1, b2, b3, 4)
    ensures SequenceLength(b0) == 4 && IsCont(b1) && IsCont(b2) && IsCont(b3) && Acceptable(cp, 4) <==>
      FourBytes(b0, b1, b2, b3)
    ensures FourBytes(b0, b1, b2, b3) ==> Scalar(cp) && Encode(cp) == [b0, b1, b2, b3]
  {
    hide SequenceLength;
    hide Lead4;
    hide Assemble;
    hide Acceptable;
    hide IsCont;
    hide Scalar;
    hide Encode;
    FourByteHead(b0, b1);
    FourByteAcceptable(b0, b1, b2, b3);
    ContIsTail(b2);
    ContIsTail(b3);
    if FourBytes(b0, b1, b2, b3) {
      FourByteEncode(b0, b1, b2, b3);
    }
  }

  lemma FourByteBits(b0: byte, b1: byte, b2: byte, b3: byte)
    requires b0 & 0xF8 == 0xF0 && IsCont(b1) && IsCont(b2) && IsCont(b3)
    ensures var cp := Assemble(b0, b1, b2, b3, 4);
      && (((cp >> 18) & 0x07) | 0xF0) as byte == b0
      && (((cp >> 12) & 0x3F) | 0x80) as byte == b1
      && (((cp >> 6) & 0x3F) | 0x80) as byte == b2
      && ((cp & 0x3F) | 0x80) as byte == b3
  {
  }

  lemma FourByteEncode(b0: byte, b1: byte, b2: byte, b3: byte)
    requires FourBytes(b0, b1, b2, b3) && 0x10000 <= Assemble(b0, b1, b2, b3, 4)
    ensures Encode(Assemble(b0, b1, b2, b3, 4)) == [b0, b1, b2, b3]
  {
    hide Assemble;
    FourByteBits(b0, b1, b2, b3);
  }

  lemma SliceOf(s: seq<byte>, i: nat)
    ensures i + 1 <= |s| ==> s[i..i + 1] == [s[i]]
    ensures i + 2 <= |s| ==> s[i..i + 2] == [s[i], s[i + 1]]
    ensures i + 3 <= |s| ==> s[i..i + 3] == [s[i], s[i + 1], s[i + 2]]
    ensures i + 4 <= |s| ==> s[i..i + 4] == [s[i], s[i + 1], s[i + 2], s[i + 3]]
  {
  }

  /** A sequence the validator accepts is one UTF8-char that lies before the terminator, and
      the code point it assembles is the character those bytes encode. */
  lemma VerifySound(s: CString, i: nat)
    requires i < |s|
    ensures var v := VerifySequence(s, i);
      v.Valid? ==>
        && 1 <= v.length <= 4 && i + v.length <= |s| && Utf8Char(s[i..i + v.length])
        && Scalar(v.codePoint) && Encode(v.codePoint) == s[i..i + v.length]
  {
    hide SequenceLength;
    hide IsCont;
    hide Assemble;
    hide Acceptable;
    hide Encode;
    hide Scalar;
    hide TwoBytes;
    hide ThreeBytes;
    hide FourBytes;
    NulIsNotCont();
    var v := VerifySequence(s, i);
    var b0, b1, b2, b3 := At(s, i), At(s, i + 1), At(s, i + 2), At(s, i + 3);
    if v.Valid? {
      var n := v.length;
      if n == 1 {
        OneByteForm(b0, b1, b2, b3, v.codePoint);
        SliceOf(s, i);
      } else if n == 2 {
        TwoByteForm(b0, b1, b2, b3, v.codePoint);
        assert IsCont(At(s, i + 1));
        SliceOf(s, i);
      } else if n == 3 {
        ThreeByteForm(b0, b1, b2, b3, v.codePoint);
        assert IsCont(At(s, i + 1)) && IsCont(At(s, i + 2));
        SliceOf(s, i);
      } else {
        FourByteForm(b0, b1, b2, b3, v.codePoint);
        assert IsCont(At(s, i + 1)) && IsCont(At(s, i + 2)) && IsCont(At(s, i + 3));
        SliceOf(s, i);
      }
    }
  }

  /** Every UTF8-char is accepted, at its own length. */
  lemma VerifyComplete(s: seq<byte>, i: nat, n: nat)
    requires i + n <= |s| && Utf8Char(s[i..i + n])
    ensures VerifySequence(s, i).Valid? && VerifySequence(s, i).length == n
  {
    hide SequenceLength;
    hide IsCont;
    hide Assemble;
    hide Acceptable;
    hide Encode;
    hide Scalar;
    hide TwoBytes;
    hide ThreeBytes;
    hide FourBytes;
    var t := s[i..i + n];
    var b0, b1, b2, b3 := At(s, i), At(s, i + 1), At(s, i + 2), At(s, i + 3);
    if n == 1 {
      assert t[0] == b0;
      OneByteForm(b0, b1, b2, b3, Assemble(b0, b1, b2, b3, 1));
    } else if n == 2 {
      assert t[0] == b0 && t[1] == b1;
      TwoByteForm(b0, b1, b2, b3, Assemble(b0, b1, b2, b3, 2));
    } else if n == 3 {
      assert t[0] == b0 && t[1] == b1 && t[2] == b2;
      ThreeByteForm(b0, b1, b2, b3, Assemble(b0, b1, b2, b3, 3));
    } else {
      assert n == 4;
      assert t[0] == b0 && t[1] == b1 && t[2] == b2 && t[3] == b3;
      FourByteForm(b0, b1, b2, b3, Assemble(b0, b1, b2, b3, 4));
    }
  }

  /** Verifying at i decides whether the rest of the string is well formed from there. */
  lemma OctetsStep(s: CString, i: nat)
    requires i < |s|
    ensures VerifySequence(s, i).Invalid? ==> !Utf8Octets(s[i..])
    ensures var v := VerifySequence(s, i);
      v.Valid? ==> 1 <= v.length <= |s| - i && (Utf8Octets(s[i..]) <==> Utf8Octets(s[i + v.length..]))
  {
    hide VerifySequence;
    hide Utf8Char;
    hide Encode;
    hide Scalar;
    var v, t := VerifySequence(s, i), s[i..];
    VerifySound(s, i);
    forall n: nat | 1 <= n <= |t| && Utf8Char(t[..n]) ensures v.Valid? && v.length == n {
      assert t[..n] == s[i..i + n];
      VerifyComplete(s, i, n);
    }
    if v.Valid? {
      assert t[..v.length] == s[i..i + v.length];
      assert t[v.length..] == s[i + v.length..];
    }
  }

  /** buf holds a string of len bytes and its terminator. */
  ghost predicate Terminated(buf: array<byte>, len: nat)
    reads buf
  {
    len < buf.Length && buf[len] == 0 && NulFree(buf[..len])
  }

  /** The first half of verify_utf8_sequence: n is 0 when the bytes do not go together. */
  method AssembleSequence(buf: array<byte>, i: nat, ghost len: nat) returns (n: nat, cp: bv32)
    requires Terminated(buf, len) && i < len
    ensures var s := buf[..len]; var m := SequenceLength(At(s, i));
      && (Continued(At(s, i + 1), At(s, i + 2), At(s, i + 3), m) ==>
            n == m && cp == Assemble(At(s, i), At(s, i + 1), At(s, i + 2), At(s, i + 3), m))
      && (!Continued(At(s, i + 1), At(s, i + 2), At(s, i + 3), m) ==> n == 0)
  {
    hide SequenceLength;
    hide Append6;
    hide IsCont;
    NulIsNotCont();
    n := SequenceLength(buf[i]);
    cp := 0;
    if n == 1 {
      cp := buf[i] as bv32;
    } else if n == 2 && IsCont(buf[i + 1]) {
      cp := (buf[i] & 0x1F) as bv32;
      cp := Append6(cp, buf[i + 1]);
    } else if n == 3 && IsCont(buf[i + 1]) && IsCont(buf[i + 2]) {
      cp := (buf[i] & 0xF) as bv32;
      cp := Append6(cp, buf[i + 1]);
      cp := Append6(cp, buf[i + 2]);
    } else if n == 4 && IsCont(buf[i + 1]) && IsCont(buf[i + 2]) && IsCont(buf[i + 3]) {
      cp := (buf[i] & 0x7) as bv32;
      cp := Append6(cp, buf[i + 1]);
      cp := Append6(cp, buf[i + 2]);
      cp := Append6(cp, buf[i + 3]);
    } else {
      n := 0;
    }
  }

  method VerifyUtf8Sequence(buf: array<byte>, i: nat, ghost len: nat) returns (v: Sequence)
    requires Terminated(buf, len) && i < len
    ensures v == VerifySequence(buf[..len], i)
  {
    hide SequenceLength;
    hide Assemble;
    hide IsCont;
    hide At;
    var n, cp := AssembleSequence(buf, i, len);
    if n == 0 {
      return Invalid;
    }
    if (cp < 0x80 && n > 1) || (cp < 0x800 && n > 2) || (cp < 0x10000 && n > 3) {
      return Invalid;
    }
    if cp > 0x10FFFF {
      return Invalid;
    }
    if 0xD800 <= cp <= 0xDFFF {
      return Invalid;
    }
    return Valid(n, cp);
  }

  lemma NulIsNotCont()
    ensures !IsCont(0)
  {
  }

  /** Never looks beyond the terminator and accepts exactly the UTF8-octets of RFC 3629. */
  method IsValidUtf8(buf: array<byte>, len: nat) returns (ok: bool)
    requires Terminated(buf, len)
    ensures ok <==> Utf8Octets(buf[..len])
  {
    hide VerifySequence;
    hide Utf8Char;
    hide Utf8Octets;
    ghost var s := buf[..len];
    var i := 0;
    while i < len
      invariant 0 <= i <= len
      invariant Utf8Octets(s) <==> Utf8Octets(s[i..])
    {
      var v := VerifyUtf8Sequence(buf, i, len);
      OctetsStep(s, i);
      if v.Invalid? {
        return false;
      }
      i := i + v.length;
    }
    NoOctets();
    assert s[i..] == [];
    return true;
  }

  lemma NoOctets()
    ensures Utf8Octets([])
  {
  }

  /** The encoding of a character is one UTF8-char that the validator decodes to it. */
  lemma EncodeVerifies(cp: bv32)
    requires Scalar(cp)
    ensures VerifySequence(Encode(cp), 0) == Valid(|Encode(cp)|, cp)
  {
    if cp < 0x80 {
    } else if cp < 0x800 {
      EncodeTwo(cp);
    } else if cp < 0x10000 {
      EncodeThree(cp);
    } else {
      EncodeFour(cp);
    }
  }

  lemma EncodeTwoBits(cp: bv32, b0: byte, b1: byte)
    requires 0x80 <= cp < 0x800
    requires b0 == (((cp >> 6) & 0x1F) | 0xC0) as byte && b1 == ((cp & 0x3F) | 0x80) as byte
    ensures Assemble(b0, b1, 0, 0, 2) == cp
    ensures SequenceLength(b0) == 2 && IsCont(b1)
  {
  }

  lemma EncodeTwo(cp: bv32)
    requires 0x80 <= cp < 0x800
    ensures VerifySequence(Encode(cp), 0) == Valid(2, cp)
  {
    hide SequenceLength;
    hide Assemble;
    hide IsCont;
    var e := Encode(cp);
    EncodeTwoBits(cp, e[0], e[1]);
  }

  lemma EncodeThreeBits(cp: bv32, b0: byte, b1: byte, b2: byte)
    requires 0x800 <= cp < 0x10000
    requires b0 == (((cp >> 12) & 0x0F) | 0xE0) as byte && b1 == (((cp >> 6) & 0x3F) | 0x80) as byte
    requires b2 == ((cp & 0x3F) | 0x80) as byte
    ensures Assemble(b0, b1, b2, 0, 3) == cp
  {
  }

  lemma EncodeThreeShape(cp: bv32)
    requires 0x800 <= cp < 0x10000
    ensures SequenceLength((((cp >> 12) & 0x0F) | 0xE0) as byte) == 3
    ensures IsCont((((cp >> 6) & 0x3F) | 0x80) as byte) && IsCont(((cp & 0x3F) | 0x80) as byte)
  {
  }

  lemma EncodeThree(cp: bv32)
    requires 0x800 <= cp < 0x10000 && Scalar(cp)
    ensures VerifySequence(Encode(cp), 0) == Valid(3, cp)
  {
    hide SequenceLength;
    hide Assemble;
    hide IsCont;
    var e := Encode(cp);
    EncodeThreeBits(cp, e[0], e[1], e[2]);
    EncodeThreeShape(cp);
  }

  lemma EncodeFourBits(cp: bv32, b0: byte, b1: byte, b2: byte, b3: byte)
    requires 0x10000 <= cp <= 0x10FFFF
    requires b0 == (((cp >> 18) & 0x07) | 0xF0) as byte && b1 == (((cp >> 12) & 0x3F) | 0x80) as byte
    requires b2 == (((cp >> 6) & 0x3F) | 0x80) as byte && b3 == ((cp & 0x3F) | 0x80) as byte
    ensures Assemble(b0, b1, b2, b3, 4) == cp
  {
  }

  lemma EncodeFourShape(cp: bv32)
    requires 0x10000 <= cp <= 0x10FFFF
    ensures SequenceLength((((cp >> 18) & 0x07) | 0xF0) as byte) == 4
    ensures IsCont((((cp >> 12) & 0x3F) | 0x80) as byte) && IsCont((((cp >> 6) & 0x3F) | 0x80) as byte)
    ensures IsCont(((cp & 0x3F) | 0x80) as byte)
  {
  }

  lemma EncodeFour(cp: bv32)
    requires 0x10000 <= cp <= 0x10FFFF
    ensures VerifySequence(Encode(cp), 0) == Valid(4, cp)
  {
    hide SequenceLength;
    hide Assemble;
    hide IsCont;
    var e := Encode(cp);
    EncodeFourBits(cp, e[0], e[1], e[2], e[3]);
    EncodeFourShape(cp);
  }
}
