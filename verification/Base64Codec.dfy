/** base64_encode and base64_decode with their small arrays and counters. */
module Base64Codec {
  import opened Bytes
  import opened Base64

  /** Three bytes into four six-bit numbers. */
  method Spread(three: array<byte>, four: array<byte>)
    requires three.Length == 3 && four.Length == 4 && three != four
    modifies four
    ensures four[0] == First(three[0]) && four[1] == Second(three[0], three[1])
    ensures four[2] == Third(three[1], three[2]) && four[3] == Fourth(three[2])
  {
    four[0] := (three[0] & 0xFC) >> 2;
    four[1] := ((three[0] & 0x03) << 4) + ((three[1] & 0xF0) >> 4);
    four[2] := ((three[1] & 0x0F) << 2) + ((three[2] & 0xC0) >> 6);
    four[3] := three[2] & 0x3F;
  }

  /** The first n of the four numbers as letters. */
  method AppendLetters(four: array<byte>, n: nat, a: byte, b: byte, c: byte, ret: seq<byte>) returns (ret': seq<byte>)
    requires four.Length == 4 && n <= 4
    requires four[0] == First(a) && four[1] == Second(a, b) && four[2] == Third(b, c) && four[3] == Fourth(c)
    ensures ret' == ret + Group(a, b, c)[..n]
  {
    hide First;
    hide Second;
    hide Third;
    hide Fourth;
    hide Letter;
    SixBits(a, b, c);
    ret' := ret;
    for j := 0 to n
      invariant ret' == ret + Group(a, b, c)[..j]
    {
      ret' := ret' + [Letter(four[j])];
      assert Group(a, b, c)[..j + 1] == Group(a, b, c)[..j] + [Group(a, b, c)[j]];
    }
  }

  method EncodeGroup(three: array<byte>, four: array<byte>, ret: seq<byte>) returns (ret': seq<byte>)
    requires three.Length == 3 && four.Length == 4 && three != four
    modifies four
    ensures ret' == ret + Group(three[0], three[1], three[2])
  {
    hide First;
    hide Second;
    hide Third;
    hide Fourth;
    Spread(three, four);
    ret' := AppendLetters(four, 4, three[0], three[1], three[2], ret);
    assert Group(three[0], three[1], three[2])[..4] == Group(three[0], three[1], three[2]);
  }

  /** One or two bytes are left: fill up with zeros, then pad. */
  method EncodeTail(three: array<byte>, four: array<byte>, i: nat, ret: seq<byte>) returns (ret': seq<byte>)
    requires three.Length == 3 && four.Length == 4 && three != four && 1 <= i < 3
    modifies three, four
    ensures ret' == ret + Rest(old(three[..i]))
  {
    hide First;
    hide Second;
    hide Third;
    hide Fourth;
    hide Group;
    ghost var tail := three[..i];
    for j := i to 3
      invariant three[..i] == tail && forall k | i <= k < j :: three[k] == 0
    {
      three[j] := 0;
    }
    assert three[0] == tail[0] && (i == 2 ==> three[1] == tail[1]);
    Spread(three, four);
    var a, b, c := three[0], three[1], three[2];
    ret' := AppendLetters(four, i + 1, a, b, c, ret);
    ghost var letters := ret';
    for j := i to 3
      invariant ret' == letters + seq(j - i, _ => PAD)
    {
      ret' := ret' + [PAD];
    }
    assert ret' == ret + (Group(a, b, c)[..i + 1] + if i == 1 then [PAD, PAD] else [PAD]);
  }

  method Base64Encode(input: array<byte>) returns (ret: seq<byte>)
    ensures ret == Encode(input[..])
  {
    hide Group;
    hide Rest;
    hide Encode;
    ghost var s := input[..];
    var three, four := new byte[3], new byte[4];
    var i, pos := 0, 0;
    ret := [];
    ghost var n: nat := 0;
    while pos < input.Length
      invariant 0 <= pos <= input.Length == |s| && 0 <= i < 3 && pos == 3 * n + i
      invariant input[..] == s && three[..i] == s[3 * n..pos]
      invariant ret == GroupsTo(s, n)
    {
      SliceSnoc(s, 3 * n, pos);
      ghost var had := three[..i];
      three[i] := input[pos];
      assert three[..i + 1] == had + [s[pos]];
      i, pos := i + 1, pos + 1;
      if i == 3 {
        assert three[..i][0] == s[3 * n] && three[..i][1] == s[3 * n + 1] && three[..i][2] == s[3 * n + 2];
        ret := EncodeGroup(three, four, ret);
        i, n := 0, n + 1;
      }
    }
    EncodeIs(s, n, i);
    ghost var tail := three[..i];
    assert tail == s[3 * n..];
    if i != 0 {
      ret := EncodeTail(three, four, i, ret);
    } else {
      NoRest();
    }
    assert input[..] == s;
  }

  lemma EncodeIs(s: seq<byte>, n: nat, i: nat)
    requires |s| == 3 * n + i && i < 3
    ensures Encode(s) == GroupsTo(s, n) + Rest(s[3 * n..])
  {
    hide GroupsTo;
    hide Rest;
    Quotients(n, i);
  }

  lemma SliceSnoc(s: seq<byte>, a: nat, b: nat)
    requires a <= b < |s|
    ensures s[a..b + 1] == s[a..b] + [s[b]]
  {
  }

  lemma NoRest()
    ensures Rest([]) == []
  {
  }

  /** Replaces the first n letters by their values. */
  method LookUp(four: array<byte>, n: nat)
    requires four.Length == 4 && n <= 4 && AllLetters(four[..n])
    modifies four
    ensures forall k | 0 <= k < n :: IsLetter(old(four[k])) && four[k] == Value(old(four[k]))
  {
    hide Value;
    hide IsLetter;
    ghost var was := four[..n];
    for i := 0 to n
      invariant forall k | 0 <= k < i :: four[k] == Value(was[k])
      invariant forall k | i <= k < n :: four[k] == was[k]
    {
      four[i] := Value(four[i]);
    }
    assert forall k | 0 <= k < n :: was[k] == old(four[k]);
  }

  /** Four letters into three bytes. */
  method Gather(four: array<byte>, three: array<byte>)
    requires three.Length == 3 && four.Length == 4 && three != four && AllLetters(four[..4])
    modifies four, three
    ensures IsLetter(old(four[0])) && IsLetter(old(four[1])) && IsLetter(old(four[2])) && IsLetter(old(four[3]))
    ensures three[..] == Ungroup(old(four[0]), old(four[1]), old(four[2]), old(four[3]))
  {
    hide Value;
    hide IsLetter;
    hide ByteA;
    hide ByteB;
    hide ByteC;
    LookUp(four, 4);
    three[0] := ByteA(four[0], four[1]);
    three[1] := ByteB(four[1], four[2]);
    three[2] := ByteC(four[2], four[3]);
  }

  /** One, two or three letters are left. A byte is only appended when all its bits are there. */
  method GatherTail(four: array<byte>, three: array<byte>, i: nat, ret: seq<byte>) returns (ret': seq<byte>)
    requires three.Length == 3 && four.Length == 4 && three != four && 1 <= i < 4
    requires AllLetters(four[..i])
    modifies four, three
    ensures ret' == ret + Unrest(old(four[..i]))
  {
    hide Value;
    hide IsLetter;
    hide ByteA;
    hide ByteB;
    ghost var was := four[..i];
    LookUp(four, i);
    three[0] := ByteA(four[0], four[1]);
    three[1] := ByteB(four[1], four[2]);
    ret' := ret;
    for j := 0 to i - 1
      invariant ret' == ret + three[..j]
    {
      ret' := ret' + [three[j]];
    }
    assert three[..i - 1] == Unrest(was);
  }

  lemma LettersNext(t: seq<byte>, i: nat)
    requires i <= |t|
    ensures i <= Letters(t, i) <= |t|
    ensures i < |t| && IsLetter(t[i]) ==> Letters(t, i) == Letters(t, i + 1)
    ensures !(i < |t| && IsLetter(t[i])) ==> Letters(t, i) == i
  {
  }

  lemma UngroupsNext(l: seq<byte>, n: nat, four: seq<byte>)
    requires 4 * n + 4 <= |l| && AllLetters(l) && four == l[4 * n..4 * n + 4]
    ensures AllLetters(four) && UngroupsTo(l, n + 1) == UngroupsTo(l, n) + Ungroup(four[0], four[1], four[2], four[3])
  {
    hide Ungroup;
    hide IsLetter;
  }

  method Base64Decode(encoded: seq<byte>) returns (ret: seq<byte>)
    ensures ret == Decode(encoded)
  {
    hide Ungroup;
    hide UngroupsTo;
    hide Unrest;
    hide IsLetter;
    hide Letters;
    hide Decode;
    PadIsNoLetter();
    ghost var m := Letters(encoded, 0);
    ghost var l := encoded[..m];
    var four, three := new byte[4], new byte[3];
    var i, pos := 0, 0;
    ghost var n: nat := 0;
    ret := [];
    NoUngroups(l);
    while pos < |encoded| && encoded[pos] != PAD && IsLetter(encoded[pos])
      invariant 0 <= pos <= m <= |encoded| && 0 <= i < 4 && pos == 4 * n + i
      invariant Letters(encoded, pos) == m
      invariant four[..i] == l[4 * n..pos]
      invariant ret == UngroupsTo(l, n)
    {
      LettersNext(encoded, pos);
      LettersNext(encoded, pos + 1);
      SliceSnoc(l, 4 * n, pos);
      ghost var had := four[..i];
      four[i] := encoded[pos];
      assert four[..i + 1] == had + [encoded[pos]];
      i, pos := i + 1, pos + 1;
      if i == 4 {
        UngroupsNext(l, n, four[..4]);
        Gather(four, three);
        ret := ret + three[..];
        i, n := 0, n + 1;
      }
    }
    LettersNext(encoded, pos);
    assert pos == m;
    DecodeIs(encoded, n, i);
    ghost var tail := four[..i];
    assert tail == l[4 * n..];
    if i != 0 {
      ret := GatherTail(four, three, i, ret);
    } else {
      NoUnrest();
    }
  }

  lemma DecodeIs(t: seq<byte>, n: nat, i: nat)
    requires Letters(t, 0) == 4 * n + i && i < 4
    ensures var l := t[..Letters(t, 0)];
      Decode(t) == UngroupsTo(l, n) + Unrest(l[4 * n..])
  {
    hide UngroupsTo;
    hide Unrest;
    hide IsLetter;
    Quotients(n, i);
  }

  lemma NoUngroups(l: seq<byte>)
    requires AllLetters(l)
    ensures UngroupsTo(l, 0) == []
  {
  }

  lemma NoUnrest()
    ensures Unrest([]) == []
  {
  }
}
