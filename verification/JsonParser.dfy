/** The parser as it runs: cursors into a terminated buffer, a loop for each container. No
    access is past the terminator. */
module JsonParser {
  import opened Bytes
  import opened JsonValue
  import opened JsonStrings
  import opened JsonPrint
  import opened JsonScanner
  import opened JsonGrammar
  import Utf8

  method SkipWhitespaces(buf: array<byte>, ghost n: nat, i: nat) returns (p: nat)
    requires Utf8.Terminated(buf, n) && i <= n
    ensures p <= n && p == SkipSpace(buf[..n], i)
  {
    ghost var s := buf[..n];
    p := i;
    while IsSpace(buf[p])
      invariant i <= p <= n && SkipSpace(s, p) == SkipSpace(s, i)
      decreases n - p
    {
      Pointer(buf, n, p);
      p := p + 1;
    }
    Pointer(buf, n, p);
  }

  /** strncmp against a token: stops at the first byte that differs. */
  method Matches(buf: array<byte>, ghost n: nat, i: nat, token: CString) returns (yes: bool)
    requires Utf8.Terminated(buf, n) && i <= n
    ensures yes <==> Has(buf[..n], i, token)
  {
    ghost var s := buf[..n];
    for k := 0 to |token|
      invariant i + k <= n && s[i..i + k] == token[..k]
    {
      Pointer(buf, n, i + k);
      if buf[i + k] != token[k] {
        if Has(s, i, token) { HasAt(s, i, token, k); }
        return false;
      }
      assert s[i..i + k + 1] == s[i..i + k] + [s[i + k]];
      assert token[..k + 1] == token[..k] + [token[k]];
    }
    assert token[..|token|] == token;
    return true;
  }

  /** strtod on plain digits: where they end and what number they write. */
  method ReadDigits(buf: array<byte>, ghost n: nat, i: nat) returns (e: nat, value: nat)
    requires Utf8.Terminated(buf, n) && i <= n
    ensures e <= n && e == DigitsEnd(buf[..n], i) && value == NumberOf(buf[..n], i, e)
  {
    hide DigitValue;
    hide IsDigit;
    NulIsNoDigit();
    ghost var s := buf[..n];
    e, value := i, 0;
    while IsDigit(buf[e])
      invariant i <= e <= n && DigitsEnd(s, e) == DigitsEnd(s, i) && value == NumberOf(s, i, e)
      decreases n - e
    {
      Pointer(buf, n, e);
      value := 10 * value + DigitValue(buf[e]);
      e := e + 1;
    }
    Pointer(buf, n, e);
  }

  lemma NulIsNoDigit()
    ensures !IsDigit(0)
  {
  }

  method HasExponent(buf: array<byte>, ghost n: nat, e: nat) returns (yes: bool)
    requires Utf8.Terminated(buf, n) && e <= n
    ensures yes <==> Exponent(buf[..n], e)
  {
    Pointer(buf, n, e);
    if !IsLetter(buf[e], 0x65) {
      return false;
    }
    Pointer(buf, n, e + 1);
    if !IsSign(buf[e + 1]) {
      return IsDigit(buf[e + 1]);
    }
    Pointer(buf, n, e + 2);
    return IsDigit(buf[e + 1]) || IsDigit(buf[e + 2]);
  }

  method IsHexadecimal(buf: array<byte>, ghost n: nat, e: nat) returns (yes: bool)
    requires Utf8.Terminated(buf, n) && e <= n
    ensures yes <==> Hexadecimal(buf[..n], e)
  {
    Pointer(buf, n, e);
    if !IsLetter(buf[e], 0x78) {
      return false;
    }
    Pointer(buf, n, e + 1);
    if buf[e + 1] != POINT {
      return IsHex(buf[e + 1]);
    }
    Pointer(buf, n, e + 2);
    return IsHex(buf[e + 1]) || IsHex(buf[e + 2]);
  }

  method IsNotFinite(buf: array<byte>, ghost n: nat, i: nat) returns (yes: bool)
    requires Utf8.Terminated(buf, n) && i <= n
    ensures yes <==> NotFinite(buf[..n], i)
  {
    Pointer(buf, n, i);
    if !IsLetter(buf[i], 0x69) && !IsLetter(buf[i], 0x6E) {
      return false;
    }
    Pointer(buf, n, i + 1);
    if !IsLetter(buf[i + 1], 0x6E) && !IsLetter(buf[i + 1], 0x61) {
      return false;
    }
    Pointer(buf, n, i + 2);
    return
      (IsLetter(buf[i], 0x69) && IsLetter(buf[i + 1], 0x6E) && IsLetter(buf[i + 2], 0x66))
      || (IsLetter(buf[i], 0x6E) && IsLetter(buf[i + 1], 0x61) && IsLetter(buf[i + 2], 0x6E));
  }

  method ParseNumberValue(buf: array<byte>, ghost n: nat, i: nat) returns (r: Parsed)
    requires Utf8.Terminated(buf, n) && i < n
    ensures r == NumberAt(buf[..n], i)
  {
    hide NumberOf;
    hide DigitsEnd;
    hide IsDigit;
    ghost var s := buf[..n];
    Pointer(buf, n, i);
    Pointer(buf, n, i + 1);
    var start := if buf[i] == MINUS then i + 1 else i;
    var e, value := ReadDigits(buf, n, start);
    Pointer(buf, n, start);
    Pointer(buf, n, e);
    DigitsEndAfter(s, start);
    if e == start {
      var special := IsNotFinite(buf, n, e);
      if special {
        return Fail;
      }
      return if buf[e] == POINT && IsDigit(buf[e + 1]) then Unmodelled else Ok(Number(0), i);
    }
    if (e - i > 1 && buf[i] == ZERO) || (e - i > 2 && buf[i] == MINUS && buf[i + 1] == ZERO) {
      return Fail;
    }
    var exponent := HasExponent(buf, n, e);
    var hexadecimal := IsHexadecimal(buf, n, e);
    if e == start + 1 && buf[start] == ZERO && (hexadecimal || exponent) {
      return Fail;
    }
    if buf[e] == POINT || exponent {
      return Unmodelled;
    }
    if value >= 0x20_0000_0000_0000 {
      return Unmodelled;
    }
    var number: int := value;
    return Ok(Number(if buf[i] == MINUS then -number else number), e);
  }

  lemma DigitsEndAfter(s: seq<byte>, i: nat)
    requires i <= |s|
    ensures i <= DigitsEnd(s, i) <= |s|
  {
  }

  method ParseStringValue(buf: array<byte>, ghost n: nat, i: nat) returns (r: Parsed)
    requires Utf8.Terminated(buf, n) && i <= n
    ensures r == StringAt(buf[..n], i)
  {
    hide Quoted;
    var quoted := GetQuotedString(buf, n, i);
    if quoted.None? {
      return Fail;
    }
    return Ok(String(UpToNul(quoted.value.0)), quoted.value.1);
  }

  method ParseToken(buf: array<byte>, ghost n: nat, i: nat, token: CString, v: Json) returns (r: Parsed)
    requires Utf8.Terminated(buf, n) && i <= n
    ensures r == TokenAt(buf[..n], i, token, v)
  {
    var yes := Matches(buf, n, i, token);
    return if yes then Ok(v, i + |token|) else Fail;
  }

  method ParseValue(buf: array<byte>, ghost n: nat, i: nat, nesting: nat) returns (r: Parsed)
    requires Utf8.Terminated(buf, n) && i <= n
    ensures r == ValueAt(buf[..n], i, nesting)
    decreases n - i, 3
  {
    hide NumberAt;
    hide StringAt;
    hide TokenAt;
    hide SkipSpace;
    if nesting > MAX_NESTING {
      return Fail;
    }
    var p := SkipWhitespaces(buf, n, i);
    SkipsForward(buf[..n], i);
    Pointer(buf, n, p);
    Tokens();
    if buf[p] == LBRACE {
      r := ParseObjectValue(buf, n, p, nesting + 1);
    } else if buf[p] == LBRACKET {
      r := ParseArrayValue(buf, n, p, nesting + 1);
    } else if buf[p] == QUOTE {
      r := ParseStringValue(buf, n, p);
    } else if buf[p] == 0x74 {
      r := ParseToken(buf, n, p, TRUE_TOKEN, Bool(true));
    } else if buf[p] == 0x66 {
      r := ParseToken(buf, n, p, FALSE_TOKEN, Bool(false));
    } else if buf[p] == 0x6E {
      r := ParseToken(buf, n, p, NULL_TOKEN, Null);
    } else if buf[p] == MINUS || IsDigit(buf[p]) {
      r := ParseNumberValue(buf, n, p);
    } else {
      r := Fail;
    }
  }

  lemma Tokens()
    ensures NulFree(TRUE_TOKEN) && NulFree(FALSE_TOKEN) && NulFree(NULL_TOKEN)
    ensures !IsDigit(0)
  {
  }

  lemma SkipsForward(s: seq<byte>, i: nat)
    requires i <= |s|
    ensures i <= SkipSpace(s, i) <= |s|
  {
  }

  method ParseArrayValue(buf: array<byte>, ghost n: nat, i: nat, nesting: nat) returns (r: Parsed)
    requires Utf8.Terminated(buf, n) && i < n && buf[i] == LBRACKET
    ensures r == ArrayAt(buf[..n], i, nesting)
    decreases n - i, 2
  {
    hide ValueAt;
    hide SkipSpace;
    hide At;
    hide IsSpace;
    hide NulFree;
    ghost var s := buf[..n];
    var p := SkipWhitespaces(buf, n, i + 1);
    SkipsForward(s, i + 1);
    Pointer(buf, n, p);
    if buf[p] == RBRACKET {
      return Ok(Array([]), p + 1);
    }
    var items: seq<Json> := [];
    while true
      invariant i < p <= n && ItemsFrom(s, p, nesting, items) == ArrayAt(s, i, nesting)
      decreases n - p
    {
      var item := ParseValue(buf, n, p, nesting);
      if !item.Ok? {
        return item;
      }
      var q := SkipWhitespaces(buf, n, item.next);
      SkipsForward(s, item.next);
      Pointer(buf, n, q);
      items := items + [item.value];
      if buf[q] != COMMA {
        return if buf[q] == RBRACKET then Ok(Array(items), q + 1) else Fail;
      }
      p := SkipWhitespaces(buf, n, q + 1);
      SkipsForward(s, q + 1);
    }
  }

  method ParseObjectValue(buf: array<byte>, ghost n: nat, i: nat, nesting: nat) returns (r: Parsed)
    requires Utf8.Terminated(buf, n) && i < n && buf[i] == LBRACE
    ensures r == ObjectAt(buf[..n], i, nesting)
    decreases n - i, 2
  {
    hide ValueAt;
    hide SkipSpace;
    hide At;
    hide IsSpace;
    hide NulFree;
    hide Quoted;
    hide Find;
    hide UpToNul;
    ghost var s := buf[..n];
    var p := SkipWhitespaces(buf, n, i + 1);
    SkipsForward(s, i + 1);
    Pointer(buf, n, p);
    if buf[p] == RBRACE {
      return Ok(Object([]), p + 1);
    }
    var members: seq<Member> := [];
    while true
      invariant i < p <= n && MembersFrom(s, p, nesting, members) == ObjectAt(s, i, nesting)
      decreases n - p
    {
      var key := GetQuotedString(buf, n, p);
      if key.None? {
        return Fail;
      }
      var c := SkipWhitespaces(buf, n, key.value.1);
      SkipsForward(s, key.value.1);
      Pointer(buf, n, c);
      if buf[c] != COLON {
        return Fail;
      }
      var value := ParseValue(buf, n, c + 1, nesting);
      if !value.Ok? {
        return value;
      }
      var name := UpToNul(key.value.0);
      if Find(members, name, 0).Some? {
        return Fail;
      }
      members := members + [Member(name, value.value)];
      var q := SkipWhitespaces(buf, n, value.next);
      SkipsForward(s, value.next);
      Pointer(buf, n, q);
      if buf[q] != COMMA {
        return if buf[q] == RBRACE then Ok(Object(members), q + 1) else Fail;
      }
      p := SkipWhitespaces(buf, n, q + 1);
      SkipsForward(s, q + 1);
    }
  }

  method ParseString(buf: array<byte>, ghost n: nat) returns (r: Parsed)
    requires Utf8.Terminated(buf, n)
    ensures r == Text(buf[..n])
  {
    hide ValueAt;
    hide Has;
    MarkIsNulFree();
    var mark := Matches(buf, n, 0, [0xEF, 0xBB, 0xBF]);
    if mark { MarkLength(buf[..n]); }
    r := ParseValue(buf, n, if mark then 3 else 0, 0);
  }

  lemma MarkIsNulFree()
    ensures NulFree([0xEF, 0xBB, 0xBF])
  {
  }

  lemma MarkLength(s: seq<byte>)
    requires Has(s, 0, [0xEF, 0xBB, 0xBF])
    ensures |s| >= 3
  {
  }
}
