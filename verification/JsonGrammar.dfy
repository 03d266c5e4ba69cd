/** What parson.c's parser makes of a text, position by position. */
module JsonGrammar {
  import opened Bytes
  import opened JsonValue
  import opened JsonStrings
  import opened JsonPrint
  import opened JsonScanner

  const MAX_NESTING: nat := 2048
  const MINUS: byte := 0x2D
  const ZERO: byte := 0x30
  const POINT: byte := 0x2E

  /** Unmodelled: the text has a number with a fraction or an exponent, or from 2^53 on. */
  datatype Parsed = Ok(value: Json, next: nat) | Fail | Unmodelled

  predicate IsSpace(c: byte) {
    c == 0x20 || 0x09 <= c <= 0x0D
  }

  /** SKIP_WHITESPACES. */
  function SkipSpace(s: seq<byte>, i: nat): (r: nat)
    requires i <= |s|
    ensures i <= r <= |s| && !IsSpace(At(s, r))
    decreases |s| - i
  {
    if IsSpace(At(s, i)) then SkipSpace(s, i + 1) else i
  }

  // ----- numbers -----

  predicate IsDigit(c: byte) {
    0x30 <= c <= 0x39
  }

  function DigitsEnd(s: seq<byte>, i: nat): (r: nat)
    requires i <= |s|
    ensures i <= r <= |s| && !IsDigit(At(s, r))
    decreases |s| - i
  {
    if IsDigit(At(s, i)) then DigitsEnd(s, i + 1) else i
  }

  function DigitValue(c: byte): nat
    requires IsDigit(c)
  {
    if c == 0x30 then 0 else if c == 0x31 then 1 else if c == 0x32 then 2 else if c == 0x33 then 3
    else if c == 0x34 then 4 else if c == 0x35 then 5 else if c == 0x36 then 6 else if c == 0x37 then 7
    else if c == 0x38 then 8 else 9
  }

  /** The number that the digits from i to e write. */
  function NumberOf(s: seq<byte>, i: nat, e: nat): nat
    decreases e - i
  {
    if i >= e then 0
    else 10 * NumberOf(s, i, e - 1) + (if IsDigit(At(s, e - 1)) then DigitValue(At(s, e - 1)) else 0)
  }

  /** The letter in either case. */
  predicate IsLetter(c: byte, lower: byte) {
    c == lower || c == lower - 0x20
  }

  predicate IsSign(c: byte) {
    c == 0x2B || c == MINUS
  }

  /** strtod goes on after the digits with an exponent. */
  predicate Exponent(s: seq<byte>, e: nat) {
    && IsLetter(At(s, e), 0x65)
    && (IsDigit(At(s, e + 1)) || (IsSign(At(s, e + 1)) && IsDigit(At(s, e + 2))))
  }

  /** strtod goes on after a single zero with a hexadecimal number. */
  predicate Hexadecimal(s: seq<byte>, e: nat) {
    IsLetter(At(s, e), 0x78) && (IsHex(At(s, e + 1)) || (At(s, e + 1) == POINT && IsHex(At(s, e + 2))))
  }

  /** inf or nan, which strtod takes and json_value_init_number refuses. */
  predicate NotFinite(s: seq<byte>, i: nat) {
    || (IsLetter(At(s, i), 0x69) && IsLetter(At(s, i + 1), 0x6E) && IsLetter(At(s, i + 2), 0x66))
    || (IsLetter(At(s, i), 0x6E) && IsLetter(At(s, i + 1), 0x61) && IsLetter(At(s, i + 2), 0x6E))
  }

  /** is_decimal on a number that goes on at least to e: no leading zero. */
  predicate LeadingZero(s: seq<byte>, i: nat, e: nat) {
    || (e - i > 1 && At(s, i) == ZERO)
    || (e - i > 2 && At(s, i) == MINUS && At(s, i + 1) == ZERO)
  }

  /** parse_number_value at i, where a digit or a minus sign stands. */
  function NumberAt(s: seq<byte>, i: nat): (r: Parsed)
    requires i < |s|
    ensures r.Ok? ==> i <= r.next <= |s|
  {
    var start := if At(s, i) == MINUS then i + 1 else i;
    var e := DigitsEnd(s, start);
    if e == start then
      if NotFinite(s, e) then Fail
      else if At(s, e) == POINT && IsDigit(At(s, e + 1)) then Unmodelled
      else Ok(Number(0), i)
    else if LeadingZero(s, i, e) then Fail
    else if e == start + 1 && At(s, start) == ZERO && (Hexadecimal(s, e) || Exponent(s, e)) then Fail
    else if At(s, e) == POINT || Exponent(s, e) then Unmodelled
    else
      var n: int := NumberOf(s, start, e);
      if n >= 0x20_0000_0000_0000 then Unmodelled
      else Ok(Number(if At(s, i) == MINUS then -n else n), e)
  }

  // ----- values -----

  function TokenAt(s: seq<byte>, i: nat, token: seq<byte>, v: Json): Parsed {
    if Has(s, i, token) then Ok(v, i + |token|) else Fail
  }

  function StringAt(s: seq<byte>, i: nat): Parsed {
    match Quoted(s, i)
    case None => Fail
    case Some(q) => Ok(String(UpToNul(q.0)), q.1)
  }

  function ValueAt(s: seq<byte>, i: nat, nesting: nat): (r: Parsed)
    requires i <= |s|
    ensures r.Ok? ==> i <= r.next <= |s|
    decreases |s| - i, 3
  {
    if nesting > MAX_NESTING then Fail
    else
      var p := SkipSpace(s, i);
      var c := At(s, p);
      if c == LBRACE then ObjectAt(s, p, nesting + 1)
      else if c == LBRACKET then ArrayAt(s, p, nesting + 1)
      else if c == QUOTE then StringAt(s, p)
      else if c == 0x74 then TokenAt(s, p, TRUE_TOKEN, Bool(true))
      else if c == 0x66 then TokenAt(s, p, FALSE_TOKEN, Bool(false))
      else if c == 0x6E then TokenAt(s, p, NULL_TOKEN, Null)
      else if c == MINUS || IsDigit(c) then NumberAt(s, p)
      else Fail
  }

  function ObjectAt(s: seq<byte>, i: nat, nesting: nat): (r: Parsed)
    requires i < |s|
    ensures r.Ok? ==> i <= r.next <= |s|
    decreases |s| - i, 2
  {
    var p := SkipSpace(s, i + 1);
    if At(s, p) == RBRACE then Ok(Object([]), p + 1) else MembersFrom(s, p, nesting, [])
  }

  /** The members from p on, after those in done. */
  function MembersFrom(s: seq<byte>, p: nat, nesting: nat, done: seq<Member>): (r: Parsed)
    requires p <= |s|
    ensures r.Ok? ==> p <= r.next <= |s|
    decreases |s| - p, 4
  {
    match Quoted(s, p)
    case None => Fail
    case Some(key) =>
      var c := SkipSpace(s, key.1);
      if At(s, c) != COLON then Fail
      else match ValueAt(s, c + 1, nesting)
        case Fail => Fail
        case Unmodelled => Unmodelled
        case Ok(v, next) =>
          var name := UpToNul(key.0);
          if Find(done, name, 0).Some? then Fail
          else
            var more, q := done + [Member(name, v)], SkipSpace(s, next);
            if At(s, q) == COMMA then MembersFrom(s, SkipSpace(s, q + 1), nesting, more)
            else if At(s, q) == RBRACE then Ok(Object(more), q + 1)
            else Fail
  }

  function ArrayAt(s: seq<byte>, i: nat, nesting: nat): (r: Parsed)
    requires i < |s|
    ensures r.Ok? ==> i <= r.next <= |s|
    decreases |s| - i, 2
  {
    var p := SkipSpace(s, i + 1);
    if At(s, p) == RBRACKET then Ok(Array([]), p + 1) else ItemsFrom(s, p, nesting, [])
  }

  /** The elements from p on, after those in done. */
  function ItemsFrom(s: seq<byte>, p: nat, nesting: nat, done: seq<Json>): (r: Parsed)
    requires p <= |s|
    ensures r.Ok? ==> p <= r.next <= |s|
    decreases |s| - p, 4
  {
    match ValueAt(s, p, nesting)
    case Fail => Fail
    case Unmodelled => Unmodelled
    case Ok(v, next) =>
      var more, q := done + [v], SkipSpace(s, next);
      if At(s, q) == COMMA then ItemsFrom(s, SkipSpace(s, q + 1), nesting, more)
      else if At(s, q) == RBRACKET then Ok(Array(more), q + 1)
      else Fail
  }

  /** json_parse_string: a byte order mark is skipped, and so is what follows the value. */
  function Text(s: seq<byte>): Parsed {
    ValueAt(s, if Has(s, 0, [0xEF, 0xBB, 0xBF]) then 3 else 0, 0)
  }
}
