/** json_serialize_to_buffer_r: what it prints, and that measuring and writing agree. */
module JsonPrint {
  import opened Bytes
  import opened JsonValue
  import opened JsonStrings

  // ----- strings -----

  function HexChar(d: byte): byte {
    if d < 10 then 0x30 + d else 0x57 + d
  }

  /** What json_serialize_string appends for one byte. */
  function EscapeByte(c: byte): seq<byte> {
    if c == QUOTE || c == BACKSLASH || c == SLASH then [BACKSLASH, c]
    else if c == 0x08 then [BACKSLASH, 0x62]
    else if c == 0x0C then [BACKSLASH, 0x66]
    else if c == 0x0A then [BACKSLASH, 0x6E]
    else if c == 0x0D then [BACKSLASH, 0x72]
    else if c == 0x09 then [BACKSLASH, 0x74]
    else if c < 0x20 then [BACKSLASH, LOWER_U, 0x30, 0x30, HexChar(c >> 4), HexChar(c & 0xF)]
    else [c]
  }

  /** The first n bytes of str, escaped. */
  function EscapeTo(str: seq<byte>, n: nat): seq<byte>
    requires n <= |str|
  {
    if n == 0 then [] else EscapeTo(str, n - 1) + EscapeByte(str[n - 1])
  }

  lemma {:induction false} EscapeGrows(str: seq<byte>, i: nat, n: nat)
    requires i <= n <= |str|
    ensures |EscapeTo(str, i)| <= |EscapeTo(str, n)|
  {
    hide EscapeByte;
    if i < n { EscapeGrows(str, i, n - 1); }
  }

  function Quote(str: seq<byte>): seq<byte> {
    [QUOTE] + EscapeTo(str, |str|) + [QUOTE]
  }

  // ----- numbers -----

  function Digit(d: nat): byte
    requires d < 10
  {
    [0x30, 0x31, 0x32, 0x33, 0x34, 0x35, 0x36, 0x37, 0x38, 0x39][d]
  }

  function Digits(n: nat): seq<byte> {
    if n < 10 then [Digit(n)] else Digits(n / 10) + [Digit(n % 10)]
  }

  function Decimal(n: int): seq<byte> {
    if n < 0 then [0x2D] + Digits(-n) else Digits(n)
  }

  const NUM_BUF_SIZE: nat := 64

  function Power10(k: nat): nat {
    if k == 0 then 1 else 10 * Power10(k - 1)
  }

  lemma {:induction false} DigitsFit(n: nat, k: nat)
    requires k > 0 && n < Power10(k)
    ensures |Digits(n)| <= k
  {
    if n >= 10 { DigitsFit(n / 10, k - 1); }
  }

  /** The scratch buffer of the measuring pass holds every number and its terminator. */
  lemma NumberFits(n: Int53)
    ensures |Decimal(n)| < NUM_BUF_SIZE
  {
    assert Power10(16) == 10_000_000_000_000_000 by {
      assert Power10(4) == 10_000;
      assert Power10(8) == 100_000_000;
      assert Power10(12) == 1_000_000_000_000;
    }
    DigitsFit(if n < 0 then -n else n, 16);
  }

  // ----- values -----

  const NULL_TOKEN: seq<byte> := [0x6E, 0x75, 0x6C, 0x6C]
  const TRUE_TOKEN: seq<byte> := [0x74, 0x72, 0x75, 0x65]
  const FALSE_TOKEN: seq<byte> := [0x66, 0x61, 0x6C, 0x73, 0x65]
  const LBRACKET: byte := 0x5B
  const RBRACKET: byte := 0x5D
  const LBRACE: byte := 0x7B
  const RBRACE: byte := 0x7D
  const COMMA: byte := 0x2C
  const COLON: byte := 0x3A
  const SPACE: byte := 0x20
  const NEWLINE: byte := 0x0A

  function Indent(level: nat): seq<byte> {
    if level == 0 then [] else Indent(level - 1) + [SPACE, SPACE, SPACE, SPACE]
  }

  /** Four blanks for every level. */
  lemma {:induction false} IndentWidth(level: nat)
    ensures |Indent(level)| == 4 * level && forall k | 0 <= k < |Indent(level)| :: Indent(level)[k] == SPACE
  {
    if level > 0 { IndentWidth(level - 1); }
  }

  function When(b: bool, s: seq<byte>): seq<byte> {
    if b then s else []
  }

  function Print(v: Json, level: nat, pretty: bool): seq<byte>
    decreases v, 2, 0
  {
    match v
    case Null => NULL_TOKEN
    case Bool(b) => if b then TRUE_TOKEN else FALSE_TOKEN
    case Number(n) => Decimal(n)
    case String(s) => Quote(s)
    case Array(items) =>
      [LBRACKET] + When(items != [] && pretty, [NEWLINE]) + ItemsTo(v, |items|, level, pretty)
      + When(items != [] && pretty, Indent(level)) + [RBRACKET]
    case Object(ms) =>
      [LBRACE] + When(ms != [] && pretty, [NEWLINE]) + MembersTo(v, |ms|, level, pretty)
      + When(ms != [] && pretty, Indent(level)) + [RBRACE]
  }

  /** What follows an element: a comma unless it is the last, and a line break. */
  function After(i: nat, count: nat, pretty: bool): seq<byte> {
    When(i + 1 < count, [COMMA]) + When(pretty, [NEWLINE])
  }

  function Item(v: Json, i: nat, level: nat, pretty: bool): seq<byte>
    requires v.Array? && i < |v.items|
    decreases v, 0, 0
  {
    When(pretty, Indent(level + 1)) + Print(v.items[i], level + 1, pretty) + After(i, |v.items|, pretty)
  }

  /** The first n elements of an array. */
  function ItemsTo(v: Json, n: nat, level: nat, pretty: bool): seq<byte>
    requires v.Array? && n <= |v.items|
    decreases v, 1, n
  {
    if n == 0 then [] else ItemsTo(v, n - 1, level, pretty) + Item(v, n - 1, level, pretty)
  }

  /** The value printed for member i is the one found under its name. */
  function Named(v: Json, i: nat): (r: Json)
    requires v.Object? && i < |v.members|
    ensures r < v
  {
    var found := Find(v.members, v.members[i].name, 0);
    assert found.Some?;
    v.members[found.value].value
  }

  function Pair(v: Json, i: nat, level: nat, pretty: bool): seq<byte>
    requires v.Object? && i < |v.members|
    decreases v, 0, 0
  {
    When(pretty, Indent(level + 1)) + Quote(v.members[i].name) + [COLON] + When(pretty, [SPACE])
    + Print(Named(v, i), level + 1, pretty) + After(i, |v.members|, pretty)
  }

  /** The first n members of an object. */
  function MembersTo(v: Json, n: nat, level: nat, pretty: bool): seq<byte>
    requires v.Object? && n <= |v.members|
    decreases v, 1, n
  {
    if n == 0 then [] else MembersTo(v, n - 1, level, pretty) + Pair(v, n - 1, level, pretty)
  }
}
