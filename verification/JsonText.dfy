/** JSON texts as RFC 8259 defines them: syntax trees that record every choice a writer has,
    the bytes of a tree and the value it stands for. Names and constants are those of the
    RFC; the parser is not mentioned. */
module JsonText {
  import opened Bytes
  import opened JsonValue
  import opened JsonEscapes
  import Utf8

  // ----- section 2 -----

  /** The white space of the RFC, and the vertical tab and form feed of the C locale. */
  predicate Blank(c: byte) {
    c == 0x20 || c == 0x09 || c == 0x0A || c == 0x0D || c == 0x0B || c == 0x0C
  }

  predicate Blanks(t: seq<byte>) {
    forall k | 0 <= k < |t| :: Blank(t[k])
  }

  // ----- section 7 -----

  /** A character in a string: as it is, a two-character escape, one \u escape or a pair. */
  datatype Char = Raw(c: byte) | Short(letter: byte) | Single(h: seq<byte>) | Surrogates(h: seq<byte>, l: seq<byte>)

  const SHORT_LETTERS: string := "\"\\/bfnrt"
  const SHORT_BYTES: seq<byte> := [0x22, 0x5C, 0x2F, 0x08, 0x0C, 0x0A, 0x0D, 0x09]

  predicate IsHex4(h: seq<byte>) {
    |h| == 4 && HexPlace(h[0]) < 16 && HexPlace(h[1]) < 16 && HexPlace(h[2]) < 16 && HexPlace(h[3]) < 16
  }

  function UnitOf(h: seq<byte>): nat
    requires |h| == 4
  {
    CodeUnit(h[0], h[1], h[2], h[3])
  }

  predicate ValidChar(ch: Char) {
    match ch
    case Raw(c) => c >= 0x20 && c != 0x22 && c != 0x5C
    case Short(letter) => PlaceFrom(SHORT_LETTERS, letter, 0) < 8
    case Single(h) => IsHex4(h) && !(0xD800 <= UnitOf(h) <= 0xDFFF)
    case Surrogates(h, l) => IsHex4(h) && IsHex4(l) && 0xD800 <= UnitOf(h) <= 0xDBFF && 0xDC00 <= UnitOf(l) <= 0xDFFF
  }

  function CharText(ch: Char): seq<byte> {
    match ch
    case Raw(c) => [c]
    case Short(letter) => [0x5C, letter]
    case Single(h) => [0x5C, 0x75] + h
    case Surrogates(h, l) => [0x5C, 0x75] + h + [0x5C, 0x75] + l
  }

  /** The character of an escape. */
  function CodePoint(ch: Char): nat
    requires (ch.Single? || ch.Surrogates?) && ValidChar(ch)
  {
    if ch.Single? then UnitOf(ch.h) else 0x10000 + 1024 * (UnitOf(ch.h) - 0xD800) + (UnitOf(ch.l) - 0xDC00)
  }

  function CharBytes(ch: Char): seq<byte>
    requires ValidChar(ch)
  {
    match ch
    case Raw(c) => [c]
    case Short(letter) => [SHORT_BYTES[PlaceFrom(SHORT_LETTERS, letter, 0)]]
    case _ => CodeBounds(ch); Utf8.Encode(Bits32(CodePoint(ch)))
  }

  lemma CodeBounds(ch: Char)
    requires (ch.Single? || ch.Surrogates?) && ValidChar(ch)
    ensures CodePoint(ch) <= 0x10FFFF
  {
    hide HexPlace;
  }

  function CharsText(cs: seq<Char>): seq<byte> {
    if cs == [] then [] else CharText(cs[0]) + CharsText(cs[1..])
  }

  predicate ValidChars(cs: seq<Char>) {
    forall k | 0 <= k < |cs| :: ValidChar(cs[k])
  }

  function CharsBytes(cs: seq<Char>): seq<byte>
    requires ValidChars(cs)
  {
    if cs == [] then [] else CharBytes(cs[0]) + CharsBytes(cs[1..])
  }

  function StringText(cs: seq<Char>): seq<byte> {
    [0x22] + CharsText(cs) + [0x22]
  }

  /** A C string ends at an escaped NUL. */
  function StringValue(cs: seq<Char>): CString
    requires ValidChars(cs)
  {
    UpToNul(CharsBytes(cs))
  }

  // ----- section 6, without fraction and exponent -----

  const DECIMAL: string := "0123456789"

  predicate IsDecimal(t: seq<byte>) {
    forall k | 0 <= k < |t| :: PlaceFrom(DECIMAL, t[k], 0) < 10
  }

  function DecimalValue(t: seq<byte>): nat {
    if t == [] then 0 else 10 * DecimalValue(t[..|t| - 1]) + PlaceFrom(DECIMAL, t[|t| - 1], 0)
  }

  /** An integer part: no leading zero, and small enough for a double. */
  predicate IsInteger(t: seq<byte>) {
    t != [] && IsDecimal(t) && (t[0] == 0x30 ==> |t| == 1) && DecimalValue(t) < 0x20_0000_0000_0000
  }

  // ----- sections 3 to 5 -----

  datatype Doc =
    | NullDoc | TrueDoc | FalseDoc
    | IntDoc(minus: bool, digits: seq<byte>)
    | StringDoc(chars: seq<Char>)
    | ArrayDoc(blank: seq<byte>, items: seq<Element>)
    | ObjectDoc(blank: seq<byte>, entries: seq<Entry>)

  datatype Element = Element(before: seq<byte>, doc: Doc, after: seq<byte>)

  /** White space, name, white space, colon, white space, value, white space. */
  datatype Entry =
    Entry(before: seq<byte>, name: seq<Char>, middle: seq<byte>, behind: seq<byte>, doc: Doc, after: seq<byte>)

  predicate Valid(d: Doc) {
    match d
    case IntDoc(_, digits) => IsInteger(digits)
    case StringDoc(cs) => ValidChars(cs)
    case ArrayDoc(blank, items) => Blanks(blank) && ValidItems(items)
    case ObjectDoc(blank, entries) => Blanks(blank) && ValidEntries(entries)
    case _ => true
  }

  predicate ValidItems(items: seq<Element>) {
    forall k | 0 <= k < |items| :: ValidElement(items[k])
  }

  predicate ValidEntries(es: seq<Entry>) {
    forall k | 0 <= k < |es| :: ValidEntry(es[k])
  }

  predicate ValidElement(e: Element) {
    Blanks(e.before) && Valid(e.doc) && Blanks(e.after)
  }

  predicate ValidEntry(e: Entry) {
    && Blanks(e.before) && ValidChars(e.name) && Blanks(e.middle)
    && Blanks(e.behind) && Valid(e.doc) && Blanks(e.after)
  }

  function DocText(d: Doc): seq<byte> {
    match d
    case NullDoc => [0x6E, 0x75, 0x6C, 0x6C]
    case TrueDoc => [0x74, 0x72, 0x75, 0x65]
    case FalseDoc => [0x66, 0x61, 0x6C, 0x73, 0x65]
    case IntDoc(minus, digits) => (if minus then [0x2D] else []) + digits
    case StringDoc(cs) => StringText(cs)
    case ArrayDoc(blank, items) => [0x5B] + (if items == [] then blank else ItemsText(items)) + [0x5D]
    case ObjectDoc(blank, entries) => [0x7B] + (if entries == [] then blank else EntriesText(entries)) + [0x7D]
  }

  function ElementText(e: Element): seq<byte> {
    e.before + DocText(e.doc) + e.after
  }

  function ItemsText(items: seq<Element>): seq<byte> {
    if items == [] then []
    else ElementText(items[0]) + if |items| == 1 then [] else [0x2C] + ItemsText(items[1..])
  }

  /** Name, colon and value. */
  function EntryBody(e: Entry): seq<byte>
    decreases e, 0
  {
    StringText(e.name) + e.middle + [0x3A] + e.behind + DocText(e.doc)
  }

  function EntryText(e: Entry): seq<byte>
    decreases e, 1
  {
    e.before + EntryBody(e) + e.after
  }

  function EntriesText(es: seq<Entry>): seq<byte> {
    if es == [] then []
    else EntryText(es[0]) + if |es| == 1 then [] else [0x2C] + EntriesText(es[1..])
  }

  function DocValue(d: Doc): Json
    requires Valid(d)
  {
    match d
    case NullDoc => Null
    case TrueDoc => Bool(true)
    case FalseDoc => Bool(false)
    case IntDoc(minus, digits) => var n: Int53 := DecimalValue(digits); Number(if minus then -n else n)
    case StringDoc(cs) => String(StringValue(cs))
    case ArrayDoc(_, items) => Array(ItemValues(items))
    case ObjectDoc(_, entries) => Object(EntryMembers(entries))
  }

  function ItemValues(items: seq<Element>): seq<Json>
    requires ValidItems(items)
  {
    if items == [] then [] else
      assert ValidElement(items[0]);
      [DocValue(items[0].doc)] + ItemValues(items[1..])
  }

  function EntryMembers(es: seq<Entry>): seq<Member>
    requires ValidEntries(es)
  {
    if es == [] then [] else
      assert ValidEntry(es[0]);
      [Member(StringValue(es[0].name), DocValue(es[0].doc))] + EntryMembers(es[1..])
  }
}
