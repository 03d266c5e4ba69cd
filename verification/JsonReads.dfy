/** Every text of the grammar of RFC 8259 is taken by the parser, as the value it stands for. */
module JsonReads {
  import opened Options
  import opened Bytes
  import opened JsonValue
  import opened JsonStrings
  import opened JsonPrint
  import opened JsonScanner
  import opened JsonGrammar
  import opened JsonEscapes
  import opened JsonText
  import opened JsonExactStrings

  // ----- white space -----

  predicate AllSpaces(t: seq<byte>) {
    forall k | 0 <= k < |t| :: IsSpace(t[k])
  }

  lemma {:induction false} SkipsSpaces(s: seq<byte>, i: nat, t: seq<byte>)
    requires Has(s, i, t) && AllSpaces(t) && !IsSpace(At(s, i + |t|))
    ensures SkipSpace(s, i) == i + |t|
    decreases |t|
  {
    hide IsSpace;
    if t != [] {
      HasAt(s, i, t, 0);
      assert t == [t[0]] + t[1..];
      HasConcat(s, i, [t[0]], t[1..]);
      SkipsSpaces(s, i + 1, t[1..]);
    }
  }

  lemma BlankIsSpace(c: byte)
    ensures Blank(c) <==> IsSpace(c)
  {
  }

  lemma BlanksSkipped(s: seq<byte>, i: nat, t: seq<byte>)
    requires Has(s, i, t) && Blanks(t) && !IsSpace(At(s, i + |t|))
    ensures i <= |s| && SkipSpace(s, i) == i + |t|
  {
    hide IsSpace;
    hide Blank;
    hide SkipSpace;
    forall k | 0 <= k < |t|
      ensures IsSpace(t[k])
    {
      BlankIsSpace(t[k]);
    }
    SkipsSpaces(s, i, t);
  }

  lemma {:induction false} SkippedAreBlank(s: seq<byte>, i: nat)
    requires i <= |s|
    ensures Blanks(s[i..SkipSpace(s, i)])
    decreases |s| - i
  {
    hide IsSpace;
    hide Blank;
    BlankIsSpace(At(s, i));
    NoBlankAtEnd(s);
    if IsSpace(At(s, i)) {
      SkippedAreBlank(s, i + 1);
      assert s[i..SkipSpace(s, i)] == [s[i]] + s[i + 1..SkipSpace(s, i)];
    }
  }

  lemma NoBlankAtEnd(s: seq<byte>)
    ensures forall i: nat | i >= |s| :: !IsSpace(At(s, i))
  {
  }

  lemma SkipTwice(s: seq<byte>, i: nat)
    requires i <= |s|
    ensures SkipSpace(s, SkipSpace(s, i)) == SkipSpace(s, i)
  {
  }

  // ----- numbers -----

  /** A byte after which the digits before it are the whole number. */
  predicate EndsNumber(c: byte) {
    !IsDigit(c) && c != POINT && !IsLetter(c, 0x65) && !IsLetter(c, 0x78)
  }

  predicate AllDigits(t: seq<byte>) {
    forall k | 0 <= k < |t| :: IsDigit(t[k])
  }

  lemma {:induction false} DigitsEndAt(s: seq<byte>, i: nat, t: seq<byte>)
    requires Has(s, i, t) && AllDigits(t) && !IsDigit(At(s, i + |t|))
    ensures DigitsEnd(s, i) == i + |t|
    decreases |t|
  {
    hide IsDigit;
    if t != [] {
      HasAt(s, i, t, 0);
      assert t == [t[0]] + t[1..];
      HasConcat(s, i, [t[0]], t[1..]);
      DigitsEndAt(s, i + 1, t[1..]);
    }
  }

  lemma NotDigits()
    ensures !IsDigit(MINUS) && IsDigit(ZERO) && MINUS != ZERO
  {
  }

  lemma DecimalTable(k: nat)
    requires k < 10
    ensures |DECIMAL| == 10 && DECIMAL[k] as int == 48 + k
  {
  }

  lemma DigitRange(c: byte)
    ensures IsDigit(c) <==> 48 <= Num(c) <= 57
    ensures IsDigit(c) ==> DigitValue(c) == Num(c) - 48
  {
  }

  lemma DigitByTable(c: byte)
    ensures IsDigit(c) <==> PlaceFrom(DECIMAL, c, 0) < 10
    ensures IsDigit(c) ==> DigitValue(c) == PlaceFrom(DECIMAL, c, 0)
  {
    hide IsDigit;
    hide DigitValue;
    hide PlaceFrom;
    hide Num;
    DigitRange(c);
    DecimalTable(0);
    var k := PlaceFrom(DECIMAL, c, 0);
    if k < 10 { DecimalTable(k); }
    if 48 <= Num(c) <= 57 { DecimalTable(Num(c) - 48); }
  }

  lemma {:induction false} DigitsMean(s: seq<byte>, i: nat, t: seq<byte>)
    requires Has(s, i, t) && AllDigits(t)
    ensures NumberOf(s, i, i + |t|) == DecimalValue(t)
    decreases |t|
  {
    hide IsDigit;
    hide DigitValue;
    hide PlaceFrom;
    if t != [] {
      var front, last := t[..|t| - 1], t[|t| - 1];
      assert t == front + [last];
      HasConcat(s, i, front, [last]);
      HasAt(s, i, t, |t| - 1);
      DigitsMean(s, i, front);
      DigitByTable(last);
    }
  }

  lemma DecimalIsDigits(t: seq<byte>)
    ensures IsDecimal(t) <==> AllDigits(t)
  {
    hide IsDigit;
    hide PlaceFrom;
    forall k | 0 <= k < |t|
      ensures IsDigit(t[k]) <==> PlaceFrom(DECIMAL, t[k], 0) < 10
    {
      DigitByTable(t[k]);
    }
  }

  /** What follows an integer does not go on with it. */
  predicate NumberEnds(s: seq<byte>, e: nat, digits: seq<byte>) {
    && !IsDigit(At(s, e)) && At(s, e) != POINT && !Exponent(s, e)
    && !(digits == [0x30] && Hexadecimal(s, e))
  }

  lemma SignParts(s: seq<byte>, i: nat, d: Doc)
    requires d.IntDoc? && d.digits != [] && IsDigit(d.digits[0]) && Has(s, i, DocText(d))
    ensures var start := if d.minus then i + 1 else i;
      Has(s, start, d.digits) && (d.minus <==> At(s, i) == MINUS) && start + |d.digits| == i + |DocText(d)|
  {
    NotDigits();
    if d.minus {
      HasConcat(s, i, [0x2D], d.digits);
      HasAt(s, i, [0x2D], 0);
    } else {
      assert DocText(d) == d.digits;
      HasAt(s, i, d.digits, 0);
    }
  }

  /** parse_number_value after at least one digit: when it takes the digits as an integer. */
  lemma IntegerAt(s: seq<byte>, i: nat, start: nat, t: seq<byte>)
    requires i < |s| && start == (if At(s, i) == MINUS then i + 1 else i)
    requires t != [] && Has(s, start, t) && DigitsEnd(s, start) == start + |t|
    ensures var e := start + |t|; var n: int := NumberOf(s, start, e);
      && (NumberAt(s, i).Ok? <==> (t[0] == 0x30 ==> |t| == 1) && NumberEnds(s, e, t) && n < 0x20_0000_0000_0000)
      && (NumberAt(s, i).Ok? ==> NumberAt(s, i) == Ok(Number(if At(s, i) == MINUS then -n else n), e))
  {
    hide IsDigit;
    hide NumberOf;
    hide Exponent;
    hide Hexadecimal;
    hide NotFinite;
    hide DigitsEnd;
    HasAt(s, start, t, 0);
    OneZero(t);
    if |t| == 1 { assert t == [t[0]]; }
  }

  lemma IntReads(s: seq<byte>, i: nat, d: Doc)
    requires d.IntDoc? && Valid(d) && Has(s, i, DocText(d)) && NumberEnds(s, i + |DocText(d)|, d.digits)
    ensures i < |s| && NumberAt(s, i) == Ok(DocValue(d), i + |DocText(d)|)
    ensures At(s, i) == MINUS || IsDigit(At(s, i))
  {
    hide IsDigit;
    hide NumberOf;
    hide NumberAt;
    hide DecimalValue;
    hide IsDecimal;
    hide Exponent;
    hide Hexadecimal;
    hide Has;
    hide At;
    hide DigitsEnd;
    var t := d.digits;
    var start := if d.minus then i + 1 else i;
    DecimalIsDigits(t);
    SignParts(s, i, d);
    HasAt(s, start, t, 0);
    LengthOf(s, start, t);
    DigitsEndAt(s, start, t);
    DigitsMean(s, start, t);
    IntegerAt(s, i, start, t);
  }

  lemma OneZero(t: seq<byte>)
    ensures |t| == 1 && t[0] == 0x30 ==> t == [0x30]
  {
  }

  lemma {:induction false} DigitsBefore(s: seq<byte>, i: nat)
    requires i <= |s|
    ensures AllDigits(s[i..DigitsEnd(s, i)])
    decreases |s| - i
  {
    hide IsDigit;
    NulIsNoDigit();
    if IsDigit(At(s, i)) {
      DigitsBefore(s, i + 1);
      assert s[i..DigitsEnd(s, i)] == [s[i]] + s[i + 1..DigitsEnd(s, i)];
    }
  }

  lemma NulIsNoDigit()
    ensures !IsDigit(0)
  {
  }

  /** Whatever parse_number_value takes is an integer of the grammar; or nothing at all,
      after a sign that no number follows. */
  lemma IntOf(s: seq<byte>, i: nat) returns (d: Doc)
    requires i < |s| && (At(s, i) == MINUS || IsDigit(At(s, i))) && NumberAt(s, i).Ok?
    ensures var r := NumberAt(s, i); r.next == i ==> At(s, i) == MINUS && r.value == Number(0)
    ensures var r := NumberAt(s, i);
      r.next != i ==>
        && d.IntDoc? && Valid(d) && Has(s, i, DocText(d)) && i + |DocText(d)| == r.next && DocValue(d) == r.value
        && NumberEnds(s, r.next, d.digits)
  {
    hide IsDigit;
    hide NumberOf;
    hide NumberAt;
    hide DecimalValue;
    hide IsDecimal;
    hide NumberEnds;
    hide DigitsEnd;
    hide DocText;
    NotDigits();
    var start := if At(s, i) == MINUS then i + 1 else i;
    var e := DigitsEnd(s, start);
    var t := s[start..e];
    d := IntDoc(At(s, i) == MINUS, t);
    if e == start {
      BareSign(s, i);
    } else {
      DigitsBefore(s, start);
      DecimalIsDigits(t);
      assert Has(s, start, t);
      DigitsMean(s, start, t);
      IntegerAt(s, i, start, t);
      IntText(s, i, d);
    }
  }

  lemma IntText(s: seq<byte>, i: nat, d: Doc)
    requires d.IntDoc? && i < |s| && (d.minus <==> At(s, i) == MINUS)
    requires Has(s, if d.minus then i + 1 else i, d.digits)
    ensures Has(s, i, DocText(d)) && i + |DocText(d)| == (if d.minus then i + 1 else i) + |d.digits|
  {
    if d.minus {
      assert Has(s, i, [0x2D]);
      HasConcat(s, i, [0x2D], d.digits);
    } else {
      assert [] + d.digits == d.digits;
    }
  }

  lemma BareSign(s: seq<byte>, i: nat)
    requires i < |s| && (At(s, i) == MINUS || IsDigit(At(s, i))) && NumberAt(s, i).Ok?
    requires var start := if At(s, i) == MINUS then i + 1 else i; DigitsEnd(s, start) == start
    ensures At(s, i) == MINUS && NumberAt(s, i) == Ok(Number(0), i)
  {
    hide IsDigit;
    hide NumberOf;
    hide NotFinite;
  }

  // ----- every text of the grammar is taken -----

  /** What parsing a text of v should give: v, unless it is nested too deeply. */
  function Outcome(v: Json, nesting: nat, next: nat): Parsed {
    if DepthAtMost(v, MAX_NESTING - nesting) then Ok(v, next) else Fail
  }

  /** The first byte of a value: not white space and not a closing bracket. */
  predicate StartsValue(c: byte) {
    c == QUOTE || c == MINUS || IsDigit(c) || c == LBRACKET || c == LBRACE || c == 0x74 || c == 0x66 || c == 0x6E
  }

  lemma StartsClean(c: byte)
    requires StartsValue(c)
    ensures !IsSpace(c) && c != RBRACKET && c != RBRACE && c != 0
  {
  }

  /** Where parse_value starts only matters after the white space. */
  lemma SameAfterSpace(s: seq<byte>, i: nat, j: nat, nesting: nat)
    requires i <= |s| && j <= |s| && SkipSpace(s, i) == SkipSpace(s, j)
    ensures ValueAt(s, i, nesting) == ValueAt(s, j, nesting)
  {
  }

  lemma Separators()
    ensures EndsNumber(COMMA) && EndsNumber(NEWLINE) && EndsNumber(RBRACKET) && EndsNumber(RBRACE) && EndsNumber(0)
    ensures !IsSpace(COMMA) && !IsSpace(RBRACKET) && !IsSpace(RBRACE) && !IsSpace(COLON) && !IsSpace(QUOTE) &&
      IsSpace(SPACE)
    ensures COMMA != RBRACKET && COMMA != RBRACE && QUOTE != RBRACE
  {
  }

  lemma LengthOf(s: seq<byte>, i: nat, t: seq<byte>)
    requires Has(s, i, t)
    ensures i + |t| <= |s|
  {
  }

  lemma DocStarts(d: Doc)
    requires Valid(d)
    ensures DocText(d) != [] && StartsValue(DocText(d)[0])
  {
    hide CharsText;
    hide ItemsText;
    hide EntriesText;
    hide PlaceFrom;
    if d.IntDoc? { DecimalIsDigits(d.digits); }
  }

  lemma LeadSkipped(s: seq<byte>, i: nat, lead: seq<byte>, d: Doc)
    requires Valid(d) && Blanks(lead) && Has(s, i, lead + DocText(d))
    ensures var p := i + |lead|;
      i <= p < |s| && SkipSpace(s, i) == p && Has(s, p, DocText(d)) && At(s, p) == DocText(d)[0] &&
        StartsValue(At(s, p)) && At(s, p) != 0
  {
    hide DocText;
    hide StartsValue;
    hide SkipSpace;
    hide IsSpace;
    DocStarts(d);
    HasConcat(s, i, lead, DocText(d));
    HasAt(s, i + |lead|, DocText(d), 0);
    StartsClean(At(s, i + |lead|));
    BlanksSkipped(s, i, lead);
  }

  lemma EndsByByte(s: seq<byte>, e: nat, digits: seq<byte>)
    requires EndsNumber(At(s, e))
    ensures NumberEnds(s, e, digits)
  {
  }

  lemma BlankEnds(c: byte)
    ensures Blank(c) ==> EndsNumber(c)
  {
  }

  lemma SameItems(s: seq<byte>, p: nat, nesting: nat, done: seq<Json>)
    requires p <= |s|
    ensures ItemsFrom(s, SkipSpace(s, p), nesting, done) == ItemsFrom(s, p, nesting, done)
  {
    hide ValueAt;
    SkipTwice(s, p);
    SameAfterSpace(s, SkipSpace(s, p), p, nesting);
  }

  lemma Three(s: seq<byte>, p: nat, a: seq<byte>, b: seq<byte>, c: seq<byte>)
    requires Has(s, p, a + b + c)
    ensures Has(s, p, a) && Has(s, p + |a|, b) && Has(s, p + |a| + |b|, c)
  {
    hide Has;
    HasConcat(s, p, a + b, c);
    HasConcat(s, p, a, b);
  }

  /** What follows the first element. */
  function MoreItems(items: seq<Element>): seq<byte>
    requires items != []
  {
    (if |items| == 1 then [] else [0x2C] + ItemsText(items[1..])) + [0x5D]
  }

  lemma ItemsSplit(items: seq<Element>)
    requires items != []
    ensures var e := items[0];
      ItemsText(items) + [0x5D] == (e.before + DocText(e.doc)) + e.after + MoreItems(items)
  {
    hide DocText;
  }

  lemma MoreSplit(s: seq<byte>, q: nat, items: seq<Element>)
    requires items != [] && Has(s, q, MoreItems(items))
    ensures |items| == 1 ==> Has(s, q, [0x5D]) && |MoreItems(items)| == 1
    ensures |items| > 1 ==>
      && Has(s, q, [0x2C]) && Has(s, q + 1, ItemsText(items[1..]) + [0x5D])
      && |MoreItems(items)| == 2 + |ItemsText(items[1..])|
  {
    hide Has;
    hide ItemsText;
    if |items| == 1 {
      assert MoreItems(items) == [0x5D];
    } else {
      assert MoreItems(items) == [0x2C] + (ItemsText(items[1..]) + [0x5D]);
      HasConcat(s, q, [0x2C], ItemsText(items[1..]) + [0x5D]);
    }
  }

  /** The first element of a list: its value, and where the rest begins. */
  lemma ElementLayout(s: seq<byte>, p: nat, items: seq<Element>)
    requires items != [] && Has(s, p, ItemsText(items) + [0x5D])
    ensures var e := items[0]; var n := p + |e.before| + |DocText(e.doc)|; var q := n + |e.after|;
      && Has(s, p, e.before + DocText(e.doc)) && Has(s, n, e.after) && Has(s, q, MoreItems(items))
      && q + |MoreItems(items)| == p + |ItemsText(items)| + 1
  {
    hide DocText;
    hide Has;
    hide ItemsText;
    hide MoreItems;
    var e := items[0];
    ItemsSplit(items);
    Three(s, p, e.before + DocText(e.doc), e.after, MoreItems(items));
    assert |ItemsText(items) + [0x5D]| == |e.before + DocText(e.doc)| + |e.after| + |MoreItems(items)|;
  }

  /** After a value: white space, then a byte that is none. */
  lemma AfterValue(s: seq<byte>, n: nat, after: seq<byte>, c: byte)
    requires Has(s, n, after) && Blanks(after) && Has(s, n + |after|, [c]) && EndsNumber(c) && !IsSpace(c)
    ensures n <= |s| && SkipSpace(s, n) == n + |after| < |s| && At(s, n + |after|) == c
    ensures EndsNumber(At(s, n))
  {
    hide IsSpace;
    hide Blank;
    hide EndsNumber;
    HasAt(s, n + |after|, [c], 0);
    BlanksSkipped(s, n, after);
    if after != [] {
      HasAt(s, n, after, 0);
      BlankEnds(after[0]);
    }
  }

  lemma ScalarReads(s: seq<byte>, i: nat, p: nat, d: Doc, nesting: nat)
    requires !d.ArrayDoc? && !d.ObjectDoc? && Valid(d) && i <= p < |s| && SkipSpace(s, i) == p && Has(s, p, DocText(d))
    requires At(s, p) == DocText(d)[0] && nesting <= MAX_NESTING
    requires d.IntDoc? ==> NumberEnds(s, p + |DocText(d)|, d.digits)
    ensures ValueAt(s, i, nesting) == Ok(DocValue(d), p + |DocText(d)|)
  {
    hide SkipSpace;
    hide Has;
    hide At;
    hide NumberAt;
    hide Quoted;
    hide ObjectAt;
    hide ArrayAt;
    hide NumberEnds;
    hide IsInteger;
    hide CharsText;
    hide CharsBytes;
    match d
    case IntDoc(_, _) => IntReads(s, p, d);
    case StringDoc(cs) => StringReads(s, p, cs);
    case _ =>
  }

  lemma TooDeep(s: seq<byte>, i: nat, v: Json, nesting: nat)
    requires i <= |s| && nesting > MAX_NESTING
    ensures ValueAt(s, i, nesting) == Fail && !DepthAtMost(v, MAX_NESTING - nesting)
  {
  }

  /** A text of the grammar is taken as its value wherever it stands, with any white space and
      any choice of escapes; or refused, exactly when it is nested too deeply. */
  lemma {:induction false} DocReads(s: seq<byte>, i: nat, lead: seq<byte>, d: Doc, nesting: nat)
    requires Valid(d) && Blanks(lead) && Has(s, i, lead + DocText(d)) && Unique(DocValue(d))
    requires d.IntDoc? ==> NumberEnds(s, i + |lead| + |DocText(d)|, d.digits)
    ensures i <= |s| && ValueAt(s, i, nesting) == Outcome(DocValue(d), nesting, i + |lead| + |DocText(d)|)
    decreases d, 1
  {
    hide SkipSpace;
    hide Has;
    hide At;
    hide DocText;
    hide DocValue;
    hide ValueAt;
    hide Unique;
    hide NumberEnds;
    hide StartsValue;
    LeadSkipped(s, i, lead, d);
    if nesting > MAX_NESTING {
      TooDeep(s, i, DocValue(d), nesting);
    } else if d.ArrayDoc? {
      ArrayReads(s, i, i + |lead|, d, nesting);
    } else if d.ObjectDoc? {
      ObjectReads(s, i, i + |lead|, d, nesting);
    } else {
      ScalarReads(s, i, i + |lead|, d, nesting);
      ScalarFits(d, nesting);
    }
  }

  lemma ScalarFits(d: Doc, nesting: nat)
    requires Valid(d) && !d.ArrayDoc? && !d.ObjectDoc? && nesting <= MAX_NESTING
    ensures DepthAtMost(DocValue(d), MAX_NESTING - nesting)
  {
  }

  lemma AtBracket(s: seq<byte>, i: nat, p: nat, nesting: nat)
    requires i <= p < |s| && SkipSpace(s, i) == p && At(s, p) == LBRACKET
    ensures ValueAt(s, i, nesting) == if nesting > MAX_NESTING then Fail else ArrayAt(s, p, nesting + 1)
  {
    hide SkipSpace;
    hide ArrayAt;
  }

  lemma EmptyArray(s: seq<byte>, p: nat, blank: seq<byte>, nesting: nat)
    requires Blanks(blank) && Has(s, p, [0x5B] + blank + [0x5D])
    ensures p < |s| && ArrayAt(s, p, nesting) == Ok(Array([]), p + |blank| + 2)
  {
    hide SkipSpace;
    hide Has;
    hide At;
    hide ItemsFrom;
    hide IsSpace;
    hide EndsNumber;
    Three(s, p, [0x5B], blank, [0x5D]);
    Separators();
    AfterValue(s, p + 1, blank, 0x5D);
  }

  lemma FullArray(s: seq<byte>, p: nat, items: seq<Element>, nesting: nat)
    requires items != [] && ValidElement(items[0]) && Has(s, p, [0x5B] + ItemsText(items) + [0x5D])
    ensures p < |s| && Has(s, p + 1, ItemsText(items) + [0x5D])
    ensures ArrayAt(s, p, nesting) == ItemsFrom(s, p + 1, nesting, [])
  {
    hide SkipSpace;
    hide Has;
    hide At;
    hide ItemsFrom;
    hide ItemsText;
    hide ValidElement;
    assert [0x5B] + ItemsText(items) + [0x5D] == [0x5B] + (ItemsText(items) + [0x5D]);
    HasConcat(s, p, [0x5B], ItemsText(items) + [0x5D]);
    ItemsStart(s, p + 1, items);
    SameItems(s, p + 1, nesting, []);
  }

  /** What the value of an array says about its elements. */
  lemma ArrayParts(d: Doc, nesting: nat)
    requires d.ArrayDoc? && Valid(d) && Unique(DocValue(d)) && nesting <= MAX_NESTING
    ensures Blanks(d.blank) && ValidItems(d.items) && DocValue(d) == Array(ItemValues(d.items))
    ensures DocText(d) == [0x5B] + (if d.items == [] then d.blank else ItemsText(d.items)) + [0x5D]
    ensures AllUnique(ItemValues(d.items))
    ensures DepthAtMost(DocValue(d), MAX_NESTING - nesting) <==> AllFit(ItemValues(d.items), nesting + 1)
  {
    hide ItemValues;
    hide ItemsText;
    hide ValidItems;
  }

  lemma ArrayReads(s: seq<byte>, i: nat, p: nat, d: Doc, nesting: nat)
    requires d.ArrayDoc? && Valid(d) && i <= p < |s| && SkipSpace(s, i) == p && Has(s, p, DocText(d))
    requires At(s, p) == DocText(d)[0] && Unique(DocValue(d)) && nesting <= MAX_NESTING
    ensures ValueAt(s, i, nesting) == Outcome(DocValue(d), nesting, p + |DocText(d)|)
    decreases d, 0
  {
    hide SkipSpace;
    hide Has;
    hide At;
    hide ItemsFrom;
    hide ItemsText;
    hide ItemValues;
    hide ValidItems;
    hide AllUnique;
    hide AllFit;
    hide Unique;
    hide DepthAtMost;
    hide ValueAt;
    hide ArrayAt;
    hide DocText;
    hide DocValue;
    hide Valid;
    var items := d.items;
    ArrayParts(d, nesting);
    AtBracket(s, i, p, nesting);
    if items == [] {
      NoItems();
      NothingDeep(nesting + 1);
      EmptyArray(s, p, d.blank, nesting + 1);
    } else {
      FirstItem(items);
      FullArray(s, p, items, nesting + 1);
      assert [] + ItemValues(items) == ItemValues(items);
      ItemsRead(s, p + 1, items, nesting + 1, []);
    }
  }

  lemma NoItems()
    ensures ItemValues([]) == [] && ValidItems([])
  {
  }

  lemma NothingDeep(nesting: nat)
    ensures AllFit([], nesting) && AllValuesFit([], nesting)
  {
  }

  lemma ItemsStart(s: seq<byte>, p: nat, items: seq<Element>)
    requires items != [] && ValidElement(items[0]) && Has(s, p, ItemsText(items) + [0x5D])
    ensures p <= |s| && At(s, SkipSpace(s, p)) != RBRACKET
  {
    hide SkipSpace;
    hide Has;
    hide At;
    hide DocText;
    hide ItemsText;
    hide MoreItems;
    hide StartsValue;
    var e := items[0];
    ElementLayout(s, p, items);
    LeadSkipped(s, p, e.before, e.doc);
    StartsClean(At(s, p + |e.before|));
  }

  predicate AllUnique(vs: seq<Json>) {
    forall k | 0 <= k < |vs| :: Unique(vs[k])
  }

  predicate AllFit(vs: seq<Json>, nesting: nat) {
    forall k | 0 <= k < |vs| :: DepthAtMost(vs[k], MAX_NESTING - nesting)
  }

  lemma FirstItem(items: seq<Element>)
    requires items != [] && ValidItems(items)
    ensures ValidElement(items[0]) && Valid(items[0].doc) && ValidItems(items[1..])
    ensures ItemValues(items) == [DocValue(items[0].doc)] + ItemValues(items[1..])
    ensures |items| == 1 ==> ItemValues(items) == [DocValue(items[0].doc)]
  {
    hide DocValue;
  }

  lemma FirstOf(v: Json, vs: seq<Json>, nesting: nat)
    requires AllUnique([v] + vs)
    ensures Unique(v) && AllUnique(vs)
    ensures AllFit([v] + vs, nesting) <==> DepthAtMost(v, MAX_NESTING - nesting) && AllFit(vs, nesting)
  {
    hide Unique;
    hide DepthAtMost;
    var all := [v] + vs;
    assert all[0] == v && forall k | 0 <= k < |vs| :: all[k + 1] == vs[k];
    assert forall k | 1 <= k < |all| :: all[k] == vs[k - 1];
  }

  lemma ItemsFail(s: seq<byte>, p: nat, nesting: nat, done: seq<Json>)
    requires p <= |s| && ValueAt(s, p, nesting) == Fail
    ensures ItemsFrom(s, p, nesting, done) == Fail
  {
    hide ValueAt;
  }

  /** One turn of the loop of parse_array_value. */
  lemma ItemsStep(s: seq<byte>, p: nat, nesting: nat, done: seq<Json>, v: Json, n: nat, q: nat)
    requires p <= |s| && n <= |s| && ValueAt(s, p, nesting) == Ok(v, n) && SkipSpace(s, n) == q < |s|
    ensures At(s, q) == COMMA ==> ItemsFrom(s, p, nesting, done) == ItemsFrom(s, q + 1, nesting, done + [v])
    ensures At(s, q) == RBRACKET ==> ItemsFrom(s, p, nesting, done) == Ok(Array(done + [v]), q + 1)
  {
    hide ValueAt;
    hide SkipSpace;
    if At(s, q) == COMMA {
      SameItems(s, q + 1, nesting, done + [v]);
    }
  }

  lemma ElementReads(s: seq<byte>, p: nat, items: seq<Element>, nesting: nat)
    requires items != [] && ValidElement(items[0])
    requires Has(s, p, ItemsText(items) + [0x5D]) && Unique(DocValue(items[0].doc))
    ensures var e := items[0]; var n := p + |e.before| + |DocText(e.doc)|; var q := n + |e.after|;
      && p <= |s| && n <= |s| && ValueAt(s, p, nesting) == Outcome(DocValue(e.doc), nesting, n)
      && SkipSpace(s, n) == q < |s| && At(s, q) == (if |items| == 1 then RBRACKET else COMMA)
    decreases items, 0
  {
    hide SkipSpace;
    hide Has;
    hide At;
    hide DocText;
    hide DocValue;
    hide ItemsText;
    hide MoreItems;
    hide Unique;
    hide Outcome;
    hide ValueAt;
    hide NumberEnds;
    hide IsSpace;
    hide EndsNumber;
    var e := items[0];
    var n := p + |e.before| + |DocText(e.doc)|;
    ElementLayout(s, p, items);
    MoreSplit(s, n + |e.after|, items);
    Separators();
    AfterValue(s, n, e.after, if |items| == 1 then 0x5D else 0x2C);
    if e.doc.IntDoc? { EndsByByte(s, n, e.doc.digits); }
    DocReads(s, p, e.before, e.doc, nesting);
  }

  lemma {:induction false} ItemsRead(s: seq<byte>, p: nat, items: seq<Element>, nesting: nat, done: seq<Json>)
    requires items != [] && ValidItems(items)
    requires Has(s, p, ItemsText(items) + [0x5D]) && AllUnique(ItemValues(items))
    ensures p <= |s|
    ensures ItemsFrom(s, p, nesting, done) ==
      if AllFit(ItemValues(items), nesting) then Ok(Array(done + ItemValues(items)), p + |ItemsText(items)| + 1)
      else Fail
    decreases items, 1
  {
    hide SkipSpace;
    hide Has;
    hide At;
    hide DocText;
    hide DocValue;
    hide ItemsText;
    hide ItemValues;
    hide ItemsFrom;
    hide MoreItems;
    hide Unique;
    hide DepthAtMost;
    hide AllUnique;
    hide AllFit;
    hide ValueAt;
    hide ValidItems;
    hide ValidElement;
    FirstItem(items);
    var e, rest := items[0], items[1..];
    var v, vs := DocValue(e.doc), ItemValues(items[1..]);
    var n := p + |e.before| + |DocText(e.doc)|;
    var q := n + |e.after|;
    FirstOf(v, vs, nesting);
    ElementLayout(s, p, items);
    MoreSplit(s, q, items);
    ElementReads(s, p, items, nesting);
    if !DepthAtMost(v, MAX_NESTING - nesting) {
      ItemsFail(s, p, nesting, done);
    } else {
      ItemsStep(s, p, nesting, done, v, n, q);
      if |items| > 1 {
        ItemsRead(s, q + 1, rest, nesting, done + [v]);
        assert done + [v] + vs == done + ([v] + vs);
      } else {
        NoItems();
        NothingDeep(nesting);
      }
    }
  }

  // ----- objects -----

  function MoreEntries(es: seq<Entry>): seq<byte>
    requires es != []
  {
    (if |es| == 1 then [] else [0x2C] + EntriesText(es[1..])) + [0x7D]
  }

  /** An entry up to its colon, and after it. */
  function KeyText(e: Entry): seq<byte> {
    e.before + StringText(e.name) + e.middle
  }

  lemma EntriesSplit(es: seq<Entry>)
    requires es != []
    ensures var e := es[0];
      EntriesText(es) + [0x7D] ==
        KeyText(e) + [0x3A] + ((e.behind + DocText(e.doc)) + e.after + MoreEntries(es))
  {
    hide EntryText;
    hide KeyText;
    hide DocText;
    var e := es[0];
    KeyFirst(e);
    SplitGlue(KeyText(e), e.behind + DocText(e.doc), e.after, if |es| == 1 then [] else [0x2C] + EntriesText(es[1..]));
  }

  lemma SplitGlue(key: seq<byte>, value: seq<byte>, after: seq<byte>, rest: seq<byte>)
    ensures (key + [0x3A] + (value + after)) + rest + [0x7D] == key + [0x3A] + (value + after + (rest + [0x7D]))
  {
  }

  lemma KeyFirst(e: Entry)
    ensures EntryText(e) == KeyText(e) + [0x3A] + ((e.behind + DocText(e.doc)) + e.after)
  {
    hide DocText;
    hide StringText;
    var name, text := StringText(e.name), DocText(e.doc);
    assert name + e.middle + [0x3A] + e.behind + text == name + e.middle + [0x3A] + (e.behind + text);
    var key, value := name + e.middle + [0x3A], e.behind + text;
    assert e.before + (key + value) + e.after == (e.before + key) + (value + e.after);
    assert e.before + (name + e.middle + [0x3A]) == e.before + name + e.middle + [0x3A];
  }

  lemma MoreEntriesSplit(s: seq<byte>, q: nat, es: seq<Entry>)
    requires es != [] && Has(s, q, MoreEntries(es))
    ensures |es| == 1 ==> Has(s, q, [0x7D]) && |MoreEntries(es)| == 1
    ensures |es| > 1 ==>
      && Has(s, q, [0x2C]) && Has(s, q + 1, EntriesText(es[1..]) + [0x7D])
      && |MoreEntries(es)| == 2 + |EntriesText(es[1..])|
  {
    hide Has;
    hide EntriesText;
    if |es| == 1 {
      assert MoreEntries(es) == [0x7D];
    } else {
      assert MoreEntries(es) == [0x2C] + (EntriesText(es[1..]) + [0x7D]);
      HasConcat(s, q, [0x2C], EntriesText(es[1..]) + [0x7D]);
    }
  }

  /** The first member of a list: its name, its value, and where the rest begins. */
  lemma EntryLayout(s: seq<byte>, p: nat, es: seq<Entry>)
    requires es != [] && Has(s, p, EntriesText(es) + [0x7D])
    ensures var e := es[0]; var k := p + |e.before|; var m := k + |StringText(e.name)|; var c := m + |e.middle|;
      && Has(s, p, e.before) && Has(s, k, StringText(e.name)) && Has(s, m, e.middle) && Has(s, c, [0x3A])
    ensures var e := es[0]; var c := p + |KeyText(e)|; var n := c + 1 + |e.behind| + |DocText(e.doc)|;
      && Has(s, c + 1, e.behind + DocText(e.doc)) && Has(s, n, e.after) && Has(s, n + |e.after|, MoreEntries(es))
      && n + |e.after| + |MoreEntries(es)| == p + |EntriesText(es)| + 1
  {
    hide DocText;
    hide StringText;
    hide Has;
    hide EntriesText;
    hide MoreEntries;
    var e := es[0];
    var c := p + |KeyText(e)|;
    var value, more := e.behind + DocText(e.doc), MoreEntries(es);
    EntriesSplit(es);
    Three(s, p, KeyText(e), [0x3A], value + e.after + more);
    Three(s, p, e.before, StringText(e.name), e.middle);
    Three(s, c + 1, value, e.after, more);
    assert |EntriesText(es) + [0x7D]| == |KeyText(e)| + 1 + |value| + |e.after| + |more|;
  }

  lemma KeySkipped(s: seq<byte>, p: nat, es: seq<Entry>)
    requires es != [] && ValidEntry(es[0]) && Has(s, p, EntriesText(es) + [0x7D])
    ensures p <= |s| && p + |es[0].before| < |s|
    ensures SkipSpace(s, p) == p + |es[0].before| && At(s, p + |es[0].before|) == QUOTE
  {
    hide SkipSpace;
    hide Has;
    hide At;
    hide EntriesText;
    hide MoreEntries;
    hide KeyText;
    hide DocText;
    hide CharsText;
    hide IsSpace;
    var e := es[0];
    EntryLayout(s, p, es);
    HasAt(s, p + |e.before|, StringText(e.name), 0);
    LengthOf(s, p + |e.before|, StringText(e.name));
    Separators();
    BlanksSkipped(s, p, e.before);
  }

  lemma ColonSkipped(s: seq<byte>, m: nat, middle: seq<byte>)
    requires Has(s, m, middle) && Blanks(middle) && Has(s, m + |middle|, [0x3A])
    ensures m <= |s| && SkipSpace(s, m) == m + |middle| < |s| && At(s, m + |middle|) == COLON
  {
    hide SkipSpace;
    hide At;
    hide IsSpace;
    HasAt(s, m + |middle|, [0x3A], 0);
    Separators();
    BlanksSkipped(s, m, middle);
  }

  lemma AtBrace(s: seq<byte>, i: nat, p: nat, nesting: nat)
    requires i <= p < |s| && SkipSpace(s, i) == p && At(s, p) == LBRACE
    ensures ValueAt(s, i, nesting) == if nesting > MAX_NESTING then Fail else ObjectAt(s, p, nesting + 1)
  {
    hide SkipSpace;
    hide ObjectAt;
  }

  lemma EmptyObject(s: seq<byte>, p: nat, blank: seq<byte>, nesting: nat)
    requires Blanks(blank) && Has(s, p, [0x7B] + blank + [0x7D])
    ensures p < |s| && ObjectAt(s, p, nesting) == Ok(Object([]), p + |blank| + 2)
  {
    hide SkipSpace;
    hide Has;
    hide At;
    hide MembersFrom;
    hide IsSpace;
    hide EndsNumber;
    Three(s, p, [0x7B], blank, [0x7D]);
    Separators();
    AfterValue(s, p + 1, blank, 0x7D);
  }

  lemma FullObject(s: seq<byte>, p: nat, es: seq<Entry>, nesting: nat)
    requires es != [] && ValidEntry(es[0]) && Has(s, p, [0x7B] + EntriesText(es) + [0x7D])
    ensures p < |s| && p + 1 + |es[0].before| <= |s| && Has(s, p + 1, EntriesText(es) + [0x7D])
    ensures ObjectAt(s, p, nesting) == MembersFrom(s, p + 1 + |es[0].before|, nesting, [])
  {
    hide SkipSpace;
    hide Has;
    hide At;
    hide MembersFrom;
    hide EntriesText;
    hide ValidEntry;
    assert [0x7B] + EntriesText(es) + [0x7D] == [0x7B] + (EntriesText(es) + [0x7D]);
    HasConcat(s, p, [0x7B], EntriesText(es) + [0x7D]);
    KeySkipped(s, p + 1, es);
    Separators();
  }

  /** What the value of an object says about its members. */
  lemma ObjectParts(d: Doc, nesting: nat)
    requires d.ObjectDoc? && Valid(d) && Unique(DocValue(d)) && nesting <= MAX_NESTING
    ensures Blanks(d.blank) && ValidEntries(d.entries) && DocValue(d) == Object(EntryMembers(d.entries))
    ensures DocText(d) == [0x7B] + (if d.entries == [] then d.blank else EntriesText(d.entries)) + [0x7D]
    ensures AllValuesUnique(EntryMembers(d.entries)) && DistinctNames(EntryMembers(d.entries))
    ensures DepthAtMost(DocValue(d), MAX_NESTING - nesting) <==> AllValuesFit(EntryMembers(d.entries), nesting + 1)
  {
    hide EntryMembers;
    hide EntriesText;
    hide ValidEntries;
  }

  lemma ObjectReads(s: seq<byte>, i: nat, p: nat, d: Doc, nesting: nat)
    requires d.ObjectDoc? && Valid(d) && i <= p < |s| && SkipSpace(s, i) == p && Has(s, p, DocText(d))
    requires At(s, p) == DocText(d)[0] && Unique(DocValue(d)) && nesting <= MAX_NESTING
    ensures ValueAt(s, i, nesting) == Outcome(DocValue(d), nesting, p + |DocText(d)|)
    decreases d, 0
  {
    hide SkipSpace;
    hide Has;
    hide At;
    hide MembersFrom;
    hide EntriesText;
    hide EntryMembers;
    hide ValidEntries;
    hide DistinctNames;
    hide AllValuesUnique;
    hide AllValuesFit;
    hide Unique;
    hide DepthAtMost;
    hide ValueAt;
    hide ObjectAt;
    hide DocText;
    hide DocValue;
    hide Valid;
    var es := d.entries;
    ObjectParts(d, nesting);
    AtBrace(s, i, p, nesting);
    if es == [] {
      NoMembers();
      NothingDeep(nesting + 1);
      EmptyObject(s, p, d.blank, nesting + 1);
    } else {
      FirstIsValid(es);
      FullObject(s, p, es, nesting + 1);
      assert [] + EntryMembers(es) == EntryMembers(es);
      EntriesRead(s, p + 1, es, nesting + 1, []);
    }
  }

  lemma FirstIsValid(es: seq<Entry>)
    requires es != [] && ValidEntries(es)
    ensures ValidEntry(es[0])
  {
  }

  lemma NoMembers()
    ensures EntryMembers([]) == [] && ValidEntries([])
  {
  }

  lemma FirstEntry(es: seq<Entry>)
    requires es != [] && ValidEntries(es)
    ensures ValidEntry(es[0]) && ValidEntries(es[1..])
    ensures var m := Member(StringValue(es[0].name), DocValue(es[0].doc));
      EntryMembers(es) == [m] + EntryMembers(es[1..]) && (|es| == 1 ==> EntryMembers(es) == [m])
  {
    hide ValidEntry;
    hide DocValue;
    hide StringValue;
  }

  predicate AllValuesUnique(ms: seq<Member>) {
    forall k | 0 <= k < |ms| :: Unique(ms[k].value)
  }

  predicate AllValuesFit(ms: seq<Member>, nesting: nat) {
    forall k | 0 <= k < |ms| :: DepthAtMost(ms[k].value, MAX_NESTING - nesting)
  }

  lemma EntryNameReads(s: seq<byte>, p: nat, es: seq<Entry>)
    requires es != [] && ValidEntry(es[0]) && Has(s, p, EntriesText(es) + [0x7D])
    ensures var e := es[0]; var k := p + |e.before|; var c := p + |KeyText(e)|;
      && k <= |s| && c < |s| && Quoted(s, k) == Some((CharsBytes(e.name), k + |StringText(e.name)|))
      && SkipSpace(s, k + |StringText(e.name)|) == c && At(s, c) == COLON
  {
    hide SkipSpace;
    hide Has;
    hide At;
    hide DocText;
    hide StringText;
    hide EntriesText;
    hide MoreEntries;
    hide Quoted;
    hide CharsBytes;
    var e := es[0];
    EntryLayout(s, p, es);
    LengthOf(s, p + |e.before|, StringText(e.name));
    StringReads(s, p + |e.before|, e.name);
    ColonSkipped(s, p + |e.before| + |StringText(e.name)|, e.middle);
  }

  lemma EntryValueReads(s: seq<byte>, p: nat, es: seq<Entry>, nesting: nat)
    requires es != [] && ValidEntry(es[0])
    requires Has(s, p, EntriesText(es) + [0x7D]) && Unique(DocValue(es[0].doc))
    ensures var e := es[0]; var c := p + |KeyText(e)|; var n := c + 1 + |e.behind| + |DocText(e.doc)|;
      && c < |s| && ValueAt(s, c + 1, nesting) == Outcome(DocValue(e.doc), nesting, n)
      && n <= |s| && SkipSpace(s, n) == n + |e.after| < |s|
      && At(s, n + |e.after|) == (if |es| == 1 then RBRACE else COMMA)
    decreases es, 0
  {
    hide SkipSpace;
    hide Has;
    hide At;
    hide DocText;
    hide DocValue;
    hide StringText;
    hide EntriesText;
    hide MoreEntries;
    hide KeyText;
    hide Unique;
    hide Outcome;
    hide ValueAt;
    hide NumberEnds;
    hide IsSpace;
    hide EndsNumber;
    var e := es[0];
    var c := p + |KeyText(e)|;
    var n := c + 1 + |e.behind| + |DocText(e.doc)|;
    EntryLayout(s, p, es);
    MoreEntriesSplit(s, n + |e.after|, es);
    Separators();
    AfterValue(s, n, e.after, if |es| == 1 then 0x7D else 0x2C);
    if e.doc.IntDoc? { EndsByByte(s, n, e.doc.digits); }
    DocReads(s, c + 1, e.behind, e.doc, nesting);
  }

  lemma FirstValueOf(m: Member, ms: seq<Member>, nesting: nat)
    requires AllValuesUnique([m] + ms)
    ensures Unique(m.value) && AllValuesUnique(ms)
    ensures AllValuesFit([m] + ms, nesting) <==>
      DepthAtMost(m.value, MAX_NESTING - nesting) && AllValuesFit(ms, nesting)
  {
    hide Unique;
    hide DepthAtMost;
    var all := [m] + ms;
    assert all[0] == m && forall k | 0 <= k < |ms| :: all[k + 1] == ms[k];
    assert forall k | 1 <= k < |all| :: all[k] == ms[k - 1];
  }

  lemma MembersFail(s: seq<byte>, k: nat, nesting: nat, done: seq<Member>, key: seq<byte>, m: nat, c: nat)
    requires k <= |s| && m <= |s| && Quoted(s, k) == Some((key, m)) && SkipSpace(s, m) == c < |s| && At(s, c) == COLON
    requires ValueAt(s, c + 1, nesting) == Fail
    ensures MembersFrom(s, k, nesting, done) == Fail
  {
    hide ValueAt;
    hide SkipSpace;
    hide Quoted;
  }

  lemma NameIsNew(done: seq<Member>, m: Member, ms: seq<Member>)
    requires DistinctNames(done + ([m] + ms))
    ensures Find(done, m.name, 0).None?
  {
    var all := done + ([m] + ms);
    assert all[|done|] == m && forall k | 0 <= k < |done| :: all[k] == done[k];
  }

  /** One turn of the loop of parse_object_value. */
  lemma MembersStep(s: seq<byte>, k: nat, nesting: nat, done: seq<Member>, key: seq<byte>, m: nat, c: nat, v: Json,
      n: nat, q: nat)
    requires k <= |s| && m <= |s| && Quoted(s, k) == Some((key, m)) && SkipSpace(s, m) == c < |s| && At(s, c) == COLON
    requires n <= |s| && ValueAt(s, c + 1, nesting) == Ok(v, n) && SkipSpace(s, n) == q < |s|
    requires Find(done, UpToNul(key), 0).None?
    ensures var more := done + [Member(UpToNul(key), v)];
      && (At(s, q) == COMMA ==> MembersFrom(s, k, nesting, done) == MembersFrom(s, SkipSpace(s, q + 1), nesting, more))
      && (At(s, q) == RBRACE ==> MembersFrom(s, k, nesting, done) == Ok(Object(more), q + 1))
  {
    hide ValueAt;
    hide SkipSpace;
    hide Quoted;
    hide Find;
    hide UpToNul;
  }

  lemma {:induction false} EntriesRead(s: seq<byte>, p: nat, es: seq<Entry>, nesting: nat, done: seq<Member>)
    requires es != [] && ValidEntries(es)
    requires Has(s, p, EntriesText(es) + [0x7D]) && AllValuesUnique(EntryMembers(es))
    requires DistinctNames(done + EntryMembers(es))
    ensures p + |es[0].before| <= |s|
    ensures MembersFrom(s, p + |es[0].before|, nesting, done) ==
      if AllValuesFit(EntryMembers(es), nesting)
      then Ok(Object(done + EntryMembers(es)), p + |EntriesText(es)| + 1) else Fail
    decreases es, 1
  {
    hide SkipSpace;
    hide Has;
    hide At;
    hide DocText;
    hide DocValue;
    hide StringText;
    hide EntriesText;
    hide EntryMembers;
    hide MoreEntries;
    hide MembersFrom;
    hide Unique;
    hide DepthAtMost;
    hide AllValuesUnique;
    hide AllValuesFit;
    hide ValueAt;
    hide Quoted;
    hide StringValue;
    hide ValidEntries;
    hide ValidEntry;
    hide DistinctNames;
    hide Find;
    hide CharsBytes;
    hide ValidChars;
    FirstEntry(es);
    var e, rest := es[0], EntryMembers(es[1..]);
    ValidName(e);
    var m := Member(StringValue(e.name), DocValue(e.doc));
    var k, c := p + |e.before|, p + |KeyText(e)|;
    var n := c + 1 + |e.behind| + |DocText(e.doc)|;
    var q := n + |e.after|;
    FirstValueOf(m, rest, nesting);
    NameIsNew(done, m, rest);
    NameValue(e.name);
    EntryLayout(s, p, es);
    MoreEntriesSplit(s, q, es);
    EntryNameReads(s, p, es);
    EntryValueReads(s, p, es, nesting);
    if !DepthAtMost(m.value, MAX_NESTING - nesting) {
      MembersFail(s, k, nesting, done, CharsBytes(e.name), k + |StringText(e.name)|, c);
    } else {
      MembersStep(s, k, nesting, done, CharsBytes(e.name), k + |StringText(e.name)|, c, m.value, n, q);
      if |es| > 1 {
        assert done + [m] + rest == done + ([m] + rest);
        FirstEntry(es[1..]);
        KeySkipped(s, q + 1, es[1..]);
        EntriesRead(s, q + 1, es[1..], nesting, done + [m]);
      } else {
        NoMembers();
        NothingDeep(nesting);
      }
    }
  }

  lemma ValidName(e: Entry)
    requires ValidEntry(e)
    ensures ValidChars(e.name) && Valid(e.doc)
  {
  }

  lemma NameValue(cs: seq<Char>)
    requires ValidChars(cs)
    ensures StringValue(cs) == UpToNul(CharsBytes(cs))
  {
  }
}
