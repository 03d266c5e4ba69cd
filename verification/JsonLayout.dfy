/** What json_serialize_to_buffer_r prints, as a text of RFC 8259: the syntax tree it writes,
    and where that tree has line breaks and blanks. */
module JsonLayout {
  import opened Bytes
  import opened JsonValue
  import opened JsonPrint
  import opened JsonText
  import opened JsonExactStrings
  import opened JsonGrammar
  import opened JsonReads

  /** A line break and four blanks for every level, in the pretty form. */
  function Line(level: nat, pretty: bool): seq<byte> {
    if pretty then [0x0A] + seq(4 * level, _ => 0x20) else []
  }

  /** Every element and member on a line of its own, one level further in than its brackets;
      a blank after the colon; no other white space. The compact form has none at all. */
  predicate Laid(d: Doc, level: nat, pretty: bool) {
    match d
    case ArrayDoc(blank, items) =>
      && blank == []
      && forall k | 0 <= k < |items| ::
        && items[k].before == Line(level + 1, pretty)
        && items[k].after == (if k + 1 == |items| then Line(level, pretty) else [])
        && Laid(items[k].doc, level + 1, pretty)
    case ObjectDoc(blank, es) =>
      && blank == []
      && forall k | 0 <= k < |es| ::
        && es[k].before == Line(level + 1, pretty) && es[k].middle == []
        && es[k].behind == (if pretty then [0x20] else [])
        && es[k].after == (if k + 1 == |es| then Line(level, pretty) else [])
        && Laid(es[k].doc, level + 1, pretty)
    case _ => true
  }

  /** d is a text for v, laid out. */
  ghost predicate Writes(d: Doc, v: Json, level: nat, pretty: bool) {
    Valid(d) && DocValue(d) == v && DocText(d) == Print(v, level, pretty) && Laid(d, level, pretty)
  }

  // ----- white space -----

  lemma {:induction false} IndentIs(level: nat)
    ensures Indent(level) == seq(4 * level, _ => 0x20)
  {
    IndentWidth(level);
  }

  lemma LineIs(level: nat, pretty: bool)
    ensures Line(level, pretty) == When(pretty, [NEWLINE]) + When(pretty, Indent(level)) && Blanks(Line(level, pretty))
  {
    IndentIs(level);
  }

  // ----- scalars -----

  lemma {:induction false} PrintedBytes(cs: seq<Char>, str: seq<byte>)
    requires Printed(cs, str)
    ensures ValidChars(cs) && CharsBytes(cs) == str
    decreases |cs|
  {
    hide CharBytes;
    hide ValidChar;
    if cs != [] {
      PrintedBytes(cs[1..], str[1..]);
      assert str == [str[0]] + str[1..];
    }
  }

  lemma NameWritten(str: CString) returns (cs: seq<Char>)
    ensures ValidChars(cs) && StringText(cs) == Quote(str) && StringValue(cs) == str
  {
    hide Printed;
    hide StringText;
    hide Quote;
    cs := QuoteIsText(str);
    PrintedBytes(cs, str);
  }

  lemma DigitReads(d: nat)
    requires d < 10
    ensures IsDigit(Digit(d)) && DigitValue(Digit(d)) == d
    ensures Digit(d) == ZERO <==> d == 0
  {
  }

  lemma {:induction false} DigitsRead(s: seq<byte>, i: nat, n: nat)
    requires Has(s, i, Digits(n))
    ensures NumberOf(s, i, i + |Digits(n)|) == n
    ensures AllDigits(Digits(n)) && |Digits(n)| > 0
    ensures Digits(n)[0] == ZERO ==> n == 0
  {
    hide IsDigit;
    hide Digit;
    hide DigitValue;
    if n < 10 {
      DigitReads(n);
      HasAt(s, i, Digits(n), 0);
      assert NumberOf(s, i, i) == 0;
    } else {
      DigitReads(n % 10);
      var front := Digits(n / 10);
      HasConcat(s, i, front, [Digit(n % 10)]);
      DigitsRead(s, i, n / 10);
      HasAt(s, i + |front|, [Digit(n % 10)], 0);
    }
  }

  lemma OneDigit(n: nat)
    ensures |Digits(n)| == 1 <==> n < 10
  {
  }

  lemma DigitsWritten(n: nat)
    requires n < 0x20_0000_0000_0000
    ensures IsInteger(Digits(n)) && DecimalValue(Digits(n)) == n
  {
    hide Digits;
    hide DecimalValue;
    hide NumberOf;
    hide IsDecimal;
    hide AllDigits;
    var t := Digits(n);
    assert t[0..0 + |t|] == t;
    DigitsRead(t, 0, n);
    DigitsMean(t, 0, t);
    DecimalIsDigits(t);
    OneDigit(n);
  }

  lemma NumberWritten(n: Int53, level: nat, pretty: bool) returns (d: Doc)
    ensures Writes(d, Number(n), level, pretty)
  {
    hide Digits;
    hide IsInteger;
    hide DecimalValue;
    var m: nat := if n < 0 then -n else n;
    DigitsWritten(m);
    d := IntDoc(n < 0, Digits(m));
  }

  lemma ScalarWritten(v: Json, level: nat, pretty: bool) returns (d: Doc)
    requires !v.Array? && !v.Object?
    ensures Writes(d, v, level, pretty)
  {
    hide Quote;
    hide StringText;
    hide StringValue;
    match v
    case Null => d := NullDoc;
    case Bool(b) => d := if b then TrueDoc else FalseDoc;
    case String(str) =>
      var cs := NameWritten(str);
      d := StringDoc(cs);
    case Number(n) =>
      d := NumberWritten(n, level, pretty);
  }

  // ----- lists -----

  /** Element k and the comma behind it. */
  function ElementComma(items: seq<Element>, k: nat, total: nat): seq<byte>
    requires k < |items|
  {
    ElementText(items[k]) + When(k + 1 < total, [COMMA])
  }

  function ElementsTo(items: seq<Element>, k: nat, total: nat): seq<byte>
    requires k <= |items|
  {
    if k == 0 then [] else ElementsTo(items, k - 1, total) + ElementComma(items, k - 1, total)
  }

  lemma {:induction false} ElementsShift(items: seq<Element>, k: nat, total: nat)
    requires 0 < k <= |items| && total > 0
    ensures ElementsTo(items, k, total) == ElementComma(items, 0, total) + ElementsTo(items[1..], k - 1, total - 1)
    decreases k
  {
    hide ElementText;
    if k == 1 {
      assert ElementsTo(items, 0, total) == [] && ElementsTo(items[1..], 0, total - 1) == [];
    } else {
      ElementsShift(items, k - 1, total);
      assert items[1..][k - 2] == items[k - 1];
      assert ElementComma(items[1..], k - 2, total - 1) == ElementComma(items, k - 1, total);
    }
  }

  lemma {:induction false} ItemsAreElements(items: seq<Element>)
    ensures ItemsText(items) == ElementsTo(items, |items|, |items|)
    decreases |items|
  {
    hide ElementsTo;
    hide ElementText;
    hide When;
    NoElementsTo(items);
    if items != [] {
      var rest := items[1..];
      NoElementsTo(rest);
      ItemsAreElements(rest);
      ElementsShift(items, |items|, |items|);
      WhenIs([COMMA]);
      assert ElementText(items[0]) + ([0x2C] + ItemsText(rest)) == ElementText(items[0]) + [0x2C] + ItemsText(rest);
    }
  }

  lemma NoElementsTo(items: seq<Element>)
    ensures ElementsTo(items, 0, |items|) == []
  {
  }

  lemma {:induction false} ItemValuesAt(items: seq<Element>, vs: seq<Json>)
    requires ValidItems(items) && |items| == |vs|
    requires forall k | 0 <= k < |items| :: ValidElement(items[k]) && DocValue(items[k].doc) == vs[k]
    ensures ItemValues(items) == vs
    decreases |items|
  {
    hide DocValue;
    if items != [] {
      assert ValidElement(items[0]);
      ItemValuesAt(items[1..], vs[1..]);
      assert vs == [vs[0]] + vs[1..];
    }
  }

  /** Element i of a printed array. */
  ghost predicate ElementWrites(e: Element, v: Json, i: nat, level: nat, pretty: bool)
    requires v.Array? && i < |v.items|
  {
    && e.before == Line(level + 1, pretty) && e.after == (if i + 1 == |v.items| then Line(level, pretty) else [])
    && Writes(e.doc, v.items[i], level + 1, pretty)
  }

  lemma {:induction false} ArrayWritten(v: Json, level: nat, pretty: bool) returns (d: Doc)
    requires v.Array? && Unique(v)
    ensures Writes(d, v, level, pretty)
    decreases v, 1, 0
  {
    hide Print;
    hide DocText;
    hide DocValue;
    hide Line;
    hide ItemValues;
    hide ItemsText;
    var items := ItemsWritten(v, |v.items|, level, pretty);
    d := ArrayDoc([], items);
    ArrayText(v, items, level, pretty);
    LineIs(level, pretty);
    LineIs(level + 1, pretty);
    ArrayParts(items, v, level, pretty);
  }

  lemma ArrayParts(items: seq<Element>, v: Json, level: nat, pretty: bool)
    requires v.Array? && |items| == |v.items| && Blanks(Line(level, pretty)) && Blanks(Line(level + 1, pretty))
    requires forall i | 0 <= i < |items| :: ElementWrites(items[i], v, i, level, pretty)
    ensures Valid(ArrayDoc([], items)) && DocValue(ArrayDoc([], items)) == v
    ensures Laid(ArrayDoc([], items), level, pretty)
  {
    hide Print;
    hide DocText;
    hide Line;
    hide ItemValues;
    assert forall k | 0 <= k < |items| :: ValidElement(items[k]) && DocValue(items[k].doc) == v.items[k];
    ItemValuesAt(items, v.items);
  }

  lemma {:induction false} ItemsWritten(v: Json, n: nat, level: nat, pretty: bool) returns (items: seq<Element>)
    requires v.Array? && Unique(v) && n <= |v.items|
    ensures |items| == n && forall i | 0 <= i < n :: ElementWrites(items[i], v, i, level, pretty)
    decreases v, 0, n
  {
    hide Writes;
    hide Line;
    items := [];
    if n > 0 {
      var front := ItemsWritten(v, n - 1, level, pretty);
      var d := Written(v.items[n - 1], level + 1, pretty);
      var after := if n == |v.items| then Line(level, pretty) else [];
      items := front + [Element(Line(level + 1, pretty), d, after)];
    }
  }

  /** The line break behind one element is the one before the next. */
  lemma NextGlue(nl: seq<byte>, a: seq<byte>, pad: seq<byte>, text: seq<byte>, b: seq<byte>)
    requires nl + a == b + nl
    ensures nl + (a + (pad + text + ([COMMA] + nl))) == (b + ((nl + pad) + text + [] + [COMMA])) + nl
  {
    assert nl + (a + (pad + text + ([COMMA] + nl))) == (nl + a) + (pad + text + ([COMMA] + nl));
    assert (b + nl) + (pad + text + ([COMMA] + nl)) == (b + ((nl + pad) + text + [] + [COMMA])) + nl;
  }

  lemma LastGlue(nl: seq<byte>, a: seq<byte>, pad: seq<byte>, text: seq<byte>, end: seq<byte>, b: seq<byte>)
    requires nl + a == b + nl
    ensures nl + (a + (pad + text + ([] + nl))) + end == b + ((nl + pad) + text + (nl + end) + [])
  {
    assert nl + (a + (pad + text + ([] + nl))) + end == (nl + a) + (pad + text + (nl + end));
    assert (b + nl) + (pad + text + (nl + end)) == b + ((nl + pad) + text + (nl + end) + []);
  }

  /** Up to element k, with the line break that comes before it. */
  lemma {:induction false} ElementsPrinted(v: Json, items: seq<Element>, k: nat, level: nat, pretty: bool)
    requires v.Array? && |items| == |v.items| && k < |items|
    requires forall i | 0 <= i < |items| :: ElementWrites(items[i], v, i, level, pretty)
    ensures When(pretty, [NEWLINE]) + ItemsTo(v, k, level, pretty) ==
            ElementsTo(items, k, |items|) + When(pretty, [NEWLINE])
    decreases k
  {
    hide Print;
    hide ElementText;
    hide ElementWrites;
    hide Line;
    hide When;
    hide Indent;
    var nl := When(pretty, [NEWLINE]);
    if k == 0 {
      assert nl + [] == [] + nl;
    } else {
      var pad, text := When(pretty, Indent(level + 1)), Print(v.items[k - 1], level + 1, pretty);
      ElementsPrinted(v, items, k - 1, level, pretty);
      LineIs(level + 1, pretty);
      WhenIs([COMMA]);
      ElementTextIs(items[k - 1], v, k - 1, level, pretty);
      assert Item(v, k - 1, level, pretty) == pad + text + ([COMMA] + nl);
      NextGlue(nl, ItemsTo(v, k - 1, level, pretty), pad, text, ElementsTo(items, k - 1, |items|));
    }
  }

  lemma WhenIs(t: seq<byte>)
    ensures When(true, t) == t && When(false, t) == []
  {
  }

  lemma ArrayText(v: Json, items: seq<Element>, level: nat, pretty: bool)
    requires v.Array? && |items| == |v.items|
    requires forall i | 0 <= i < |items| :: ElementWrites(items[i], v, i, level, pretty)
    ensures DocText(ArrayDoc([], items)) == Print(v, level, pretty)
  {
    hide ItemsTo;
    hide Line;
    hide When;
    hide Valid;
    hide Laid;
    hide DocValue;
    hide ItemsText;
    hide Writes;
    hide Indent;
    WhenIs([NEWLINE]);
    WhenIs(Indent(level));
    if items != [] {
      ItemsAreElements(items);
      LastElement(v, items, level, pretty);
    } else {
      NoElements(v, level, pretty);
    }
  }

  lemma NoElements(v: Json, level: nat, pretty: bool)
    requires v.Array?
    ensures ItemsTo(v, 0, level, pretty) == []
  {
  }

  lemma ElementTextIs(e: Element, v: Json, k: nat, level: nat, pretty: bool)
    requires v.Array? && k < |v.items| && ElementWrites(e, v, k, level, pretty)
    ensures ElementText(e) == Line(level + 1, pretty) + Print(v.items[k], level + 1, pretty) +
      if k + 1 == |v.items| then Line(level, pretty) else []
  {
    hide Print;
    hide DocText;
    hide Line;
    hide Valid;
    hide Laid;
    hide DocValue;
  }

  lemma LastElement(v: Json, items: seq<Element>, level: nat, pretty: bool)
    requires v.Array? && items != [] && |items| == |v.items|
    requires forall i | 0 <= i < |items| :: ElementWrites(items[i], v, i, level, pretty)
    ensures When(pretty, [NEWLINE]) + ItemsTo(v, |items|, level, pretty) + When(pretty, Indent(level)) ==
            ElementsTo(items, |items|, |items|)
  {
    hide Print;
    hide ElementText;
    hide ElementWrites;
    hide Line;
    hide When;
    hide Indent;
    var k := |items| - 1;
    var nl, end := When(pretty, [NEWLINE]), When(pretty, Indent(level));
    var pad, text := When(pretty, Indent(level + 1)), Print(v.items[k], level + 1, pretty);
    ElementsPrinted(v, items, k, level, pretty);
    LineIs(level + 1, pretty);
    LineIs(level, pretty);
    WhenIs([COMMA]);
    ElementTextIs(items[k], v, k, level, pretty);
    assert Item(v, k, level, pretty) == pad + text + ([] + nl);
    LastGlue(nl, ItemsTo(v, k, level, pretty), pad, text, end, ElementsTo(items, k, |items|));
  }

  // ----- members -----

  /** Member k and the comma behind it. */
  function EntryComma(es: seq<Entry>, k: nat, total: nat): seq<byte>
    requires k < |es|
  {
    EntryText(es[k]) + When(k + 1 < total, [COMMA])
  }

  function EntriesTo(es: seq<Entry>, k: nat, total: nat): seq<byte>
    requires k <= |es|
  {
    if k == 0 then [] else EntriesTo(es, k - 1, total) + EntryComma(es, k - 1, total)
  }

  lemma {:induction false} EntriesShift(es: seq<Entry>, k: nat, total: nat)
    requires 0 < k <= |es| && total > 0
    ensures EntriesTo(es, k, total) == EntryComma(es, 0, total) + EntriesTo(es[1..], k - 1, total - 1)
    decreases k
  {
    hide EntryText;
    if k == 1 {
      assert EntriesTo(es, 0, total) == [] && EntriesTo(es[1..], 0, total - 1) == [];
    } else {
      EntriesShift(es, k - 1, total);
      assert es[1..][k - 2] == es[k - 1];
      assert EntryComma(es[1..], k - 2, total - 1) == EntryComma(es, k - 1, total);
    }
  }

  lemma {:induction false} EntriesAreTexts(es: seq<Entry>)
    ensures EntriesText(es) == EntriesTo(es, |es|, |es|)
    decreases |es|
  {
    hide EntriesTo;
    hide EntryText;
    hide When;
    NoEntriesTo(es);
    if es != [] {
      var rest := es[1..];
      NoEntriesTo(rest);
      EntriesAreTexts(rest);
      EntriesShift(es, |es|, |es|);
      WhenIs([COMMA]);
      assert EntryText(es[0]) + ([0x2C] + EntriesText(rest)) == EntryText(es[0]) + [0x2C] + EntriesText(rest);
    }
  }

  lemma NoEntriesTo(es: seq<Entry>)
    ensures EntriesTo(es, 0, |es|) == []
  {
  }

  lemma {:induction false} EntryMembersAt(es: seq<Entry>, ms: seq<Member>)
    requires ValidEntries(es) && |es| == |ms|
    requires forall k | 0 <= k < |es| ::
      ValidEntry(es[k]) && StringValue(es[k].name) == ms[k].name && DocValue(es[k].doc) == ms[k].value
    ensures EntryMembers(es) == ms
    decreases |es|
  {
    hide DocValue;
    hide StringValue;
    if es != [] {
      assert ValidEntry(es[0]);
      EntryMembersAt(es[1..], ms[1..]);
      assert ms == [ms[0]] + ms[1..];
    }
  }

  /** Member i of a printed object. */
  ghost predicate EntryWrites(e: Entry, v: Json, i: nat, level: nat, pretty: bool)
    requires v.Object? && i < |v.members|
  {
    && e.before == Line(level + 1, pretty) && e.after == (if i + 1 == |v.members| then Line(level, pretty) else [])
    && e.middle == [] && e.behind == (if pretty then [0x20] else [])
    && ValidChars(e.name) && StringText(e.name) == Quote(v.members[i].name) &&
      StringValue(e.name) == v.members[i].name
    && Writes(e.doc, v.members[i].value, level + 1, pretty)
  }

  lemma {:induction false} ObjectWritten(v: Json, level: nat, pretty: bool) returns (d: Doc)
    requires v.Object? && Unique(v)
    ensures Writes(d, v, level, pretty)
    decreases v, 1, 0
  {
    hide Print;
    hide DocText;
    hide DocValue;
    hide Line;
    hide EntryMembers;
    hide EntriesText;
    var es := EntriesWritten(v, |v.members|, level, pretty);
    d := ObjectDoc([], es);
    ObjectText(v, es, level, pretty);
    LineIs(level, pretty);
    LineIs(level + 1, pretty);
    ObjectParts(es, v, level, pretty);
  }

  lemma ObjectParts(es: seq<Entry>, v: Json, level: nat, pretty: bool)
    requires v.Object? && |es| == |v.members| && Blanks(Line(level, pretty)) && Blanks(Line(level + 1, pretty))
    requires forall i | 0 <= i < |es| :: EntryWrites(es[i], v, i, level, pretty)
    ensures Valid(ObjectDoc([], es)) && DocValue(ObjectDoc([], es)) == v
    ensures Laid(ObjectDoc([], es), level, pretty)
  {
    hide Print;
    hide DocText;
    hide Line;
    hide EntryMembers;
    hide StringText;
    hide StringValue;
    hide ValidChars;
    forall k | 0 <= k < |es|
      ensures ValidEntry(es[k]) && StringValue(es[k].name) == v.members[k].name &&
        DocValue(es[k].doc) == v.members[k].value
    {
      assert EntryWrites(es[k], v, k, level, pretty);
    }
    EntryMembersAt(es, v.members);
  }

  lemma {:induction false} EntriesWritten(v: Json, n: nat, level: nat, pretty: bool) returns (es: seq<Entry>)
    requires v.Object? && Unique(v) && n <= |v.members|
    ensures |es| == n && forall i | 0 <= i < n :: EntryWrites(es[i], v, i, level, pretty)
    decreases v, 0, n
  {
    hide Writes;
    hide Line;
    hide StringText;
    hide StringValue;
    hide ValidChars;
    hide Quote;
    es := [];
    if n > 0 {
      var front := EntriesWritten(v, n - 1, level, pretty);
      var m := v.members[n - 1];
      var cs := NameWritten(m.name);
      var d := Written(m.value, level + 1, pretty);
      var after := if n == |v.members| then Line(level, pretty) else [];
      es := front + [Entry(Line(level + 1, pretty), cs, [], if pretty then [0x20] else [], d, after)];
    }
  }

  /** A printed member without what stands before and behind it. */
  function PairBody(v: Json, k: nat, level: nat, pretty: bool): seq<byte>
    requires v.Object? && k < |v.members|
  {
    Quote(v.members[k].name) + [COLON] + When(pretty, [SPACE]) + Print(v.members[k].value, level + 1, pretty)
  }

  lemma PairIs(v: Json, k: nat, level: nat, pretty: bool)
    requires v.Object? && DistinctNames(v.members) && k < |v.members|
    ensures Pair(v, k, level, pretty) ==
      When(pretty, Indent(level + 1)) + PairBody(v, k, level, pretty) + After(k, |v.members|, pretty)
  {
    hide Print;
    hide Quote;
    hide When;
    hide After;
    FindOwn(v.members, k);
    var pad, key, gap := When(pretty, Indent(level + 1)), Quote(v.members[k].name), When(pretty, [SPACE]);
    var text := Print(v.members[k].value, level + 1, pretty);
    assert pad + key + [COLON] + gap + text == pad + (key + [COLON] + gap + text);
  }

  lemma BodyIs(e: Entry, v: Json, k: nat, level: nat, pretty: bool)
    requires v.Object? && k < |v.members| && EntryWrites(e, v, k, level, pretty)
    ensures EntryBody(e) == PairBody(v, k, level, pretty)
  {
    hide Print;
    hide DocText;
    hide StringText;
    hide Quote;
    hide Line;
    hide Laid;
    hide Valid;
    hide DocValue;
    hide StringValue;
    assert StringText(e.name) + [] == StringText(e.name);
  }

  lemma EntryTextIs(e: Entry, v: Json, k: nat, level: nat, pretty: bool)
    requires v.Object? && k < |v.members| && EntryWrites(e, v, k, level, pretty)
    ensures EntryText(e) == Line(level + 1, pretty) + PairBody(v, k, level, pretty) +
      if k + 1 == |v.members| then Line(level, pretty) else []
  {
    hide EntryBody;
    hide PairBody;
    hide Line;
    hide Writes;
    hide StringText;
    hide StringValue;
    hide ValidChars;
    hide Quote;
    BodyIs(e, v, k, level, pretty);
  }

  lemma {:induction false} EntriesPrinted(v: Json, es: seq<Entry>, k: nat, level: nat, pretty: bool)
    requires v.Object? && DistinctNames(v.members) && |es| == |v.members| && k < |es|
    requires forall i | 0 <= i < |es| :: EntryWrites(es[i], v, i, level, pretty)
    ensures When(pretty, [NEWLINE]) + MembersTo(v, k, level, pretty) ==
            EntriesTo(es, k, |es|) + When(pretty, [NEWLINE])
    decreases k
  {
    hide PairBody;
    hide Pair;
    hide EntryText;
    hide EntryWrites;
    hide Line;
    hide When;
    hide Indent;
    hide DistinctNames;
    var nl := When(pretty, [NEWLINE]);
    if k == 0 {
      assert nl + [] == [] + nl;
    } else {
      var pad, text := When(pretty, Indent(level + 1)), PairBody(v, k - 1, level, pretty);
      EntriesPrinted(v, es, k - 1, level, pretty);
      LineIs(level + 1, pretty);
      WhenIs([COMMA]);
      PairIs(v, k - 1, level, pretty);
      EntryTextIs(es[k - 1], v, k - 1, level, pretty);
      NextGlue(nl, MembersTo(v, k - 1, level, pretty), pad, text, EntriesTo(es, k - 1, |es|));
    }
  }

  lemma LastEntry(v: Json, es: seq<Entry>, level: nat, pretty: bool)
    requires v.Object? && DistinctNames(v.members) && es != [] && |es| == |v.members|
    requires forall i | 0 <= i < |es| :: EntryWrites(es[i], v, i, level, pretty)
    ensures When(pretty, [NEWLINE]) + MembersTo(v, |es|, level, pretty) + When(pretty, Indent(level)) ==
            EntriesTo(es, |es|, |es|)
  {
    hide PairBody;
    hide Pair;
    hide EntryText;
    hide EntryWrites;
    hide Line;
    hide When;
    hide Indent;
    hide DistinctNames;
    var k := |es| - 1;
    var nl, end := When(pretty, [NEWLINE]), When(pretty, Indent(level));
    var pad, text := When(pretty, Indent(level + 1)), PairBody(v, k, level, pretty);
    EntriesPrinted(v, es, k, level, pretty);
    LineIs(level + 1, pretty);
    LineIs(level, pretty);
    WhenIs([COMMA]);
    PairIs(v, k, level, pretty);
    EntryTextIs(es[k], v, k, level, pretty);
    LastGlue(nl, MembersTo(v, k, level, pretty), pad, text, end, EntriesTo(es, k, |es|));
  }

  lemma ObjectText(v: Json, es: seq<Entry>, level: nat, pretty: bool)
    requires v.Object? && DistinctNames(v.members) && |es| == |v.members|
    requires forall i | 0 <= i < |es| :: EntryWrites(es[i], v, i, level, pretty)
    ensures DocText(ObjectDoc([], es)) == Print(v, level, pretty)
  {
    hide MembersTo;
    hide When;
    hide EntriesText;
    hide EntryWrites;
    hide Indent;
    hide DistinctNames;
    hide EntriesTo;
    var nl, end, body := When(pretty, [NEWLINE]), When(pretty, Indent(level)), MembersTo(v, |es|, level, pretty);
    WhenIs([NEWLINE]);
    WhenIs(Indent(level));
    if es != [] {
      EntriesAreTexts(es);
      LastEntry(v, es, level, pretty);
      assert [LBRACE] + nl + body + end == [LBRACE] + (nl + body + end);
    } else {
      NoPairs(v, level, pretty);
    }
  }

  lemma NoPairs(v: Json, level: nat, pretty: bool)
    requires v.Object?
    ensures MembersTo(v, 0, level, pretty) == []
  {
  }

  /** Both printed forms of a value are texts of the grammar that stand for it, laid out as
      said. */
  lemma {:induction false} Written(v: Json, level: nat, pretty: bool) returns (d: Doc)
    requires Unique(v)
    ensures Writes(d, v, level, pretty)
    decreases v, 2, 0
  {
    hide Writes;
    if v.Array? {
      d := ArrayWritten(v, level, pretty);
    } else if v.Object? {
      d := ObjectWritten(v, level, pretty);
    } else {
      d := ScalarWritten(v, level, pretty);
    }
  }
}
