/** Whatever the parser takes is a text of the grammar of RFC 8259. */
module JsonTaken {
  import opened Bytes
  import opened JsonValue
  import opened JsonStrings
  import opened JsonPrint
  import opened JsonScanner
  import opened JsonGrammar
  import opened JsonText
  import opened JsonExactStrings
  import opened JsonReads

  // ----- whatever is taken is a text of the grammar -----

  /** From i on lie white space and the text of d, and r is its value. */
  ghost predicate Stands(s: seq<byte>, i: nat, lead: seq<byte>, d: Doc, r: Parsed) {
    && r.Ok? && Blanks(lead) && Valid(d)
    && Has(s, i, lead + DocText(d)) && i + |lead| + |DocText(d)| == r.next && DocValue(d) == r.value
    && (d.IntDoc? ==> NumberEnds(s, r.next, d.digits))
  }

  lemma Prefixed(s: seq<byte>, i: nat, d: Doc, r: Parsed) returns (lead: seq<byte>)
    requires i <= |s| && Stands(s, SkipSpace(s, i), [], d, r)
    ensures Stands(s, i, lead, d, r)
  {
    hide DocText;
    hide DocValue;
    hide Valid;
    hide NumberEnds;
    hide SkipSpace;
    var p := SkipSpace(s, i);
    lead := s[i..p];
    SkippedAreBlank(s, i);
    assert [] + DocText(d) == DocText(d);
    assert Has(s, i, lead);
    HasConcat(s, i, lead, DocText(d));
  }

  lemma ScalarOf(s: seq<byte>, p: nat, nesting: nat) returns (d: Doc)
    requires p <= |s| && SkipSpace(s, p) == p && ValueAt(s, p, nesting).Ok?
    requires At(s, p) != LBRACE && At(s, p) != LBRACKET
    ensures var r := ValueAt(s, p, nesting); r.next == p ==> At(s, p) == MINUS && r.value == Number(0)
    ensures var r := ValueAt(s, p, nesting); r.next != p ==> Stands(s, p, [], d, r)
  {
    hide SkipSpace;
    hide NumberAt;
    hide Quoted;
    hide ObjectAt;
    hide ArrayAt;
    hide IsDigit;
    hide NumberEnds;
    hide IsInteger;
    hide CharsText;
    hide CharsBytes;
    var c := At(s, p);
    NulIsNoDigit();
    if c == QUOTE {
      var cs := StringOf(s, p);
      d := StringDoc(cs);
    } else if c == 0x74 {
      d := TrueDoc;
    } else if c == 0x66 {
      d := FalseDoc;
    } else if c == 0x6E {
      d := NullDoc;
    } else {
      d := IntOf(s, p);
    }
    assert [] + DocText(d) == DocText(d);
  }

  lemma StandsMoves(s: seq<byte>, p: nat, d: Doc, r: Parsed)
    requires Stands(s, p, [], d, r)
    ensures r.next > p
  {
    hide DocText;
    hide DocValue;
    hide NumberEnds;
    DocStarts(d);
  }

  lemma ItemsCons(e: Element, rest: seq<Element>)
    requires ValidElement(e) && ValidItems(rest)
    ensures var items := [e] + rest;
      && ValidItems(items) && ItemValues(items) == [DocValue(e.doc)] + ItemValues(rest)
      && ItemsText(items) + [0x5D] == ((e.before + DocText(e.doc)) + e.after) + MoreItems(items)
      && MoreItems(items) == if rest == [] then [0x5D] else [0x2C] + (ItemsText(rest) + [0x5D])
  {
    hide DocText;
    hide DocValue;
    var items := [e] + rest;
    assert items[0] == e && items[1..] == rest;
    ItemsSplit(items);
  }

  lemma {:induction false} DocOf(s: seq<byte>, i: nat, nesting: nat) returns (lead: seq<byte>, d: Doc)
    requires i <= |s| && ValueAt(s, i, nesting).Ok?
    ensures var r := ValueAt(s, i, nesting);
      r.next == SkipSpace(s, i) ==> At(s, r.next) == MINUS && r.value == Number(0)
    ensures var r := ValueAt(s, i, nesting); r.next != SkipSpace(s, i) ==> Stands(s, i, lead, d, r)
    decreases |s| - i, 3
  {
    hide SkipSpace;
    hide ValueAt;
    hide Stands;
    var p, r := SkipSpace(s, i), ValueAt(s, i, nesting);
    lead := [];
    SkipTwice(s, i);
    SameAfterSpace(s, i, p, nesting);
    if At(s, p) == LBRACKET {
      d := ArrayOf(s, p, nesting);
      StandsMoves(s, p, d, r);
      lead := Prefixed(s, i, d, r);
    } else if At(s, p) == LBRACE {
      d := ObjectOf(s, p, nesting);
      StandsMoves(s, p, d, r);
      lead := Prefixed(s, i, d, r);
    } else {
      d := ScalarOf(s, p, nesting);
      if r.next != p {
        lead := Prefixed(s, i, d, r);
      }
    }
  }

  lemma EmptyArrayStands(s: seq<byte>, p: nat, q: nat)
    requires p < q < |s| && At(s, p) == LBRACKET && At(s, q) == RBRACKET && Blanks(s[p + 1..q])
    ensures Stands(s, p, [], ArrayDoc(s[p + 1..q], []), Ok(Array([]), q + 1))
  {
    hide Has;
    var blank := s[p + 1..q];
    OneByte(s, p);
    OneByte(s, q);
    SliceHas(s, p + 1, q);
    HasConcat(s, p, [0x5B], blank);
    HasConcat(s, p, [0x5B] + blank, [0x5D]);
    NoItems();
    var d := ArrayDoc(blank, []);
    assert [] + DocText(d) == DocText(d);
  }

  lemma ArrayStands(s: seq<byte>, p: nat, items: seq<Element>)
    requires p < |s| && At(s, p) == LBRACKET && items != [] && ValidItems(items)
    requires Has(s, p + 1, ItemsText(items) + [0x5D])
    ensures Stands(s, p, [], ArrayDoc([], items), Ok(Array(ItemValues(items)), p + |ItemsText(items)| + 2))
  {
    hide Has;
    hide ItemsText;
    hide ItemValues;
    hide ValidItems;
    var d := ArrayDoc([], items);
    OneByte(s, p);
    HasConcat(s, p, [0x5B], ItemsText(items) + [0x5D]);
    assert [0x5B] + (ItemsText(items) + [0x5D]) == DocText(d);
    assert [] + DocText(d) == DocText(d);
    NoBlanks();
  }

  lemma {:induction false} ArrayOf(s: seq<byte>, p: nat, nesting: nat) returns (d: Doc)
    requires p <= |s| && SkipSpace(s, p) == p && At(s, p) == LBRACKET && ValueAt(s, p, nesting).Ok?
    ensures Stands(s, p, [], d, ValueAt(s, p, nesting))
    decreases |s| - p, 2
  {
    hide SkipSpace;
    hide ValueAt;
    hide ItemsFrom;
    hide ItemsText;
    hide ItemValues;
    hide ValidItems;
    hide Stands;
    AtBracket(s, p, p, nesting);
    var q := SkipSpace(s, p + 1);
    SkippedAreBlank(s, p + 1);
    if At(s, q) == RBRACKET {
      d := ArrayDoc(s[p + 1..q], []);
      EmptyArrayStands(s, p, q);
    } else {
      SameItems(s, p + 1, nesting + 1, []);
      var items := ItemsOf(s, p + 1, nesting + 1, []);
      d := ArrayDoc([], items);
      assert [] + ItemValues(items) == ItemValues(items);
      ArrayStands(s, p, items);
    }
  }

  /** One turn of the array loop that was taken: its element, and the byte after it. */
  lemma ElementOf(s: seq<byte>, p: nat, nesting: nat, done: seq<Json>) returns (e: Element, q: nat)
    requires p <= |s| && ItemsFrom(s, p, nesting, done).Ok?
    ensures p <= q < |s| && ValidElement(e) && Has(s, p, (e.before + DocText(e.doc)) + e.after)
    ensures q == p + |e.before| + |DocText(e.doc)| + |e.after|
    ensures At(s, q) == RBRACKET ==>
      ItemsFrom(s, p, nesting, done) == Ok(Array(done + [DocValue(e.doc)]), q + 1)
    ensures At(s, q) != RBRACKET ==>
      && At(s, q) == COMMA
      && ItemsFrom(s, p, nesting, done) == ItemsFrom(s, q + 1, nesting, done + [DocValue(e.doc)])
    decreases |s| - p, 4
  {
    hide SkipSpace;
    hide ValueAt;
    hide DocText;
    hide DocValue;
    hide NumberEnds;
    var r := ValueAt(s, p, nesting);
    q := SkipSpace(s, r.next);
    SkipTwice(s, p);
    var lead, d := DocOf(s, p, nesting);
    var after := s[r.next..q];
    e := Element(lead, d, after);
    SkippedAreBlank(s, r.next);
    assert Has(s, r.next, after);
    HasConcat(s, p, lead + DocText(d), after);
    ItemsStep(s, p, nesting, done, r.value, r.next, q);
  }

  lemma {:induction false} ItemsOf(s: seq<byte>, p: nat, nesting: nat, done: seq<Json>) returns (items: seq<Element>)
    requires p <= |s| && ItemsFrom(s, p, nesting, done).Ok?
    ensures items != [] && ValidItems(items) && Has(s, p, ItemsText(items) + [0x5D])
    ensures ItemsFrom(s, p, nesting, done) == Ok(Array(done + ItemValues(items)), p + |ItemsText(items)| + 1)
    decreases |s| - p, 5
  {
    hide ItemsFrom;
    hide DocText;
    hide DocValue;
    hide ItemsText;
    hide ItemValues;
    hide ValidItems;
    hide Has;
    hide ValidElement;
    var e, q := ElementOf(s, p, nesting, done);
    ElementValid(e);
    var v := DocValue(e.doc);
    NoItems();
    OneByte(s, q);
    var rest: seq<Element> := [];
    if At(s, q) != RBRACKET {
      rest := ItemsOf(s, q + 1, nesting, done + [v]);
      assert done + [v] + ItemValues(rest) == done + ([v] + ItemValues(rest));
    }
    items := [e] + rest;
    ItemsCons(e, rest);
    ItemsJoin(s, p, e, rest, q);
    assert [v] + [] == [v];
  }

  lemma ElementValid(e: Element)
    requires ValidElement(e)
    ensures Valid(e.doc)
  {
  }

  /** An element and the rest of the list, one behind the other. */
  lemma ItemsJoin(s: seq<byte>, p: nat, e: Element, rest: seq<Element>, q: nat)
    requires ValidElement(e) && ValidItems(rest) && Has(s, p, (e.before + DocText(e.doc)) + e.after)
    requires q == p + |e.before| + |DocText(e.doc)| + |e.after|
    requires if rest == [] then Has(s, q, [0x5D]) else Has(s, q, [0x2C]) && Has(s, q + 1, ItemsText(rest) + [0x5D])
    ensures Has(s, p, ItemsText([e] + rest) + [0x5D])
    ensures p + |ItemsText([e] + rest)| == if rest == [] then q else q + 1 + |ItemsText(rest)|
  {
    hide DocText;
    hide DocValue;
    hide ItemsText;
    hide ItemValues;
    hide ValidItems;
    hide ValidElement;
    hide MoreItems;
    hide Has;
    var items, text := [e] + rest, (e.before + DocText(e.doc)) + e.after;
    ItemsCons(e, rest);
    HasConcat(s, q, [0x2C], ItemsText(rest) + [0x5D]);
    HasConcat(s, p, text, MoreItems(items));
    assert |ItemsText(items) + [0x5D]| == |text| + |MoreItems(items)|;
  }

  lemma OneByte(s: seq<byte>, q: nat)
    requires q < |s|
    ensures Has(s, q, [At(s, q)])
  {
  }

  lemma EmptyObjectStands(s: seq<byte>, p: nat, q: nat)
    requires p < q < |s| && At(s, p) == LBRACE && At(s, q) == RBRACE && Blanks(s[p + 1..q])
    ensures Stands(s, p, [], ObjectDoc(s[p + 1..q], []), Ok(Object([]), q + 1))
  {
    hide Has;
    var blank := s[p + 1..q];
    OneByte(s, p);
    OneByte(s, q);
    SliceHas(s, p + 1, q);
    HasConcat(s, p, [0x7B], blank);
    HasConcat(s, p, [0x7B] + blank, [0x7D]);
    NoMembers();
    var d := ObjectDoc(blank, []);
    assert [] + DocText(d) == DocText(d);
  }

  lemma ObjectStands(s: seq<byte>, p: nat, es: seq<Entry>)
    requires p < |s| && At(s, p) == LBRACE && es != [] && ValidEntries(es)
    requires Has(s, p + 1, EntriesText(es) + [0x7D])
    ensures Stands(s, p, [], ObjectDoc([], es), Ok(Object(EntryMembers(es)), p + |EntriesText(es)| + 2))
  {
    hide Has;
    hide EntriesText;
    hide EntryMembers;
    hide ValidEntries;
    var d := ObjectDoc([], es);
    OneByte(s, p);
    HasConcat(s, p, [0x7B], EntriesText(es) + [0x7D]);
    assert [0x7B] + (EntriesText(es) + [0x7D]) == DocText(d);
    assert [] + DocText(d) == DocText(d);
    NoBlanks();
  }

  lemma {:induction false} ObjectOf(s: seq<byte>, p: nat, nesting: nat) returns (d: Doc)
    requires p <= |s| && SkipSpace(s, p) == p && At(s, p) == LBRACE && ValueAt(s, p, nesting).Ok?
    ensures Stands(s, p, [], d, ValueAt(s, p, nesting))
    decreases |s| - p, 2
  {
    hide SkipSpace;
    hide ValueAt;
    hide MembersFrom;
    hide EntriesText;
    hide EntryMembers;
    hide ValidEntries;
    hide Stands;
    hide Has;
    AtBrace(s, p, p, nesting);
    var q := SkipSpace(s, p + 1);
    SkippedAreBlank(s, p + 1);
    if At(s, q) == RBRACE {
      d := ObjectDoc(s[p + 1..q], []);
      EmptyObjectStands(s, p, q);
    } else {
      var es := EntriesOf(s, q, nesting + 1, []);
      var fs := [es[0].(before := s[p + 1..q])] + es[1..];
      d := ObjectDoc([], fs);
      BlankBefore(s, p + 1, q, es);
      assert [] + EntryMembers(es) == EntryMembers(es);
      ObjectStands(s, p, fs);
    }
  }

  lemma SliceHas(s: seq<byte>, i: nat, j: nat)
    requires i <= j <= |s|
    ensures Has(s, i, s[i..j])
  {
  }

  /** White space in front of the first name. */
  lemma WithBlank(es: seq<Entry>, blank: seq<byte>)
    requires es != [] && ValidEntries(es) && es[0].before == [] && Blanks(blank)
    ensures var fs := [es[0].(before := blank)] + es[1..];
      && fs != [] && ValidEntries(fs) && EntryMembers(fs) == EntryMembers(es)
      && EntriesText(fs) + [0x7D] == blank + (EntriesText(es) + [0x7D])
  {
    hide DocText;
    hide DocValue;
    hide StringText;
    hide StringValue;
    hide EntriesText;
    hide EntryMembers;
    hide ValidEntries;
    hide MoreEntries;
    hide ValidEntry;
    hide KeyText;
    var e, rest := es[0], es[1..];
    var f := e.(before := blank);
    FirstIsValid(es);
    TailIsValid(es);
    assert es == [e] + rest;
    BlankKey(e, blank);
    EntriesCons(e, rest);
    EntriesCons(f, rest);
    var value, more := (e.behind + DocText(e.doc)) + e.after, MoreEntries(es);
    assert (blank + KeyText(e)) + [0x3A] + value + more == blank + (KeyText(e) + [0x3A] + value + more);
  }

  lemma BlankKey(e: Entry, blank: seq<byte>)
    requires e.before == [] && ValidEntry(e) && Blanks(blank)
    ensures ValidEntry(e.(before := blank)) && KeyText(e.(before := blank)) == blank + KeyText(e)
  {
    hide StringText;
  }

  lemma TailIsValid(es: seq<Entry>)
    requires es != [] && ValidEntries(es)
    ensures ValidEntries(es[1..])
  {
    hide ValidEntry;
  }

  /** The turns that parse_object_value goes on after. */
  lemma MembersTaken(s: seq<byte>, p: nat, nesting: nat, done: seq<Member>)
    requires p <= |s| && MembersFrom(s, p, nesting, done).Ok?
    ensures Quoted(s, p).Some?
    ensures var key := Quoted(s, p).value; var c := SkipSpace(s, key.1);
      c < |s| && At(s, c) == COLON && ValueAt(s, c + 1, nesting).Ok? && Find(done, UpToNul(key.0), 0).None?
    ensures var c := SkipSpace(s, Quoted(s, p).value.1); var q := SkipSpace(s, ValueAt(s, c + 1, nesting).next);
      At(s, q) == COMMA || At(s, q) == RBRACE
  {
    hide SkipSpace;
    hide ValueAt;
    hide Quoted;
    hide Find;
    hide UpToNul;
  }

  lemma EntryHas(s: seq<byte>, p: nat, e: Entry)
    requires e.before == [] && Has(s, p, StringText(e.name)) && Has(s, p + |StringText(e.name)|, e.middle)
    requires Has(s, p + |KeyText(e)|, [0x3A]) && Has(s, p + |KeyText(e)| + 1, e.behind + DocText(e.doc))
    requires Has(s, p + |KeyText(e)| + 1 + |e.behind + DocText(e.doc)|, e.after)
    ensures Has(s, p, KeyText(e) + [0x3A] + ((e.behind + DocText(e.doc)) + e.after))
  {
    hide DocText;
    hide StringText;
    hide Has;
    assert KeyText(e) == StringText(e.name) + e.middle;
    HasConcat(s, p, StringText(e.name), e.middle);
    HasConcat(s, p, KeyText(e), [0x3A]);
    HasConcat(s, p + |KeyText(e)| + 1, e.behind + DocText(e.doc), e.after);
    HasConcat(s, p, KeyText(e) + [0x3A], (e.behind + DocText(e.doc)) + e.after);
  }

  /** One turn of the object loop that was taken. */
  lemma EntryOf(s: seq<byte>, p: nat, nesting: nat, done: seq<Member>) returns (e: Entry, q: nat)
    requires p <= |s| && MembersFrom(s, p, nesting, done).Ok?
    ensures p < q < |s| && e.before == [] && ValidEntry(e)
    ensures Has(s, p, KeyText(e) + [0x3A] + ((e.behind + DocText(e.doc)) + e.after))
    ensures q == p + |KeyText(e)| + 1 + |e.behind| + |DocText(e.doc)| + |e.after|
    ensures At(s, q) == RBRACE ==>
      MembersFrom(s, p, nesting, done) ==
        Ok(Object(done + [Member(StringValue(e.name), DocValue(e.doc))]), q + 1)
    ensures At(s, q) != RBRACE ==>
      && At(s, q) == COMMA
      && MembersFrom(s, p, nesting, done) ==
           MembersFrom(s, SkipSpace(s, q + 1), nesting, done + [Member(StringValue(e.name), DocValue(e.doc))])
    decreases |s| - p, 4
  {
    hide SkipSpace;
    hide ValueAt;
    hide DocText;
    hide DocValue;
    hide NumberEnds;
    hide Quoted;
    hide StringText;
    hide Has;
    hide CharsBytes;
    hide UpToNul;
    hide Blanks;
    hide ValidChars;
    hide MembersFrom;
    hide Find;
    MembersTaken(s, p, nesting, done);
    var cs := StringOf(s, p);
    var m := p + |StringText(cs)|;
    var c := SkipSpace(s, m);
    var r := ValueAt(s, c + 1, nesting);
    q := SkipSpace(s, r.next);
    SkipTwice(s, c + 1);
    SkipTwice(s, r.next);
    var lead, d := DocOf(s, c + 1, nesting);
    e := Entry([], cs, s[m..c], lead, d, s[r.next..q]);
    SkippedAreBlank(s, m);
    SkippedAreBlank(s, r.next);
    NoBlanks();
    SliceHas(s, m, c);
    SliceHas(s, r.next, q);
    OneByte(s, c);
    EntryHas(s, p, e);
    NameValue(cs);
    MembersStep(s, p, nesting, done, CharsBytes(cs), m, c, r.value, r.next, q);
  }

  lemma NoBlanks()
    ensures Blanks([])
  {
  }

  lemma EntriesCons(e: Entry, rest: seq<Entry>)
    requires ValidEntry(e) && ValidEntries(rest)
    ensures var es := [e] + rest;
      && ValidEntries(es)
      && EntryMembers(es) == [Member(StringValue(e.name), DocValue(e.doc))] + EntryMembers(rest)
      && EntriesText(es) + [0x7D] ==
           (KeyText(e) + [0x3A] + ((e.behind + DocText(e.doc)) + e.after)) + MoreEntries(es)
      && MoreEntries(es) == if rest == [] then [0x7D] else [0x2C] + (EntriesText(rest) + [0x7D])
  {
    hide DocText;
    hide DocValue;
    hide StringText;
    hide StringValue;
    var es := [e] + rest;
    assert es[0] == e && es[1..] == rest;
    EntriesSplit(es);
  }

  lemma {:induction false} EntriesOf(s: seq<byte>, p: nat, nesting: nat, done: seq<Member>) returns (es: seq<Entry>)
    requires p <= |s| && MembersFrom(s, p, nesting, done).Ok?
    ensures es != [] && ValidEntries(es) && es[0].before == [] && Has(s, p, EntriesText(es) + [0x7D])
    ensures MembersFrom(s, p, nesting, done) == Ok(Object(done + EntryMembers(es)), p + |EntriesText(es)| + 1)
    decreases |s| - p, 5
  {
    hide MembersFrom;
    hide SkipSpace;
    hide DocText;
    hide DocValue;
    hide StringValue;
    hide EntriesText;
    hide EntryMembers;
    hide ValidEntries;
    hide ValidEntry;
    hide MoreEntries;
    hide KeyText;
    hide Has;
    var e, q := EntryOf(s, p, nesting, done);
    ValidName(e);
    var m := Member(StringValue(e.name), DocValue(e.doc));
    NoMembers();
    OneByte(s, q);
    var rest: seq<Entry> := [];
    if At(s, q) != RBRACE {
      var k := SkipSpace(s, q + 1);
      SkippedAreBlank(s, q + 1);
      SliceHas(s, q + 1, k);
      var gs := EntriesOf(s, k, nesting, done + [m]);
      rest := [gs[0].(before := s[q + 1..k])] + gs[1..];
      BlankBefore(s, q + 1, k, gs);
      assert done + [m] + EntryMembers(rest) == done + ([m] + EntryMembers(rest));
    }
    es := [e] + rest;
    EntriesCons(e, rest);
    EntriesJoin(s, p, e, rest, q);
    assert [m] + [] == [m];
  }

  lemma BlankBefore(s: seq<byte>, i: nat, k: nat, gs: seq<Entry>)
    requires i <= k <= |s| && Blanks(s[i..k])
    requires gs != [] && ValidEntries(gs) && gs[0].before == [] && Has(s, k, EntriesText(gs) + [0x7D])
    ensures var fs := [gs[0].(before := s[i..k])] + gs[1..];
      && fs != [] && ValidEntries(fs) && EntryMembers(fs) == EntryMembers(gs)
      && Has(s, i, EntriesText(fs) + [0x7D]) && i + |EntriesText(fs)| == k + |EntriesText(gs)|
  {
    hide EntriesText;
    hide EntryMembers;
    hide ValidEntries;
    hide Has;
    var blank := s[i..k];
    var fs := [gs[0].(before := blank)] + gs[1..];
    WithBlank(gs, blank);
    SliceHas(s, i, k);
    HasConcat(s, i, blank, EntriesText(gs) + [0x7D]);
    assert |EntriesText(fs) + [0x7D]| == |blank| + |EntriesText(gs) + [0x7D]|;
  }

  /** A member and the rest of the list, one behind the other. */
  lemma EntriesJoin(s: seq<byte>, p: nat, e: Entry, rest: seq<Entry>, q: nat)
    requires ValidEntry(e) && ValidEntries(rest)
    requires Has(s, p, KeyText(e) + [0x3A] + ((e.behind + DocText(e.doc)) + e.after))
    requires q == p + |KeyText(e)| + 1 + |e.behind| + |DocText(e.doc)| + |e.after|
    requires if rest == [] then Has(s, q, [0x7D]) else Has(s, q, [0x2C]) && Has(s, q + 1, EntriesText(rest) + [0x7D])
    ensures Has(s, p, EntriesText([e] + rest) + [0x7D])
    ensures p + |EntriesText([e] + rest)| == if rest == [] then q else q + 1 + |EntriesText(rest)|
  {
    hide DocText;
    hide DocValue;
    hide StringValue;
    hide EntriesText;
    hide EntryMembers;
    hide ValidEntries;
    hide ValidEntry;
    hide MoreEntries;
    hide KeyText;
    hide Has;
    ValidName(e);
    var es, text := [e] + rest, KeyText(e) + [0x3A] + ((e.behind + DocText(e.doc)) + e.after);
    EntriesCons(e, rest);
    HasConcat(s, q, [0x2C], EntriesText(rest) + [0x7D]);
    HasConcat(s, p, text, MoreEntries(es));
    assert |EntriesText(es) + [0x7D]| == |text| + |MoreEntries(es)|;
  }

  // ----- names and depth -----

  predicate Sound(v: Json, nesting: nat) {
    Unique(v) && DepthAtMost(v, MAX_NESTING - nesting)
  }

  lemma {:induction false} ParsesSound(s: seq<byte>, i: nat, nesting: nat)
    requires i <= |s|
    ensures ValueAt(s, i, nesting).Ok? ==> Sound(ValueAt(s, i, nesting).value, nesting)
    decreases |s| - i, 3
  {
    hide NumberAt;
    hide Quoted;
    hide Has;
    var p := SkipSpace(s, i);
    NumberIsNumber(s, p);
    if nesting <= MAX_NESTING && At(s, p) == LBRACE {
      var q := SkipSpace(s, p + 1);
      if At(s, q) != RBRACE { MembersSound(s, q, nesting + 1, []); }
    } else if nesting <= MAX_NESTING && At(s, p) == LBRACKET {
      var q := SkipSpace(s, p + 1);
      if At(s, q) != RBRACKET { ItemsSound(s, q, nesting + 1, []); }
    }
  }

  lemma NumberIsNumber(s: seq<byte>, i: nat)
    ensures i < |s| && NumberAt(s, i).Ok? ==> NumberAt(s, i).value.Number?
  {
  }

  lemma {:induction false} ItemsSound(s: seq<byte>, p: nat, nesting: nat, done: seq<Json>)
    requires p <= |s| && 1 <= nesting <= MAX_NESTING + 1
    requires forall k | 0 <= k < |done| :: Sound(done[k], nesting)
    ensures ItemsFrom(s, p, nesting, done).Ok? ==> Sound(ItemsFrom(s, p, nesting, done).value, nesting - 1)
    decreases |s| - p, 4
  {
    hide ValueAt;
    ParsesSound(s, p, nesting);
    var r := ValueAt(s, p, nesting);
    if r.Ok? {
      var q := SkipSpace(s, r.next);
      if At(s, q) == COMMA {
        ItemsSound(s, SkipSpace(s, q + 1), nesting, done + [r.value]);
      }
    }
  }

  lemma {:induction false} MembersSound(s: seq<byte>, p: nat, nesting: nat, done: seq<Member>)
    requires p <= |s| && 1 <= nesting <= MAX_NESTING + 1 && DistinctNames(done)
    requires forall k | 0 <= k < |done| :: Sound(done[k].value, nesting)
    ensures MembersFrom(s, p, nesting, done).Ok? ==> Sound(MembersFrom(s, p, nesting, done).value, nesting - 1)
    decreases |s| - p, 4
  {
    hide ValueAt;
    hide Quoted;
    hide Sound;
    var key := Quoted(s, p);
    if key.Some? {
      var c := SkipSpace(s, key.value.1);
      if At(s, c) == COLON {
        ParsesSound(s, c + 1, nesting);
        var r := ValueAt(s, c + 1, nesting);
        var name := UpToNul(key.value.0);
        if r.Ok? && Find(done, name, 0).None? {
          var more, q := done + [Member(name, r.value)], SkipSpace(s, r.next);
          ObjectSound(more, nesting);
          if At(s, q) == COMMA {
            MembersSound(s, SkipSpace(s, q + 1), nesting, more);
          }
        }
      }
    }
  }

  lemma ObjectSound(ms: seq<Member>, nesting: nat)
    requires 1 <= nesting <= MAX_NESTING + 1 && DistinctNames(ms)
    requires forall k | 0 <= k < |ms| :: Sound(ms[k].value, nesting)
    ensures Sound(Object(ms), nesting - 1)
  {
  }
}
