/** The parser against the grammar of RFC 8259: it takes exactly the texts of the grammar,
    as the values they stand for, with the limits that are stated. */
module JsonExact {
  import opened Bytes
  import opened JsonValue
  import opened JsonGrammar
  import opened JsonEscapes
  import opened JsonText
  import opened JsonReads
  import opened JsonTaken

  // ----- whole texts -----

  const BYTE_ORDER_MARK: seq<byte> := [0xEF, 0xBB, 0xBF]

  function Mark(s: seq<byte>): seq<byte> {
    if |s| >= 3 && s[..3] == BYTE_ORDER_MARK then BYTE_ORDER_MARK else []
  }

  /** After a byte order mark s holds white space, the text of d, and something that does not
      go on with it. */
  ghost predicate IsText(s: seq<byte>, lead: seq<byte>, d: Doc, rest: seq<byte>) {
    && s == Mark(s) + lead + DocText(d) + rest && Blanks(lead) && Valid(d)
    && (d.IntDoc? ==> NumberEnds(s, |s| - |rest|, d.digits))
  }

  /** After a byte order mark and white space there is a minus sign at p without a number. */
  predicate BareMinus(s: seq<byte>, p: nat) {
    && |Mark(s)| <= p < |s| && Blanks(s[|Mark(s)|..p]) && s[p] == 0x2D
    && !IsDigit(At(s, p + 1)) && !NotFinite(s, p + 1) && !(At(s, p + 1) == POINT && IsDigit(At(s, p + 2)))
  }

  predicate Takes(s: seq<byte>, v: Json) {
    Text(s).Ok? && Text(s).value == v
  }

  lemma TextStarts(s: seq<byte>)
    ensures |Mark(s)| <= |s| && Text(s) == ValueAt(s, |Mark(s)|, 0)
  {
    hide ValueAt;
    if |s| >= 3 { assert s[0..0 + 3] == s[..3]; }
  }

  lemma TextTaken(s: seq<byte>, lead: seq<byte>, d: Doc, rest: seq<byte>)
    requires IsText(s, lead, d, rest) && Unique(DocValue(d)) && DepthAtMost(DocValue(d), 2048)
    ensures Takes(s, DocValue(d))
  {
    hide ValueAt;
    hide DocText;
    hide DocValue;
    hide NumberEnds;
    hide Has;
    hide Mark;
    hide Unique;
    hide DepthAtMost;
    TextStarts(s);
    var m := Mark(s);
    Everywhere(m, lead, DocText(d), rest);
    DocReads(s, |m|, lead, d, 0);
  }

  lemma Everywhere(a: seq<byte>, b: seq<byte>, c: seq<byte>, d: seq<byte>)
    ensures Has(a + b + c + d, |a|, b + c) && |a + b + c + d| - |d| == |a| + |b| + |c|
  {
    assert a + b + c + d == a + (b + c) + d;
  }

  lemma SignTaken(s: seq<byte>, p: nat)
    requires BareMinus(s, p)
    ensures Takes(s, Number(0))
  {
    hide Mark;
    hide IsSpace;
    TextStarts(s);
    var lead := s[|Mark(s)|..p];
    SliceHas(s, |Mark(s)|, p);
    MinusIsNoSpace();
    BlanksSkipped(s, |Mark(s)|, lead);
    hide SkipSpace;
    hide Has;
    hide IsDigit;
    NotDigits();
  }

  lemma MinusIsNoSpace()
    ensures !IsSpace(0x2D)
  {
  }

  lemma TakenIsText(s: seq<byte>, v: Json)
    requires Takes(s, v)
    ensures Unique(v) && DepthAtMost(v, 2048)
    ensures (exists lead, d, rest :: IsText(s, lead, d, rest) && DocValue(d) == v) ||
      (v == Number(0) && exists p :: BareMinus(s, p))
  {
    hide ValueAt;
    hide DocText;
    hide DocValue;
    hide NumberEnds;
    hide Mark;
    hide SkipSpace;
    hide BareMinus;
    hide Stands;
    TextStarts(s);
    var m := |Mark(s)|;
    ParsesSound(s, m, 0);
    var lead, d := DocOf(s, m, 0);
    var r := ValueAt(s, m, 0);
    if r.next == SkipSpace(s, m) {
      SignFound(s);
      assert BareMinus(s, SkipSpace(s, m));
    } else {
      StandsIsText(s, lead, d, r);
    }
  }

  lemma StandsIsText(s: seq<byte>, lead: seq<byte>, d: Doc, r: Parsed)
    requires Stands(s, |Mark(s)|, lead, d, r) && r.next <= |s|
    ensures IsText(s, lead, d, s[r.next..]) && DocValue(d) == r.value
  {
    hide DocText;
    hide DocValue;
    hide NumberEnds;
    hide Valid;
    hide Blanks;
    var m, rest := Mark(s), s[r.next..];
    MarkIsPrefix(s);
    hide Mark;
    Slices(s, |m|, r.next);
    assert s[|m|..r.next] == lead + DocText(d);
    assert m + (lead + DocText(d)) + rest == m + lead + DocText(d) + rest;
  }

  lemma Slices(s: seq<byte>, m: nat, n: nat)
    requires m <= n <= |s|
    ensures s == s[..m] + s[m..n] + s[n..]
  {
  }

  lemma MarkIsPrefix(s: seq<byte>)
    ensures |Mark(s)| <= |s| && s[..|Mark(s)|] == Mark(s)
  {
  }

  lemma SignFound(s: seq<byte>)
    requires |Mark(s)| <= |s|
    requires var r := ValueAt(s, |Mark(s)|, 0); var p := SkipSpace(s, |Mark(s)|);
      r.Ok? && r.next == p && At(s, p) == MINUS
    ensures BareMinus(s, SkipSpace(s, |Mark(s)|))
  {
    hide Mark;
    hide SkipSpace;
    hide IsDigit;
    hide NotFinite;
    hide NumberOf;
    hide Blank;
    NotDigits();
    SkippedAreBlank(s, |Mark(s)|);
  }

  /** json_parse_string takes s as v exactly when, behind a byte order mark and white space, s
      begins with a text of the grammar that stands for v, in which no object has a name twice
      and nothing is nested more than 2048 deep; or v is zero and there is a bare minus sign. */
  lemma ParserExact(s: seq<byte>, v: Json)
    ensures Takes(s, v) <==>
      || (Unique(v) && DepthAtMost(v, 2048) && exists lead, d, rest :: IsText(s, lead, d, rest) && DocValue(d) == v)
      || (v == Number(0) && exists p :: BareMinus(s, p))
  {
    hide Takes;
    hide BareMinus;
    hide DocValue;
    hide DocText;
    hide NumberEnds;
    hide Mark;
    if Takes(s, v) { TakenIsText(s, v); }
    if Unique(v) && DepthAtMost(v, 2048) {
      if lead, d, rest :| IsText(s, lead, d, rest) && DocValue(d) == v {
        TextTaken(s, lead, d, rest);
      }
    }
    if v == Number(0) {
      if p :| BareMinus(s, p) {
        SignTaken(s, p);
      }
    }
  }

  /** A minus sign alone is no JSON text, and is taken as zero. */
  lemma MinusAlone()
    ensures Takes([0x2D], Number(0))
    ensures !exists d :: Valid(d) && DocText(d) == [0x2D]
  {
    var s: seq<byte> := [0x2D];
    NotDigits();
    NulIsNoDigit();
    assert s[..0] == [] && Mark(s) == [] && s[0..0] == [];
    assert BareMinus(s, 0);
    SignTaken(s, 0);
    forall d | Valid(d)
      ensures DocText(d) != [0x2D]
    {
      NotMinus(d);
    }
  }

  lemma NotMinus(d: Doc)
    requires Valid(d)
    ensures DocText(d) != [0x2D]
  {
    hide PlaceFrom;
    hide CharsText;
    hide ItemsText;
    hide EntriesText;
    if d.IntDoc? {
      DecimalIsDigits(d.digits);
      NotDigits();
      if !d.minus { assert DocText(d) == d.digits; }
    }
  }
}
