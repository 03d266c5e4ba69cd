/** Printing a value and parsing the text gives the value back. */
module JsonRoundTrip {
  import opened Bytes
  import opened JsonValue
  import opened JsonPrint
  import opened JsonGrammar
  import opened JsonText
  import opened JsonReads
  import opened JsonLayout
  import opened JsonTaken

  // ----- what was printed is read back -----

  lemma NoMark(d: Doc)
    requires Valid(d)
    ensures !Has(DocText(d), 0, [0xEF, 0xBB, 0xBF])
  {
    hide DocText;
    DocStarts(d);
    if Has(DocText(d), 0, [0xEF, 0xBB, 0xBF]) {
      HasAt(DocText(d), 0, [0xEF, 0xBB, 0xBF], 0);
    }
  }

  /** parse_value on the printed form of v, wherever it stands, behind any white space and at
      any nesting: v, or a failure exactly when v is nested too deeply. */
  lemma ValueParses(s: seq<byte>, i: nat, lead: seq<byte>, v: Json, level: nat, pretty: bool, nesting: nat)
    requires Unique(v) && Blanks(lead) && Has(s, i, lead + Print(v, level, pretty))
    requires EndsNumber(At(s, i + |lead| + |Print(v, level, pretty)|))
    ensures i <= |s| && ValueAt(s, i, nesting) == Outcome(v, nesting, i + |lead| + |Print(v, level, pretty)|)
  {
    hide Print;
    hide DocText;
    hide DocValue;
    hide Valid;
    hide Laid;
    hide Outcome;
    hide ValueAt;
    hide NumberEnds;
    hide EndsNumber;
    var d := Written(v, level, pretty);
    if d.IntDoc? { EndsByByte(s, i + |lead| + |DocText(d)|, d.digits); }
    DocReads(s, i, lead, d, nesting);
  }

  /** Parsing the compact or the pretty form of a value with unique member names gives that
      value back, members in the same order, exactly when it is nested at most MAX_NESTING
      levels deep; otherwise parsing fails. */
  lemma RoundTrip(v: Json, pretty: bool)
    requires Unique(v)
    ensures Text(Print(v, 0, pretty)) == if DepthAtMost(v, MAX_NESTING) then Ok(v, |Print(v, 0, pretty)|) else Fail
  {
    hide Print;
    hide ValueAt;
    hide DocText;
    hide DocValue;
    hide Laid;
    var s := Print(v, 0, pretty);
    var d := Written(v, 0, pretty);
    NoMark(d);
    assert [] + s == s && s[0..0 + |s|] == s;
    Separators();
    NoBlanks();
    ValueParses(s, 0, [], v, 0, pretty, 0);
  }

  /** Two values with the same text, in either form, are the same value. */
  lemma PrintInjective(v: Json, w: Json, pretty: bool)
    requires Unique(v) && Unique(w) && DepthAtMost(v, MAX_NESTING) && Print(v, 0, pretty) == Print(w, 0, pretty)
    ensures v == w
  {
    RoundTrip(v, pretty);
    RoundTrip(w, pretty);
  }

  /** Whatever text parses, printing the value in either form and parsing again gives the
      same value. */
  lemma Reprint(s: seq<byte>, pretty: bool)
    requires Text(s).Ok?
    ensures var v := Text(s).value;
      Text(Print(v, 0, pretty)) == Ok(v, |Print(v, 0, pretty)|)
  {
    hide Print;
    hide ValueAt;
    ParsesSound(s, if Has(s, 0, [0xEF, 0xBB, 0xBF]) then 3 else 0, 0);
    RoundTrip(Text(s).value, pretty);
  }
}
