/** The serializer as it runs: once with no buffer to measure, once into a buffer. */
module JsonWriter {
  import opened Bytes
  import opened JsonValue
  import opened JsonStrings
  import opened JsonPrint

  /** There is no buffer, or it has room for n bytes and a terminator at pos. */
  predicate Room(buf: array?<byte>, pos: nat, n: nat) {
    buf == null || pos + n < buf.Length
  }

  /** text stands at pos; nothing else has changed, except perhaps the byte after it. */
  predicate Filled(now: seq<byte>, before: seq<byte>, pos: nat, text: seq<byte>) {
    && |now| == |before| && pos + |text| < |before|
    && now[..pos] == before[..pos]
    && now[pos..pos + |text|] == text
    && now[pos + |text| + 1..] == before[pos + |text| + 1..]
  }

  lemma FilledNothing(before: seq<byte>, pos: nat)
    requires pos < |before|
    ensures Filled(before, before, pos, [])
  {
  }

  lemma FilledTwice(a: seq<byte>, b: seq<byte>, c: seq<byte>, pos: nat, x: seq<byte>, y: seq<byte>)
    requires Filled(b, a, pos, x) && Filled(c, b, pos + |x|, y)
    ensures Filled(c, a, pos, x + y)
  {
    var p, q := pos + |x|, pos + |x| + |y|;
    assert c[..pos] == c[..p][..pos] == b[..p][..pos] == b[..pos];
    assert c[pos..p] == c[..p][pos..] == b[..p][pos..] == b[pos..p];
    assert c[pos..q] == c[pos..p] + c[p..q];
    assert b[q + 1..] == b[p + 1..][|y|..] == a[p + 1..][|y|..] == a[q + 1..];
  }

  /** append_string: strlen, or a copy with its terminator. */
  method AppendString(buf: array?<byte>, pos: nat, text: seq<byte>) returns (written: nat)
    requires Room(buf, pos, |text|)
    modifies buf
    ensures written == |text|
    ensures buf != null ==> Filled(buf[..], old(buf[..]), pos, text) && buf[pos + |text|] == 0
  {
    if buf == null {
      return |text|;
    }
    forall k | 0 <= k < |text| {
      buf[pos + k] := text[k];
    }
    buf[pos + |text|] := 0;
    return |text|;
  }

  ghost function Contents(buf: array?<byte>): seq<byte>
    reads buf
  {
    if buf == null then [] else buf[..]
  }

  /** total bytes have been accounted for, and written if there is a buffer. */
  ghost predicate Done(buf: array?<byte>, before: seq<byte>, pos: nat, total: int, text: seq<byte>)
    reads buf
  {
    total == |text| && (buf != null ==> Filled(buf[..], before, pos, text))
  }

  ghost predicate Ended(buf: array?<byte>, pos: nat, total: int)
    reads buf
  {
    buf != null ==> 0 <= pos + total < buf.Length && buf[pos + total] == 0
  }

  lemma DoneMore(buf: array?<byte>, before: seq<byte>, mid: seq<byte>, pos: nat, x: seq<byte>, y: seq<byte>, more: int)
    requires buf != null ==> Filled(mid, before, pos, x)
    requires Done(buf, mid, pos + |x|, more, y)
    ensures Done(buf, before, pos, |x| + more, x + y)
  {
    if buf != null { FilledTwice(before, mid, buf[..], pos, x, y); }
  }

  /** APPEND_STRING: text goes after what has been done so far. */
  method Append(buf: array?<byte>, pos: nat, total: nat, text: seq<byte>, ghost before: seq<byte>,
      ghost done: seq<byte>)
    returns (total': nat)
    requires Done(buf, before, pos, total, done) && Room(buf, pos, total + |text|)
    modifies buf
    ensures Done(buf, before, pos, total', done + text) && Ended(buf, pos, total')
  {
    hide Filled;
    ghost var mid := Contents(buf);
    var written := AppendString(buf, pos + total, text);
    DoneMore(buf, before, mid, pos, done, text, written);
    total' := total + written;
  }

  /** APPEND_INDENT. */
  method AppendIndent(buf: array?<byte>, pos: nat, total: nat, level: nat, ghost before: seq<byte>,
      ghost done: seq<byte>)
    returns (total': nat)
    requires Done(buf, before, pos, total, done) && Room(buf, pos, total + |Indent(level)|)
    modifies buf
    ensures Done(buf, before, pos, total', done + Indent(level))
  {
    hide Filled;
    total' := total;
    assert done + Indent(0) == done;
    for i := 0 to level
      invariant Done(buf, before, pos, total', done + Indent(i))
    {
      IndentGrows(i + 1, level);
      total' := Append(buf, pos, total', [SPACE, SPACE, SPACE, SPACE], before, done + Indent(i));
      assert (done + Indent(i)) + [SPACE, SPACE, SPACE, SPACE] == done + Indent(i + 1);
    }
  }

  lemma {:induction false} IndentGrows(i: nat, level: nat)
    requires i <= level
    ensures |Indent(i)| <= |Indent(level)|
  {
    if i < level { IndentGrows(i, level - 1); }
  }

  /** The default branch of json_serialize_string stores a byte without a terminator. */
  method StoreByte(buf: array?<byte>, pos: nat, total: nat, c: byte, ghost before: seq<byte>, ghost done: seq<byte>)
    returns (total': nat)
    requires Done(buf, before, pos, total, done) && Room(buf, pos, total + 1)
    modifies buf
    ensures Done(buf, before, pos, total', done + [c])
  {
    ghost var mid := Contents(buf);
    if buf != null {
      buf[pos + total] := c;
      assert buf[..][pos + total..pos + total + 1] == [c];
      assert Filled(buf[..], mid, pos + total, [c]);
    }
    DoneMore(buf, before, mid, pos, done, [c], 1);
    total' := total + 1;
  }

  method SerializeString(str: CString, buf: array?<byte>, pos: nat) returns (written: nat)
    requires Room(buf, pos, |Quote(str)|)
    modifies buf
    ensures Done(buf, old(Contents(buf)), pos, written, Quote(str)) && Ended(buf, pos, written)
  {
    hide Filled;
    hide EscapeByte;
    ghost var before := Contents(buf);
    if buf != null { FilledNothing(before, pos); }
    written := Append(buf, pos, 0, [QUOTE], before, []);
    ghost var done := [QUOTE];
    assert [] + [QUOTE] == done;
    for i := 0 to |str|
      invariant done == [QUOTE] + EscapeTo(str, i)
      invariant Done(buf, before, pos, written, done)
    {
      EscapeGrows(str, i + 1, |str|);
      if EscapeByte(str[i]) == [str[i]] {
        written := StoreByte(buf, pos, written, str[i], before, done);
      } else {
        written := Append(buf, pos, written, EscapeByte(str[i]), before, done);
      }
      assert done + EscapeByte(str[i]) == [QUOTE] + EscapeTo(str, i + 1);
      done := done + EscapeByte(str[i]);
    }
    written := Append(buf, pos, written, [QUOTE], before, done);
  }

  // ----- values -----

  lemma {:induction false} ItemsGrow(v: Json, i: nat, n: nat, level: nat, pretty: bool)
    requires v.Array? && i <= n <= |v.items|
    ensures |ItemsTo(v, i, level, pretty)| <= |ItemsTo(v, n, level, pretty)|
    decreases n
  {
    hide Item;
    if i < n { ItemsGrow(v, i, n - 1, level, pretty); }
  }

  lemma {:induction false} MembersGrow(v: Json, i: nat, n: nat, level: nat, pretty: bool)
    requires v.Object? && i <= n <= |v.members|
    ensures |MembersTo(v, i, level, pretty)| <= |MembersTo(v, n, level, pretty)|
    decreases n
  {
    hide Pair;
    if i < n { MembersGrow(v, i, n - 1, level, pretty); }
  }

  method AppendIf(b: bool, buf: array?<byte>, pos: nat, total: nat, text: seq<byte>, ghost before: seq<byte>,
      ghost done: seq<byte>)
    returns (total': nat)
    requires Done(buf, before, pos, total, done) && Room(buf, pos, total + |When(b, text)|)
    modifies buf
    ensures Done(buf, before, pos, total', done + When(b, text))
  {
    total' := total;
    if b {
      total' := Append(buf, pos, total, text, before, done);
    } else {
      assert done + [] == done;
    }
  }

  method AppendIndentIf(b: bool, buf: array?<byte>, pos: nat, total: nat, level: nat, ghost before: seq<byte>,
      ghost done: seq<byte>)
    returns (total': nat)
    requires Done(buf, before, pos, total, done) && Room(buf, pos, total + |When(b, Indent(level))|)
    modifies buf
    ensures Done(buf, before, pos, total', done + When(b, Indent(level)))
  {
    total' := total;
    if b {
      total' := AppendIndent(buf, pos, total, level, before, done);
    } else {
      assert done + [] == done;
    }
  }

  /** The separators after element i of count. */
  method AppendAfter(buf: array?<byte>, pos: nat, total: nat, i: nat, count: nat, pretty: bool, ghost before: seq<byte>,
      ghost done: seq<byte>)
    returns (total': nat)
    requires Done(buf, before, pos, total, done) && Room(buf, pos, total + |After(i, count, pretty)|)
    modifies buf
    ensures Done(buf, before, pos, total', done + After(i, count, pretty))
  {
    hide Done;
    DoneTotal(buf, before, pos, total, done);
    total' := AppendIf(i + 1 < count, buf, pos, total, [COMMA], before, done);
    ghost var more := done + When(i + 1 < count, [COMMA]);
    DoneTotal(buf, before, pos, total', more);
    total' := AppendIf(pretty, buf, pos, total', [NEWLINE], before, more);
    assert more + When(pretty, [NEWLINE]) == done + After(i, count, pretty);
  }

  lemma DoneTotal(buf: array?<byte>, before: seq<byte>, pos: nat, total: int, done: seq<byte>)
    requires Done(buf, before, pos, total, done)
    ensures total == |done|
  {
  }

  /** A nested value after what has been done so far. */
  method AppendValue(v: Json, buf: array?<byte>, pos: nat, total: nat, level: nat, pretty: bool,
      ghost before: seq<byte>, ghost done: seq<byte>)
    returns (total': nat)
    requires Done(buf, before, pos, total, done) && Room(buf, pos, total + |Print(v, level, pretty)|)
    modifies buf
    ensures Done(buf, before, pos, total', done + Print(v, level, pretty))
    decreases v, 3, 0
  {
    hide Filled;
    hide Print;
    ghost var mid := Contents(buf);
    var written := SerializeValue(v, buf, pos + total, level, pretty);
    DoneMore(buf, before, mid, pos, done, Print(v, level, pretty), written);
    total' := total + written;
  }

  method AppendItem(v: Json, i: nat, buf: array?<byte>, pos: nat, total: nat, level: nat, pretty: bool,
      ghost before: seq<byte>, ghost done: seq<byte>)
    returns (total': nat)
    requires v.Array? && i < |v.items|
    requires Done(buf, before, pos, total, done) && Room(buf, pos, total + |Item(v, i, level, pretty)|)
    modifies buf
    ensures Done(buf, before, pos, total', done + Item(v, i, level, pretty))
    decreases v, 0, 0
  {
    hide Done;
    hide Print;
    hide After;
    hide Indent;
    var pad, text, sep := When(pretty, Indent(level + 1)), Print(v.items[i], level + 1, pretty),
      After(i, |v.items|, pretty);
    DoneTotal(buf, before, pos, total, done);
    total' := AppendIndentIf(pretty, buf, pos, total, level + 1, before, done);
    DoneTotal(buf, before, pos, total', done + pad);
    total' := AppendValue(v.items[i], buf, pos, total', level + 1, pretty, before, done + pad);
    DoneTotal(buf, before, pos, total', done + pad + text);
    total' := AppendAfter(buf, pos, total', i, |v.items|, pretty, before, done + pad + text);
    assert done + pad + text + sep == done + Item(v, i, level, pretty);
  }

  /** Serializes v at pos, or only measures it when there is no buffer. Either way the count
      returned is the length of what v prints as. */
  method SerializeValue(v: Json, buf: array?<byte>, pos: nat, level: nat, pretty: bool) returns (written: nat)
    requires Room(buf, pos, |Print(v, level, pretty)|)
    modifies buf
    ensures Done(buf, old(Contents(buf)), pos, written, Print(v, level, pretty)) && Ended(buf, pos, written)
    decreases v, 2, 0
  {
    match v
    case Array(_) => written := SerializeArray(v, buf, pos, level, pretty);
    case Object(_) => written := SerializeObject(v, buf, pos, level, pretty);
    case String(s) => written := SerializeString(s, buf, pos);
    case Bool(b) => written := AppendString(buf, pos, if b then TRUE_TOKEN else FALSE_TOKEN);
    case Number(n) => written := AppendString(buf, pos, Decimal(n));
    case Null => written := AppendString(buf, pos, NULL_TOKEN);
  }

  method SerializeArray(v: Json, buf: array?<byte>, pos: nat, level: nat, pretty: bool) returns (written: nat)
    requires v.Array? && Room(buf, pos, |Print(v, level, pretty)|)
    modifies buf
    ensures Done(buf, old(Contents(buf)), pos, written, Print(v, level, pretty)) && Ended(buf, pos, written)
    decreases v, 1, 0
  {
    hide Done;
    hide Item;
    hide Indent;
    hide ItemsTo;
    var count := |v.items|;
    var some := count > 0 && pretty;
    ghost var before := Contents(buf);
    ghost var open := [LBRACKET] + When(some, [NEWLINE]);
    ghost var body := ItemsTo(v, count, level, pretty);
    assert Print(v, level, pretty) == open + body + When(some, Indent(level)) + [RBRACKET];
    NothingDone(buf, pos);
    written := Append(buf, pos, 0, [LBRACKET], before, []);
    assert [] + [LBRACKET] == [LBRACKET];
    DoneTotal(buf, before, pos, written, [LBRACKET]);
    written := AppendIf(some, buf, pos, written, [NEWLINE], before, [LBRACKET]);
    NoItems(v, level, pretty);
    assert open + [] == open;
    for i := 0 to count
      invariant Done(buf, before, pos, written, open + ItemsTo(v, i, level, pretty))
    {
      ItemsNext(v, i, level, pretty);
      DoneTotal(buf, before, pos, written, open + ItemsTo(v, i, level, pretty));
      written := AppendItem(v, i, buf, pos, written, level, pretty, before, open + ItemsTo(v, i, level, pretty));
      assert open + ItemsTo(v, i, level, pretty) + Item(v, i, level, pretty) == open + ItemsTo(v, i + 1, level, pretty);
    }
    DoneTotal(buf, before, pos, written, open + body);
    written := AppendIndentIf(some, buf, pos, written, level, before, open + body);
    DoneTotal(buf, before, pos, written, open + body + When(some, Indent(level)));
    written := Append(buf, pos, written, [RBRACKET], before, open + body + When(some, Indent(level)));
  }

  lemma NothingDone(buf: array?<byte>, pos: nat)
    requires Room(buf, pos, 0)
    ensures Done(buf, Contents(buf), pos, 0, [])
  {
    if buf != null { FilledNothing(buf[..], pos); }
  }

  lemma NoItems(v: Json, level: nat, pretty: bool)
    requires v.Array?
    ensures ItemsTo(v, 0, level, pretty) == []
  {
  }

  lemma ItemsNext(v: Json, i: nat, level: nat, pretty: bool)
    requires v.Array? && i < |v.items|
    ensures ItemsTo(v, i + 1, level, pretty) == ItemsTo(v, i, level, pretty) + Item(v, i, level, pretty)
    ensures |ItemsTo(v, i + 1, level, pretty)| <= |ItemsTo(v, |v.items|, level, pretty)|
  {
    ItemsGrow(v, i + 1, |v.items|, level, pretty);
  }

  method AppendPair(v: Json, i: nat, buf: array?<byte>, pos: nat, total: nat, level: nat, pretty: bool,
      ghost before: seq<byte>, ghost done: seq<byte>)
    returns (total': nat)
    requires v.Object? && i < |v.members|
    requires Done(buf, before, pos, total, done) && Room(buf, pos, total + |Pair(v, i, level, pretty)|)
    modifies buf
    ensures Done(buf, before, pos, total', done + Pair(v, i, level, pretty))
    decreases v, 0, 0
  {
    hide Done;
    hide Print;
    hide After;
    hide Indent;
    hide Quote;
    var pad, key, gap := When(pretty, Indent(level + 1)), Quote(v.members[i].name), When(pretty, [SPACE]);
    var text, sep := Print(Named(v, i), level + 1, pretty), After(i, |v.members|, pretty);
    DoneTotal(buf, before, pos, total, done);
    total' := AppendIndentIf(pretty, buf, pos, total, level + 1, before, done);
    DoneTotal(buf, before, pos, total', done + pad);
    total' := AppendKey(v.members[i].name, buf, pos, total', before, done + pad);
    DoneTotal(buf, before, pos, total', done + pad + key);
    total' := Append(buf, pos, total', [COLON], before, done + pad + key);
    DoneTotal(buf, before, pos, total', done + pad + key + [COLON]);
    total' := AppendIf(pretty, buf, pos, total', [SPACE], before, done + pad + key + [COLON]);
    DoneTotal(buf, before, pos, total', done + pad + key + [COLON] + gap);
    total' := AppendValue(Named(v, i), buf, pos, total', level + 1, pretty, before, done + pad + key + [COLON] + gap);
    DoneTotal(buf, before, pos, total', done + pad + key + [COLON] + gap + text);
    total' := AppendAfter(buf, pos, total', i, |v.members|, pretty, before, done + pad + key + [COLON] + gap + text);
    assert done + pad + key + [COLON] + gap + text + sep == done + Pair(v, i, level, pretty);
  }

  method AppendKey(key: CString, buf: array?<byte>, pos: nat, total: nat, ghost before: seq<byte>,
      ghost done: seq<byte>)
    returns (total': nat)
    requires Done(buf, before, pos, total, done) && Room(buf, pos, total + |Quote(key)|)
    modifies buf
    ensures Done(buf, before, pos, total', done + Quote(key))
  {
    hide Filled;
    hide Quote;
    ghost var mid := Contents(buf);
    var written := SerializeString(key, buf, pos + total);
    DoneMore(buf, before, mid, pos, done, Quote(key), written);
    total' := total + written;
  }

  method SerializeObject(v: Json, buf: array?<byte>, pos: nat, level: nat, pretty: bool) returns (written: nat)
    requires v.Object? && Room(buf, pos, |Print(v, level, pretty)|)
    modifies buf
    ensures Done(buf, old(Contents(buf)), pos, written, Print(v, level, pretty)) && Ended(buf, pos, written)
    decreases v, 1, 0
  {
    hide Done;
    hide Pair;
    hide Indent;
    hide MembersTo;
    var count := |v.members|;
    var some := count > 0 && pretty;
    ghost var before := Contents(buf);
    ghost var open := [LBRACE] + When(some, [NEWLINE]);
    ghost var body := MembersTo(v, count, level, pretty);
    assert Print(v, level, pretty) == open + body + When(some, Indent(level)) + [RBRACE];
    NothingDone(buf, pos);
    written := Append(buf, pos, 0, [LBRACE], before, []);
    assert [] + [LBRACE] == [LBRACE];
    DoneTotal(buf, before, pos, written, [LBRACE]);
    written := AppendIf(some, buf, pos, written, [NEWLINE], before, [LBRACE]);
    NoMembers(v, level, pretty);
    assert open + [] == open;
    for i := 0 to count
      invariant Done(buf, before, pos, written, open + MembersTo(v, i, level, pretty))
    {
      MembersNext(v, i, level, pretty);
      DoneTotal(buf, before, pos, written, open + MembersTo(v, i, level, pretty));
      written := AppendPair(v, i, buf, pos, written, level, pretty, before, open + MembersTo(v, i, level, pretty));
      assert open + MembersTo(v, i, level, pretty) + Pair(v, i, level, pretty) ==
        open + MembersTo(v, i + 1, level, pretty);
    }
    DoneTotal(buf, before, pos, written, open + body);
    written := AppendIndentIf(some, buf, pos, written, level, before, open + body);
    DoneTotal(buf, before, pos, written, open + body + When(some, Indent(level)));
    written := Append(buf, pos, written, [RBRACE], before, open + body + When(some, Indent(level)));
  }

  lemma NoMembers(v: Json, level: nat, pretty: bool)
    requires v.Object?
    ensures MembersTo(v, 0, level, pretty) == []
  {
  }

  lemma MembersNext(v: Json, i: nat, level: nat, pretty: bool)
    requires v.Object? && i < |v.members|
    ensures MembersTo(v, i + 1, level, pretty) == MembersTo(v, i, level, pretty) + Pair(v, i, level, pretty)
    ensures |MembersTo(v, i + 1, level, pretty)| <= |MembersTo(v, |v.members|, level, pretty)|
  {
    MembersGrow(v, i + 1, |v.members|, level, pretty);
  }

  // ----- the two passes -----

  /** json_serialization_size: the measuring pass, and one for the terminator. */
  method SerializationSize(v: Json, pretty: bool) returns (size: nat)
    ensures size == |Print(v, 0, pretty)| + 1
  {
    hide Print;
    var written := SerializeValue(v, null, 0, 0, pretty);
    size := written + 1;
  }

  /** json_serialize_to_buffer: fails exactly when the buffer is smaller than the measured
      size, and then writes nothing; otherwise the text and its terminator are there and no
      byte after them has been touched. */
  method SerializeToBuffer(v: Json, buf: array<byte>, size: nat, pretty: bool) returns (ok: bool)
    requires size <= buf.Length
    modifies buf
    ensures ok <==> |Print(v, 0, pretty)| < size
    ensures !ok ==> buf[..] == old(buf[..])
    ensures ok ==> var text := Print(v, 0, pretty);
      buf[..|text|] == text && buf[|text|] == 0 && buf[|text| + 1..] == old(buf[|text| + 1..])
  {
    hide Print;
    var needed := SerializationSize(v, pretty);
    if size < needed {
      return false;
    }
    var written := SerializeValue(v, buf, 0, 0, pretty);
    assert buf[..written] == buf[..][0..written];
    assert buf[written + 1..] == buf[..][written + 1..];
    assert old(buf[written + 1..]) == old(buf[..])[written + 1..];
    return true;
  }

  /** json_serialize_to_string: a buffer of exactly the measured size, filled to its end. */
  method SerializeToString(v: Json, pretty: bool) returns (buf: array<byte>)
    ensures fresh(buf) && buf[..] == Print(v, 0, pretty) + [0]
  {
    hide Print;
    var size := SerializationSize(v, pretty);
    buf := new byte[size];
    var ok := SerializeToBuffer(v, buf, size, pretty);
    assert buf[..] == buf[..size - 1] + [buf[size - 1]];
  }
}
