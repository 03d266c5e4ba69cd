/** skip_quotes, parse_utf16 and process_string as loops over a terminated buffer. Every
    access is within the string and its terminator. */
module JsonScanner {
  import opened Options
  import opened Bytes
  import opened JsonStrings
  import Utf8

  lemma Pointer(buf: array<byte>, n: nat, i: nat)
    requires Utf8.Terminated(buf, n) && i <= n
    ensures At(buf[..n], i) == buf[i] && (i < n <==> buf[i] != 0)
  {
  }

  method SkipQuotes(buf: array<byte>, ghost n: nat, start: nat) returns (r: Option<nat>)
    requires Utf8.Terminated(buf, n) && start <= n
    ensures r.Some? <==> buf[start] == QUOTE && Closing(buf[..n], start + 1).Some?
    ensures r.Some? ==> r.value == Closing(buf[..n], start + 1).value + 1
  {
    ghost var s := buf[..n];
    if buf[start] != QUOTE {
      return None;
    }
    var p := start + 1;
    while buf[p] != QUOTE
      invariant p <= n && Closing(s, p) == Closing(s, start + 1)
      decreases n - p
    {
      Pointer(buf, n, p);
      if buf[p] == 0 {
        return None;
      } else if buf[p] == BACKSLASH {
        p := p + 1;
        Pointer(buf, n, p);
        if buf[p] == 0 {
          return None;
        }
      }
      p := p + 1;
    }
    return Some(p + 1);
  }

  method ParseUtf16Hex(buf: array<byte>, ghost n: nat, i: nat) returns (r: Option<bv32>, ghost reach: nat)
    requires Utf8.Terminated(buf, n) && i <= n
    ensures r == Hex4(buf[..n], i) && reach == Hex4Reads(buf[..n], i) <= n
  {
    hide FourDigits;
    hide IsHex;
    NulIsNotHex();
    ghost var s := buf[..n];
    reach := i;
    Pointer(buf, n, i);
    if buf[i] == 0 {
      return None, reach;
    }
    reach := i + 1;
    Pointer(buf, n, i + 1);
    if buf[i + 1] == 0 {
      return None, reach;
    }
    reach := i + 2;
    Pointer(buf, n, i + 2);
    if buf[i + 2] == 0 {
      return None, reach;
    }
    reach := i + 3;
    Pointer(buf, n, i + 3);
    if buf[i + 3] == 0 {
      return None, reach;
    }
    if !IsHex(buf[i]) || !IsHex(buf[i + 1]) || !IsHex(buf[i + 2]) || !IsHex(buf[i + 3]) {
      return None, reach;
    }
    return Some(FourDigits(buf[i], buf[i + 1], buf[i + 2], buf[i + 3])), reach;
  }

  lemma NulIsNotHex()
    ensures !IsHex(0)
  {
  }

  /** The bytes of a character, written at o; returns the position after them. */
  method WriteCharacter(out: array<byte>, o: nat, cp: bv32) returns (o': nat)
    requires o + |Utf8.Encode(cp)| <= out.Length
    modifies out
    ensures o' == o + |Utf8.Encode(cp)|
    ensures out[..o'] == old(out[..o]) + Utf8.Encode(cp)
  {
    if cp < 0x80 {
      out[o] := cp as byte;
      o' := o + 1;
    } else if cp < 0x800 {
      out[o] := (((cp >> 6) & 0x1F) | 0xC0) as byte;
      out[o + 1] := ((cp & 0x3F) | 0x80) as byte;
      o' := o + 2;
    } else if cp < 0x10000 {
      out[o] := (((cp >> 12) & 0x0F) | 0xE0) as byte;
      out[o + 1] := (((cp >> 6) & 0x3F) | 0x80) as byte;
      out[o + 2] := ((cp & 0x3F) | 0x80) as byte;
      o' := o + 3;
    } else {
      out[o] := (((cp >> 18) & 0x07) | 0xF0) as byte;
      out[o + 1] := (((cp >> 12) & 0x3F) | 0x80) as byte;
      out[o + 2] := (((cp >> 6) & 0x3F) | 0x80) as byte;
      out[o + 3] := ((cp & 0x3F) | 0x80) as byte;
      o' := o + 4;
    }
  }

  /** The second half of a surrogate pair, expected at i. */
  method ParseTrail(buf: array<byte>, ghost n: nat, i: nat) returns (r: Option<bv32>, ghost reach: nat)
    requires Utf8.Terminated(buf, n) && i <= n
    ensures var s := buf[..n];
      r == if At(s, i) == BACKSLASH && At(s, i + 1) == LOWER_U then Hex4(s, i + 2) else None
    ensures var s := buf[..n];
      reach == (if At(s, i) != BACKSLASH then i else if At(s, i + 1) != LOWER_U then i + 1
        else Hex4Reads(s, i + 2)) <= n
  {
    hide Hex4;
    hide Hex4Reads;
    Pointer(buf, n, i);
    if buf[i] != BACKSLASH {
      return None, i;
    }
    Pointer(buf, n, i + 1);
    if buf[i + 1] != LOWER_U {
      return None, i + 1;
    }
    r, reach := ParseUtf16Hex(buf, n, i + 2);
  }

  /** parse_utf16 up to the point where it writes. */
  method ParseEscape(buf: array<byte>, ghost n: nat, i: nat) returns (esc: Escape, ghost reach: nat)
    requires Utf8.Terminated(buf, n) && i < n
    ensures esc == Utf16(buf[..n], i)
    ensures reach == Utf16Reads(buf[..n], i) <= n
  {
    hide Hex4;
    hide Hex4Reads;
    hide Combine;
    hide At;
    var cp: Option<bv32>, trail: Option<bv32>;
    cp, reach := ParseUtf16Hex(buf, n, i + 1);
    if cp.None? {
      return BadEscape, reach;
    }
    Hex4Bounds(buf[..n], i + 1);
    if cp.value < 0xD800 || cp.value > 0xDFFF {
      return Escape(cp.value, i + 5), reach;
    } else if 0xD800 <= cp.value <= 0xDBFF {
      trail, reach := ParseTrail(buf, n, i + 5);
      if trail.None? || trail.value < 0xDC00 || trail.value > 0xDFFF {
        return BadEscape, reach;
      }
      return Escape(Combine(cp.value, trail.value), i + 11), reach;
    } else {
      return BadEscape, reach;
    }
  }

  method ParseUtf16(buf: array<byte>, ghost n: nat, i: nat, out: array<byte>, o: nat)
    returns (esc: Escape, o': nat, ghost reach: nat)
    requires Utf8.Terminated(buf, n) && i < n && out != buf
    requires o <= out.Length
    requires Utf16(buf[..n], i).Escape? ==> o + |Utf8.Encode(Utf16(buf[..n], i).codePoint)| <= out.Length
    modifies out
    ensures esc == Utf16(buf[..n], i)
    ensures esc.Escape? ==>
      o' == o + |Utf8.Encode(esc.codePoint)| && out[..o'] == old(out[..o]) + Utf8.Encode(esc.codePoint)
    ensures reach == Utf16Reads(buf[..n], i) <= n
  {
    hide Utf8.Encode;
    hide Utf16;
    hide Utf16Reads;
    esc, reach := ParseEscape(buf, n, i);
    o' := o;
    if esc.Escape? {
      o' := WriteCharacter(out, o, esc.codePoint);
    }
  }

  lemma Hex4Bounds(s: seq<byte>, i: nat)
    requires Hex4(s, i).Some?
    ensures i + 4 <= |s| && Hex4Reads(s, i) == i + 3
  {
  }

  /** One turn of the loop of process_string: appends to out what stands at p. */
  method ProcessNext(buf: array<byte>, ghost n: nat, p: nat, out: array<byte>, o: nat)
    returns (ok: bool, p': nat, o': nat, ghost reach: nat)
    requires Utf8.Terminated(buf, n) && p < n && out != buf && o < out.Length
    requires NextPiece(buf[..n], p).Piece? ==> o + |NextPiece(buf[..n], p).bytes| <= out.Length
    modifies out
    ensures ok <==> NextPiece(buf[..n], p).Piece?
    ensures ok ==> var piece := NextPiece(buf[..n], p);
      p' == piece.next && o' == o + |piece.bytes| && out[..o'] == old(out[..o]) + piece.bytes
    ensures !ok ==> var s := buf[..n];
      reach == if At(s, p) != BACKSLASH then p else if At(s, p + 1) == LOWER_U then Utf16Reads(s, p + 1) else p + 1
  {
    hide Utf8.Encode;
    hide Utf16;
    hide Utf16Reads;
    Pointer(buf, n, p);
    Pointer(buf, n, p + 1);
    ok, p', o', reach := false, p, o, p;
    if buf[p] == BACKSLASH {
      reach := p + 1;
      if buf[p + 1] == LOWER_U {
        var esc: Escape;
        esc, o', reach := ParseUtf16(buf, n, p + 1, out, o);
        if esc.Escape? {
          ok, p' := true, esc.next;
        }
      } else {
        var plain := Plain(buf[p + 1]);
        if plain.Some? {
          out[o] := plain.value;
          ok, p', o' := true, p + 2, o + 1;
        }
      }
    } else if buf[p] < 0x20 {
    } else {
      out[o] := buf[p];
      ok, p', o' := true, p + 1, o + 1;
    }
  }

  /** With room for as many bytes as the string is long, and the terminator. */
  method ProcessString(buf: array<byte>, ghost n: nat, start: nat, len: nat) returns (r: Processed, ghost reach: nat)
    requires Utf8.Terminated(buf, n) && Closing(buf[..n], start) == Some(start + len)
    ensures r == Process(buf[..n], start, start + len, [])
    ensures reach == Reads(buf[..n], start, start + len)
  {
    hide Closing;
    hide NextPiece;
    ghost var s, e := buf[..n], start + len;
    var output := new byte[len + 1];
    var p, o, ok := start, 0, true;
    ClosingBounds(s, start);
    while buf[p] != 0 && p - start < len
      invariant start <= p <= e < n && 0 <= o <= p - start
      invariant Closing(s, p) == Some(e) && buf[..n] == s
      invariant Process(s, start, e, []) == Process(s, p, e, output[..o])
      invariant Reads(s, start, e) == Reads(s, p, e)
      decreases e - p
    {
      Pointer(buf, n, p);
      if NextPiece(s, p).Piece? {
        PieceKeepsClosing(s, p);
        ClosingBounds(s, NextPiece(s, p).next);
      }
      ok, p, o, reach := ProcessNext(buf, n, p, output, o);
      if !ok {
        return Rejected, reach;
      }
    }
    Pointer(buf, n, p);
    ghost var done := output[..o];
    assert Process(s, start, e, []) == Processed(done, p);
    output[o] := 0;
    var resized := new byte[o + 1];
    forall i | 0 <= i <= o {
      resized[i] := output[i];
    }
    assert resized[..o] == done;
    assert buf[..n] == s;
    return Processed(resized[..o], p), p;
  }

  /** get_quoted_string: the processed bytes and the position after the closing quote. */
  function Quoted(s: seq<byte>, i: nat): (r: Option<(seq<byte>, nat)>)
    ensures r.Some? ==> i + 2 <= r.value.1 <= |s|
  {
    if At(s, i) != QUOTE || Closing(s, i + 1).None? then None
    else match Process(s, i + 1, Closing(s, i + 1).value, [])
      case Rejected => None
      case Processed(bytes, _) => Some((bytes, Closing(s, i + 1).value + 1))
  }

  method GetQuotedString(buf: array<byte>, ghost n: nat, start: nat) returns (r: Option<(seq<byte>, nat)>)
    requires Utf8.Terminated(buf, n) && start <= n
    ensures r == Quoted(buf[..n], start)
  {
    hide Process;
    hide Closing;
    Pointer(buf, n, start);
    var end := SkipQuotes(buf, n, start);
    if end.None? {
      return None;
    }
    ClosingBounds(buf[..n], start + 1);
    var processed, _ := ProcessString(buf, n, start + 1, end.value - start - 2);
    if processed.Rejected? {
      return None;
    }
    return Some((processed.bytes, end.value));
  }
}
