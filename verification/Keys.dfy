/** Composite keys: the chaincode enclave writes them with ".", Fabric with NUL.
    utils/utils.go translates between the two forms, the ledger enclave with its own scan
    over C strings. */
module Keys {
  import opened Options
  import opened Lex

  const SEP := '.'
  const NUL := '\0'

  predicate Free(s: string, c: char) {
    c !in s
  }

  predicate AllFree(comps: seq<string>, c: char) {
    forall i | 0 <= i < |comps| :: Free(comps[i], c)
  }

  predicate AllNonEmpty(comps: seq<string>) {
    forall i | 0 <= i < |comps| :: comps[i] != ""
  }

  /** Every component followed by the mark. */
  function Marked(comps: seq<string>, mark: char): string {
    if comps == [] then "" else comps[0] + [mark] + Marked(comps[1..], mark)
  }

  // ----- utils/utils.go -----

  predicate IsSgxCompositeKey(key: string) {
    key != "" && key[0] == SEP && key[|key| - 1] == SEP
  }

  /** strings.Split by SEP. */
  function Split(s: string): (r: seq<string>)
    ensures r != []
  {
    if s == "" then [""]
    else if s[0] == SEP then [""] + Split(s[1..])
    else var r := Split(s[1..]); [[s[0]] + r[0]] + r[1..]
  }

  /** None is the panic for a key without the separators. */
  function SplitSgxCompositeKey(key: string): Option<seq<string>> {
    if !IsSgxCompositeKey(key) then None
    else
      var comp := Split(key);
      if |comp| < 2 then None else Some(comp[1..|comp| - 1])
  }

  /** Fabric refuses a component that holds NUL; the caller drops the error and goes on
      with the empty key. */
  function CreateCompositeKey(comps: seq<string>): string {
    if AllFree(comps, NUL) then [NUL] + Marked(comps, NUL) else ""
  }

  /** None is a panic: no separators, or no component to use as object type. */
  function TransformToCompositeKey(key: string): Option<string> {
    var comp := SplitSgxCompositeKey(key);
    if comp.None? || comp.value == [] then None else Some(CreateCompositeKey(comp.value))
  }

  function TransformToSgx(key: string): (r: string) {
    if key == "" then "" else [if key[0] == NUL then SEP else key[0]] + TransformToSgx(key[1..])
  }

  /** get_state and put_state of the peer stub (ecc/enclave/enclave_stub.go): a delimited key
      becomes a composite key. */
  function FabricKey(key: string): string {
    if IsSgxCompositeKey(key) && TransformToCompositeKey(key).Some? then TransformToCompositeKey(key).value else key
  }

  /** get_state_by_partial_composite_key of the peer stub: Fabric's range, with the keys
      translated back. */
  function RangeQuery<V>(w: map<string, V>, prefix: string): map<string, V> {
    map k | k in RangeKeys(w, prefix) :: var f := FabricOf(w, prefix, k); w[f]
  }

  function RangeKeys<V>(w: map<string, V>, prefix: string): set<string> {
    set f | f in w && HasPrefix(f, FabricKey(prefix)) :: TransformToSgx(f)
  }

  /** The Fabric key behind a translated one. */
  function FabricOf<V>(w: map<string, V>, prefix: string, k: string): (f: string)
    requires k in RangeKeys(w, prefix)
    ensures f in w && HasPrefix(f, FabricKey(prefix)) && TransformToSgx(f) == k
  {
    var candidates := set f | f in w && HasPrefix(f, FabricKey(prefix)) && TransformToSgx(f) == k;
    assert candidates != {} by {
      var f :| f in w && HasPrefix(f, FabricKey(prefix)) && TransformToSgx(f) == k;
      assert f in candidates;
    }
    Least(candidates)
  }

  // ----- C strings in the ledger enclave -----

  /** What a char pointer to the bytes of s denotes. */
  function CString(s: string): (r: string)
    ensures |r| <= |s| && r == s[..|r|]
    ensures Free(r, NUL)
  {
    if s == "" || s[0] == NUL then "" else [s[0]] + CString(s[1..])
  }

  /** The while loop of ledger.cpp that appends C strings up to an empty one. */
  function ScanComponents(s: string): string
    decreases |s|
  {
    var c := CString(s);
    if c == "" then ""
    else if |c| == |s| then c + [SEP]
    else c + [SEP] + ScanComponents(s[|c| + 1..])
  }

  /** The ledger's form of a composite key: the first byte dropped, every component
      followed by ".". */
  function ScanKey(key: string): string {
    if key == "" then "" else ScanComponents(key[1..])
  }

  // ----- lemmas -----

  lemma {:induction false} MarkedAppend(a: seq<string>, b: seq<string>, mark: char)
    ensures Marked(a + b, mark) == Marked(a, mark) + Marked(b, mark)
  {
    if a == [] {
      assert a + b == b;
    } else {
      assert (a + b)[1..] == a[1..] + b;
      MarkedAppend(a[1..], b, mark);
    }
  }

  lemma {:induction false} SplitRejoins(s: string)
    ensures Marked(Split(s), SEP) == s + [SEP]
  {
    if s != "" {
      SplitRejoins(s[1..]);
      var r := Split(s[1..]);
      assert s + [SEP] == [s[0]] + (s[1..] + [SEP]);
      if s[0] != SEP {
        MarkedGrow(s[0], r);
      } else {
        assert ([""] + r)[1..] == r;
      }
    }
  }

  lemma MarkedGrow(c: char, r: seq<string>)
    requires r != []
    ensures Marked([[c] + r[0]] + r[1..], SEP) == [c] + Marked(r, SEP)
  {
    assert ([[c] + r[0]] + r[1..])[1..] == r[1..];
  }

  lemma {:induction false} SplitIsFree(s: string)
    ensures AllFree(Split(s), SEP)
  {
    if s != "" {
      SplitIsFree(s[1..]);
      var r := Split(s[1..]);
      assert forall i | 1 <= i < |r| :: r[1..][i - 1] == r[i];
    }
  }

  lemma SplitOfDelimited(key: string)
    requires IsSgxCompositeKey(key) && |key| >= 2
    ensures SplitSgxCompositeKey(key).Some?
    ensures var c := SplitSgxCompositeKey(key).value;
            c != [] && AllFree(c, SEP) && [SEP] + Marked(c, SEP) == key
  {
    SplitRejoins(key);
    var s := Split(key);
    assert s[0] == "" && s == [""] + Split(key[1..]);
    SplitRejoins(key[1..]);
    SplitIsFree(key[1..]);
    var body := Split(key[1..]);
    LastOfSplit(key[1..]);
    assert |body| >= 2;
    assert SplitSgxCompositeKey(key).value == body[..|body| - 1];
    var c := body[..|body| - 1];
    assert body == c + [""];
    MarkedAppend(c, [""], SEP);
    assert Marked([""], SEP) == [SEP];
    assert Marked(body, SEP) == Marked(c, SEP) + [SEP] == key[1..] + [SEP];
    assert Marked(c, SEP) == (Marked(c, SEP) + [SEP])[..|Marked(c, SEP)|] == key[1..];
  }

  lemma {:induction false} LastOfSplit(s: string)
    requires s != "" && s[|s| - 1] == SEP
    ensures |Split(s)| >= 2 && Split(s)[|Split(s)| - 1] == ""
  {
    if |s| > 1 {
      LastOfSplit(s[1..]);
    } else {
      assert s == [SEP] && Split(s[1..]) == [""];
    }
  }

  lemma {:induction false} SgxOfMarked(comps: seq<string>)
    requires AllFree(comps, NUL)
    ensures TransformToSgx(Marked(comps, NUL)) == Marked(comps, SEP)
  {
    if comps != [] {
      SgxAppend(comps[0] + [NUL], Marked(comps[1..], NUL));
      SgxAppend(comps[0], [NUL]);
      SgxOfNulFree(comps[0]);
      assert [NUL][1..] == "";
      SgxOfMarked(comps[1..]);
    }
  }

  lemma {:induction false} SgxAppend(a: string, b: string)
    ensures TransformToSgx(a + b) == TransformToSgx(a) + TransformToSgx(b)
  {
    if a == "" {
      assert a + b == b;
    } else {
      assert (a + b)[1..] == a[1..] + b;
      SgxAppend(a[1..], b);
    }
  }

  lemma {:induction false} SgxOfNulFree(s: string)
    requires Free(s, NUL)
    ensures TransformToSgx(s) == s
  {
    if s != "" { SgxOfNulFree(s[1..]); }
  }

  lemma {:induction false} MarkedFree(comps: seq<string>, c: char)
    requires c != SEP
    ensures Free(Marked(comps, SEP), c) <==> AllFree(comps, c)
  {
    if comps != [] {
      MarkedFree(comps[1..], c);
      assert forall i | 1 <= i < |comps| :: comps[1..][i - 1] == comps[i];
      assert forall i | 0 <= i < |comps| - 1 :: comps[1..][i] == comps[i + 1];
    }
  }

  /** Splitting a delimited key, building the Fabric key and translating back restores the
      key exactly when it holds no NUL. */
  lemma RestoreExact(key: string)
    requires IsSgxCompositeKey(key) && |key| >= 2
    ensures TransformToCompositeKey(key).Some?
    ensures TransformToSgx(TransformToCompositeKey(key).value) == key <==> Free(key, NUL)
  {
    SplitOfDelimited(key);
    var c := SplitSgxCompositeKey(key).value;
    MarkedFree(c, NUL);
    assert key[1..] == Marked(c, SEP);
    if AllFree(c, NUL) {
      SgxOfMarked(c);
      var f := [NUL] + Marked(c, NUL);
      assert f[1..] == Marked(c, NUL);
    }
  }

  lemma {:induction false} CStringStops(c: string, rest: string)
    requires Free(c, NUL)
    ensures CString(c + [NUL] + rest) == c
  {
    if c != "" {
      assert (c + [NUL] + rest)[1..] == c[1..] + [NUL] + rest;
      CStringStops(c[1..], rest);
    }
  }

  lemma {:induction false} CStringOfNulFree(c: string)
    requires Free(c, NUL)
    ensures CString(c) == c
  {
    if c != "" { CStringOfNulFree(c[1..]); }
  }

  lemma {:induction false} ScanOfMarked(comps: seq<string>)
    requires AllFree(comps, NUL)
    ensures |ScanComponents(Marked(comps, NUL))| <= |Marked(comps, SEP)|
    ensures ScanComponents(Marked(comps, NUL)) == Marked(comps, SEP) <==> AllNonEmpty(comps)
  {
    if comps != [] {
      var s := Marked(comps, NUL);
      var rest := Marked(comps[1..], NUL);
      CStringStops(comps[0], rest);
      assert s[|comps[0]| + 1..] == rest;
      ScanOfMarked(comps[1..]);
      var r := ScanComponents(rest);
      if comps[0] != "" {
        var m := comps[0] + [SEP];
        assert ScanComponents(s) == m + r && Marked(comps, SEP) == m + Marked(comps[1..], SEP);
        assert (m + r)[|m|..] == r && (m + Marked(comps[1..], SEP))[|m|..] == Marked(comps[1..], SEP);
        assert AllNonEmpty(comps) <==> AllNonEmpty(comps[1..]) by {
          assert forall i | 1 <= i < |comps| :: comps[1..][i - 1] == comps[i];
          assert forall i | 0 <= i < |comps| - 1 :: comps[1..][i] == comps[i + 1];
        }
      }
    }
  }

  /** On a Fabric key the ledger's C-string scan gives what the Go replacement gives,
      exactly when no component is empty. */
  lemma ScanMatchesReplacement(comps: seq<string>)
    requires AllFree(comps, NUL)
    ensures [SEP] + ScanKey(CreateCompositeKey(comps)) == TransformToSgx(CreateCompositeKey(comps)) <==>
      AllNonEmpty(comps)
  {
    var key := CreateCompositeKey(comps);
    assert key[1..] == Marked(comps, NUL);
    ScanOfMarked(comps);
    SgxOfMarked(comps);
    assert ([SEP] + ScanKey(key))[1..] == ScanKey(key);
    assert ([SEP] + Marked(comps, SEP))[1..] == Marked(comps, SEP);
  }

  lemma {:induction false} SameFirstComponent(a: string, b: string, x: string, y: string, mark: char)
    requires Free(a, mark) && Free(b, mark)
    requires HasPrefix(b + [mark] + y, a + [mark] + x)
    ensures a == b && HasPrefix(y, x)
    decreases |a|
  {
    var l, r := a + [mark] + x, b + [mark] + y;
    assert l[0] == r[..|l|][0] == r[0];
    if a == "" {
      assert r[1..] == y && l[1..] == x;
      assert r[..|l|][1..] == y[..|x|];
    } else {
      assert l[0] == a[0] && a[0] in a;
      assert b != "";
      var l', r' := a[1..] + [mark] + x, b[1..] + [mark] + y;
      assert l[1..] == l' && r[1..] == r';
      assert r'[..|l'|] == r[..|l|][1..];
      SameFirstComponent(a[1..], b[1..], x, y, mark);
      assert a == [a[0]] + a[1..] && b == [b[0]] + b[1..];
    }
  }

  /** On components free of the mark, being a string prefix is being a prefix of the
      component list. */
  lemma {:induction false} PrefixOfComponents(a: seq<string>, b: seq<string>, mark: char)
    requires AllFree(a, mark) && AllFree(b, mark)
    ensures HasPrefix(Marked(b, mark), Marked(a, mark)) <==> a <= b
    decreases |a|
  {
    if a != [] {
      if b == [] {
        assert Marked(b, mark) == "";
      } else {
        PrefixOfComponents(a[1..], b[1..], mark);
        var x, y := Marked(a[1..], mark), Marked(b[1..], mark);
        if HasPrefix(Marked(b, mark), Marked(a, mark)) {
          SameFirstComponent(a[0], b[0], x, y, mark);
          assert a == [a[0]] + a[1..] && b == [b[0]] + b[1..];
        }
        if a <= b {
          assert a[0] == b[0];
          assert a[1..] <= b[1..] by {
            assert b[1..][..|a| - 1] == b[..|a|][1..];
          }
          assert Marked(b, mark)[..|Marked(a, mark)|] == b[0] + [mark] + y[..|x|];
        }
      }
    }
  }

  lemma {:induction false} MarkedEnds(comps: seq<string>, mark: char)
    requires comps != []
    ensures Marked(comps, mark) != "" && Marked(comps, mark)[|Marked(comps, mark)| - 1] == mark
  {
    if |comps| > 1 { MarkedEnds(comps[1..], mark); }
  }

  /** A delimited key becomes the Fabric key of the same components. */
  lemma FabricKeyOf(comps: seq<string>)
    requires comps != [] && AllFree(comps, SEP) && AllFree(comps, NUL)
    ensures FabricKey([SEP] + Marked(comps, SEP)) == [NUL] + Marked(comps, NUL)
  {
    var key := [SEP] + Marked(comps, SEP);
    MarkedEnds(comps, SEP);
    SplitOfDelimited(key);
    var c := SplitSgxCompositeKey(key).value;
    assert Marked(c, SEP) == key[1..] == Marked(comps, SEP);
    PrefixOfComponents(c, comps, SEP);
    PrefixOfComponents(comps, c, SEP);
    assert c == comps;
  }
}
