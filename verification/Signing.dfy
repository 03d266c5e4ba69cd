/** The endorsement signature: the chaincode enclave signs its arguments, response, read set
    and write set; the Go validator (ecc/vscc) and the ledger enclave each rebuild the signed
    bytes from the read/write set that the peer recorded. */
module Signing {
  import opened Options
  import opened Lex
  import opened Keys
  import opened Ledger

  // ----- sorting with repetitions, as sort.Strings does -----

  function InsertSorted(x: string, s: seq<string>): (r: seq<string>)
    ensures multiset(r) == multiset(s) + multiset{x}
  {
    if s == [] then [x]
    else if LessEq(x, s[0]) then [x] + s
    else
      assert s == [s[0]] + s[1..];
      [s[0]] + InsertSorted(x, s[1..])
  }

  function SortStrings(s: seq<string>): (r: seq<string>)
    ensures multiset(r) == multiset(s)
  {
    if s == [] then [] else
      assert s == s[..|s| - 1] + [s[|s| - 1]];
      InsertSorted(s[|s| - 1], SortStrings(s[..|s| - 1]))
  }

  lemma {:induction false} InsertKeepsSorted(x: string, s: seq<string>)
    requires Sorted(s)
    ensures Sorted(InsertSorted(x, s))
  {
    if s != [] {
      if LessEq(x, s[0]) {
        forall j | 0 < j < |s| + 1
          ensures LessEq(x, ([x] + s)[j])
        {
          if j > 1 && x != s[0] && s[0] != s[j - 1] { LessTransitive(x, s[0], s[j - 1]); }
        }
      } else {
        LessTotal(x, s[0]);
        var t := InsertSorted(x, s[1..]);
        InsertKeepsSorted(x, s[1..]);
        forall y | y in t
          ensures LessEq(s[0], y)
        {
          assert y in multiset(t);
          if y != x { assert y in multiset(s[1..]); }
        }
      }
    }
  }

  lemma {:induction false} SortSorts(s: seq<string>)
    ensures Sorted(SortStrings(s))
  {
    if s != [] {
      SortSorts(s[..|s| - 1]);
      InsertKeepsSorted(s[|s| - 1], SortStrings(s[..|s| - 1]));
    }
  }

  lemma SameMultisetSameElements(a: seq<string>, b: seq<string>)
    requires multiset(a) == multiset(b)
    ensures Elements(a) == Elements(b)
  {
    assert forall x :: x in a <==> x in multiset(a);
    assert forall x :: x in b <==> x in multiset(b);
  }

  /** Without repetitions, sorting a list is visiting the ordered set. */
  lemma SortIsOrdered(s: seq<string>)
    requires Distinct(s)
    ensures SortStrings(s) == Ordered(Elements(s))
  {
    hide Ordered;
    hide SortStrings;
    var r := SortStrings(s);
    SortSorts(s);
    SameMultisetSameElements(r, s);
    DistinctPermutation(s, r);
    AscendingUnique(r, Ordered(Elements(s)));
  }

  lemma DistinctPermutation(a: seq<string>, b: seq<string>)
    requires Distinct(a) && multiset(a) == multiset(b)
    ensures Distinct(b)
  {
    forall i, j | 0 <= i < j < |b|
      ensures b[i] != b[j]
    {
      if b[i] == b[j] {
        assert b == b[..i] + [b[i]] + b[i + 1..j] + [b[j]] + b[j + 1..];
        assert multiset(b)[b[i]] >= 2;
        OnlyOnce(a, b[i]);
      }
    }
  }

  lemma {:induction false} OnlyOnce(a: seq<string>, x: string)
    requires Distinct(a)
    ensures multiset(a)[x] <= 1
  {
    if a != [] {
      OnlyOnce(a[1..], x);
      assert a == [a[0]] + a[1..];
      assert forall i | 0 <= i < |a| - 1 :: a[1..][i] == a[i + 1];
      assert x in multiset(a[1..]) ==> x in a[1..];
    }
  }

  // ----- lengths tell repetitions apart -----

  lemma {:induction false} ConcatOfSub(a: seq<string>, b: seq<string>)
    requires multiset(a) <= multiset(b)
    ensures |Concat(a)| <= |Concat(b)|
    decreases |a|
  {
    if a != [] {
      assert a == [a[0]] + a[1..];
      assert a[0] in multiset(b);
      var i :| 0 <= i < |b| && b[i] == a[0];
      var rest := b[..i] + b[i + 1..];
      assert b == b[..i] + [b[i]] + b[i + 1..];
      assert multiset(rest) == multiset(b) - multiset{a[0]};
      ConcatOfSub(a[1..], rest);
      ConcatDrop(b, i);
    }
  }

  lemma ConcatDrop(b: seq<string>, i: nat)
    requires i < |b|
    ensures |Concat(b)| == |Concat(b[..i] + b[i + 1..])| + |b[i]|
  {
    assert b == b[..i] + ([b[i]] + b[i + 1..]);
    ConcatAppend(b[..i], [b[i]] + b[i + 1..]);
    ConcatAppend(b[..i], b[i + 1..]);
    assert ([b[i]] + b[i + 1..])[1..] == b[i + 1..];
  }

  lemma {:induction false} DistinctWithin(a: seq<string>, b: seq<string>)
    requires Distinct(a) && Elements(a) <= Elements(b)
    ensures multiset(a) <= multiset(b)
  {
    forall x
      ensures multiset(a)[x] <= multiset(b)[x]
    {
      OnlyOnce(a, x);
      if x in multiset(a) {
        assert x in Elements(a);
        assert x in Elements(b);
        assert x in multiset(b);
      }
    }
  }

  /** A list of non-empty strings, sorted and concatenated, gives the bytes of the ordered
      set exactly when no string occurs twice. */
  lemma RepetitionShows(s: seq<string>)
    requires AllNonEmpty(s)
    ensures Concat(SortStrings(s)) == Concat(Ordered(Elements(s))) <==> Distinct(s)
  {
    hide Ordered;
    hide SortStrings;
    hide Concat;
    if Distinct(s) {
      SortIsOrdered(s);
    } else {
      var i, j :| 0 <= i < j < |s| && s[i] == s[j];
      var rest := s[..j] + s[j + 1..];
      var o := Ordered(Elements(s));
      AscendingIsDistinct(o);
      forall x | x in Elements(s)
        ensures x in rest
      {
        var m :| 0 <= m < |s| && s[m] == x;
        if m < j { assert rest[m] == x; } else if m > j { assert rest[m - 1] == x; } else { assert rest[i] == x; }
      }
      DistinctWithin(o, rest);
      ConcatOfSub(o, rest);
      ConcatDrop(s, j);
      ConcatOfSub(s, SortStrings(s));
    }
  }

  // ----- what the enclave does during an invocation, and what the peer records -----

  /** Calls of the chaincode to the shim; a range query returns Fabric keys. */
  datatype Event = Get(key: string) | Put(key: string, value: string) | Range(keys: seq<string>)

  function SgxKeys(keys: seq<string>): (r: seq<string>)
    ensures |r| == |keys| && forall i | 0 <= i < |keys| :: r[i] == TransformToSgx(keys[i])
  {
    seq(|keys|, i requires 0 <= i < |keys| => TransformToSgx(keys[i]))
  }

  /** The enclave's read set. */
  function ReadSet(trace: seq<Event>): set<string> {
    if trace == [] then {} else
      var r := ReadSet(trace[..|trace| - 1]);
      match trace[|trace| - 1]
      case Get(k) => r + {k}
      case Put(_, _) => r
      case Range(ks) => r + Elements(SgxKeys(ks))
  }

  /** The enclave's write set keeps the first value of a key. */
  function WriteSet(trace: seq<Event>): map<string, string> {
    if trace == [] then map[] else
      var w := WriteSet(trace[..|trace| - 1]);
      match trace[|trace| - 1]
      case Put(k, v) => InsertString(w, k, v)
      case _ => w
  }

  function PointKeys(trace: seq<Event>): set<string> {
    if trace == [] then {} else
      var r := PointKeys(trace[..|trace| - 1]);
      if trace[|trace| - 1].Get? then r + {FabricKey(trace[|trace| - 1].key)} else r
  }

  function ScannedKeys(trace: seq<Event>): set<string> {
    if trace == [] then {} else
      var r := ScannedKeys(trace[..|trace| - 1]);
      if trace[|trace| - 1].Range? then r + Elements(trace[|trace| - 1].keys) else r
  }

  function ReadKeys(rs: seq<KvRead>): (r: seq<string>)
    ensures |r| == |rs| && forall i | 0 <= i < |rs| :: r[i] == rs[i].key
  {
    seq(|rs|, i requires 0 <= i < |rs| => rs[i].key)
  }

  function RawKeys(queries: seq<seq<KvRead>>): seq<string> {
    if queries == [] then [] else RawKeys(queries[..|queries| - 1]) + ReadKeys(queries[|queries| - 1])
  }

  /** The peer's write set: PutState is called for every put, so the last value under a
      Fabric key stands. */
  function PeerWrites(trace: seq<Event>): map<string, string> {
    if trace == [] then map[] else
      var w := PeerWrites(trace[..|trace| - 1]);
      match trace[|trace| - 1]
      case Put(k, v) => w[FabricKey(k) := v]
      case _ => w
  }

  /** The peer's record of the calls: the keys of single reads, the keys each range query
      returned, and its write set, one write per key. */
  predicate Records(n: NsRwSet, trace: seq<Event>) {
    && n.ns == "ecc"
    && Elements(ReadKeys(n.pointReads)) == PointKeys(trace)
    && Elements(RawKeys(n.rangeReads)) == ScannedKeys(trace)
    && (forall i, j | 0 <= i < j < |n.writes| :: n.writes[i].key != n.writes[j].key)
    && (forall i | 0 <= i < |n.writes| :: IsPeerWrite(n.writes[i], trace))
    && forall f | f in PeerWrites(trace) :: KvWrite(f, PeerWrites(trace)[f]) in n.writes
  }

  predicate IsPeerWrite(w: KvWrite, trace: seq<Event>) {
    w.key in PeerWrites(trace) && w.value == PeerWrites(trace)[w.key]
  }

  predicate FirstPut(trace: seq<Event>, i: nat) {
    && i < |trace| && trace[i].Put?
    && forall j | 0 <= j < i :: trace[j].Put? ==> trace[j].key != trace[i].key
  }

  predicate LastPut(trace: seq<Event>, i: nat) {
    && i < |trace| && trace[i].Put?
    && forall j | i < j < |trace| :: trace[j].Put? ==> trace[j].key != trace[i].key
  }

  /** The last value put under a key is the first one. */
  predicate Settled(trace: seq<Event>) {
    forall i: nat, j: nat | i < |trace| && j < |trace| && FirstPut(trace, i) && LastPut(trace, j) ::
      trace[i].key == trace[j].key ==> trace[i].value == trace[j].value
  }

  /** The last value put under a key is as long as the first one. */
  predicate SteadyLengths(trace: seq<Event>) {
    forall i: nat, j: nat | i < |trace| && j < |trace| && FirstPut(trace, i) && LastPut(trace, j) ::
      trace[i].key == trace[j].key ==> |trace[i].value| == |trace[j].value|
  }

  predicate FirstPutsAre(trace: seq<Event>, value: string) {
    forall i: nat | i < |trace| && FirstPut(trace, i) :: trace[i].value == value
  }

  predicate FirstPutsAsLongAs(trace: seq<Event>, value: string) {
    forall i: nat | i < |trace| && FirstPut(trace, i) :: |trace[i].value| == |value|
  }

  // ----- keys on which the three translations agree -----

  predicate PlainName(k: string) {
    k != "" && Free(k, NUL) && !IsSgxCompositeKey(k)
  }

  /** A delimited key whose components are all non-empty and without NUL. */
  ghost predicate CompositeName(k: string) {
    exists comps :: comps != [] && AllNonEmpty(comps) && AllFree(comps, NUL) && AllFree(comps, SEP) &&
      k == [SEP] + Marked(comps, SEP)
  }

  ghost predicate FabricComposite(f: string) {
    exists comps :: comps != [] && AllNonEmpty(comps) && AllFree(comps, NUL) && f == [NUL] + Marked(comps, NUL)
  }

  ghost predicate GoodTrace(trace: seq<Event>) {
    forall i | 0 <= i < |trace| :: GoodEvent(trace[i])
  }

  ghost predicate GoodEvent(e: Event) {
    match e
    case Get(k) => PlainName(k)
    case Put(k, _) => PlainName(k) || CompositeName(k)
    case Range(ks) => forall i | 0 <= i < |ks| :: FabricComposite(ks[i])
  }

  lemma PlainTranslations(k: string)
    requires PlainName(k)
    ensures FabricKey(k) == k && CString(k) == k && TransformToSgx(k) == k && EccWriteName(k) == k
  {
    CStringOfNulFree(k);
    SgxOfNulFree(k);
    assert k[0] in k;
  }

  lemma FabricTranslations(f: string)
    requires FabricComposite(f)
    ensures f != "" && f[0] == NUL && "." + ScanKey(f) == TransformToSgx(f)
  {
    var comps :| comps != [] && AllNonEmpty(comps) && AllFree(comps, NUL) && f == [NUL] + Marked(comps, NUL);
    assert f == CreateCompositeKey(comps);
    ScanMatchesReplacement(comps);
    assert "." == [SEP];
  }

  lemma CompositeTranslations(k: string)
    requires CompositeName(k)
    ensures TransformToSgx(FabricKey(k)) == k && EccWriteName(FabricKey(k)) == k
  {
    var comps :| comps != [] && AllNonEmpty(comps) && AllFree(comps, NUL) && AllFree(comps, SEP) &&
      k == [SEP] + Marked(comps, SEP);
    FabricKeyOf(comps);
    var f := [NUL] + Marked(comps, NUL);
    assert FabricComposite(f);
    FabricTranslations(f);
    SgxOfMarked(comps);
    assert f[1..] == Marked(comps, NUL);
  }

  /** What the validator and the ledger call a written key. */
  lemma PutTranslations(k: string)
    requires PlainName(k) || CompositeName(k)
    ensures TransformToSgx(FabricKey(k)) == k && EccWriteName(FabricKey(k)) == k
  {
    if PlainName(k) { PlainTranslations(k); } else { CompositeTranslations(k); }
  }

  // ----- the validator -----

  function GoReadKeys(n: NsRwSet): seq<string> {
    SgxKeys(ReadKeys(n.pointReads)) + SgxKeys(RawKeys(n.rangeReads))
  }

  function GoWriteKeys(ws: seq<KvWrite>): (r: seq<string>)
    ensures |r| == |ws| && forall i | 0 <= i < |ws| :: r[i] == TransformToSgx(ws[i].key)
  {
    seq(|ws|, i requires 0 <= i < |ws| => TransformToSgx(ws[i].key))
  }

  function GoWriteMap(ws: seq<KvWrite>): (m: map<string, string>)
    ensures m.Keys == Elements(GoWriteKeys(ws))
  {
    if ws == [] then map[] else
      var w := ws[|ws| - 1];
      assert GoWriteKeys(ws) == GoWriteKeys(ws[..|ws| - 1]) + [TransformToSgx(w.key)];
      GoWriteMap(ws[..|ws| - 1])[TransformToSgx(w.key) := w.value]
  }

  lemma SortedKeysIn(ws: seq<KvWrite>)
    ensures forall i | 0 <= i < |SortStrings(GoWriteKeys(ws))| :: SortStrings(GoWriteKeys(ws))[i] in GoWriteMap(ws)
  {
    hide SortStrings;
    hide GoWriteMap;
    var ks := SortStrings(GoWriteKeys(ws));
    SameMultisetSameElements(ks, GoWriteKeys(ws));
    assert forall i | 0 <= i < |ks| :: ks[i] in Elements(ks);
  }

  /** The bytes Verify hashes. */
  function GoBytes(args: string, response: string, n: NsRwSet): string {
    SortedKeysIn(n.writes);
    args + response + Concat(SortStrings(GoReadKeys(n))) +
      PairBytes(SortStrings(GoWriteKeys(n.writes)), GoWriteMap(n.writes))
  }

  /** The part of checkEnclaveEndorsement that rebuilds read and write set. */
  method RebuildSignedBytes(args: string, response: string, n: NsRwSet) returns (bytes: string)
    ensures bytes == GoBytes(args, response, n)
  {
    hide GoWriteMap;
    hide PairBytes;
    hide Concat;
    hide TransformToSgx;
    hide SortStrings;
    var readKeys := TranslateReads(n.pointReads);
    for q := 0 to |n.rangeReads|
      invariant readKeys == SgxKeys(ReadKeys(n.pointReads)) + SgxKeys(RawKeys(n.rangeReads[..q]))
    {
      var ks := TranslateReads(n.rangeReads[q]);
      assert n.rangeReads[..q + 1][..q] == n.rangeReads[..q];
      SgxKeysAppend(RawKeys(n.rangeReads[..q]), ReadKeys(n.rangeReads[q]));
      readKeys := readKeys + ks;
    }
    assert n.rangeReads[..|n.rangeReads|] == n.rangeReads;
    var writeKeys, writesetMap := TranslateWrites(n.writes);
    SortedKeysIn(n.writes);
    bytes := FeedKeys(args + response, SortStrings(readKeys));
    bytes := FeedPairs(bytes, SortStrings(writeKeys), writesetMap);
  }

  lemma SgxKeysAppend(a: seq<string>, b: seq<string>)
    ensures SgxKeys(a + b) == SgxKeys(a) + SgxKeys(b)
  {
  }

  method TranslateReads(rs: seq<KvRead>) returns (keys: seq<string>)
    ensures keys == SgxKeys(ReadKeys(rs))
  {
    keys := [];
    for i := 0 to |rs|
      invariant keys == SgxKeys(ReadKeys(rs[..i]))
    {
      assert ReadKeys(rs[..i + 1]) == ReadKeys(rs[..i]) + [rs[i].key];
      SgxKeysAppend(ReadKeys(rs[..i]), [rs[i].key]);
      keys := keys + [TransformToSgx(rs[i].key)];
    }
    assert rs[..|rs|] == rs;
  }

  method TranslateWrites(ws: seq<KvWrite>) returns (keys: seq<string>, m: map<string, string>)
    ensures keys == GoWriteKeys(ws) && m == GoWriteMap(ws)
  {
    keys, m := [], map[];
    for i := 0 to |ws|
      invariant keys == GoWriteKeys(ws[..i]) && m == GoWriteMap(ws[..i])
    {
      assert ws[..i + 1][..i] == ws[..i];
      var k := TransformToSgx(ws[i].key);
      keys := keys + [k];
      m := m[k := ws[i].value];
    }
    assert ws[..|ws|] == ws;
  }

  // ----- the chaincode enclave -----

  function EnclaveBytes(args: string, response: string, trace: seq<Event>): string {
    args + response + Concat(Ordered(ReadSet(trace))) + OrderedPairBytes(WriteSet(trace))
  }

  /** The hashing part of ecall_invoke. */
  method SignedInput(args: string, response: string, readset: set<string>, writeset: map<string, string>)
    returns (bytes: string)
    ensures bytes == args + response + Concat(Ordered(readset)) + OrderedPairBytes(writeset)
  {
    OrderedKeysIn(writeset);
    bytes := FeedKeys(args + response, Ordered(readset));
    bytes := FeedPairs(bytes, Ordered(writeset.Keys), writeset);
  }

  // ----- the three read sets -----

  ghost function Image(s: set<string>): set<string> {
    set f | f in s :: TransformToSgx(f)
  }

  lemma ImageOfKeys(keys: seq<string>)
    ensures Elements(SgxKeys(keys)) == Image(Elements(keys))
  {
    var r := SgxKeys(keys);
    forall x | x in Elements(r)
      ensures x in Image(Elements(keys))
    {
      var i :| 0 <= i < |r| && r[i] == x;
      assert keys[i] in Elements(keys);
    }
    forall f | f in Elements(keys)
      ensures TransformToSgx(f) in r
    {
      var i :| 0 <= i < |keys| && keys[i] == f;
      assert r[i] == TransformToSgx(f);
    }
  }

  lemma {:induction false} ReadSetIsImage(trace: seq<Event>)
    requires GoodTrace(trace)
    ensures ReadSet(trace) == Image(PointKeys(trace) + ScannedKeys(trace))
    ensures forall f | f in PointKeys(trace) :: PlainName(f)
    ensures forall f | f in ScannedKeys(trace) :: FabricComposite(f)
  {
    hide TransformToSgx;
    hide PlainName;
    hide FabricComposite;
    hide FabricKey;
    if trace != [] {
      var front, e := trace[..|trace| - 1], trace[|trace| - 1];
      ReadSetIsImage(front);
      assert GoodEvent(e);
      var s := PointKeys(front) + ScannedKeys(front);
      match e
      case Get(k) =>
        PlainTranslations(k);
        assert PointKeys(trace) + ScannedKeys(trace) == s + {k};
      case Put(_, _) =>
      case Range(ks) =>
        ImageOfKeys(ks);
        assert PointKeys(trace) + ScannedKeys(trace) == s + Elements(ks);
    }
  }

  lemma {:induction false} PointNamesAreImage(rs: seq<KvRead>)
    requires forall i | 0 <= i < |rs| :: PlainName(rs[i].key)
    ensures PointNames(rs) == Image(Elements(ReadKeys(rs)))
  {
    hide PlainName;
    hide CString;
    hide TransformToSgx;
    if rs != [] {
      PointNamesAreImage(rs[..|rs| - 1]);
      PlainTranslations(rs[|rs| - 1].key);
      ElementsOfReadKeys(rs);
    }
  }

  lemma ElementsOfReadKeys(rs: seq<KvRead>)
    requires rs != []
    ensures Elements(ReadKeys(rs)) == Elements(ReadKeys(rs[..|rs| - 1])) + {rs[|rs| - 1].key}
  {
    assert ReadKeys(rs) == ReadKeys(rs[..|rs| - 1]) + [rs[|rs| - 1].key];
  }

  lemma {:induction false} RawNamesAreImage(rs: seq<KvRead>)
    requires forall i | 0 <= i < |rs| :: FabricComposite(rs[i].key)
    ensures RawNames(rs) == Image(Elements(ReadKeys(rs)))
  {
    hide FabricComposite;
    hide ScanKey;
    hide TransformToSgx;
    if rs != [] {
      RawNamesAreImage(rs[..|rs| - 1]);
      FabricTranslations(rs[|rs| - 1].key);
      ElementsOfReadKeys(rs);
    }
  }

  lemma {:induction false} RangeNamesAreImage(queries: seq<seq<KvRead>>)
    requires forall f | f in RawKeys(queries) :: FabricComposite(f)
    ensures RangeNames(queries) == Image(Elements(RawKeys(queries)))
  {
    hide FabricComposite;
    hide TransformToSgx;
    if queries != [] {
      var front, last := queries[..|queries| - 1], queries[|queries| - 1];
      RangeNamesAreImage(front);
      forall i | 0 <= i < |last|
        ensures FabricComposite(last[i].key)
      {
        assert ReadKeys(last)[i] == last[i].key;
        assert last[i].key in RawKeys(queries);
      }
      RawNamesAreImage(last);
      assert Elements(RawKeys(queries)) == Elements(RawKeys(front)) + Elements(ReadKeys(last));
    }
  }

  /** The ledger's read set of a recorded invocation is the enclave's. */
  lemma LedgerReadsAgree(n: NsRwSet, trace: seq<Event>)
    requires GoodTrace(trace) && Records(n, trace)
    ensures NsEccReads(n) == ReadSet(trace) == Elements(GoReadKeys(n))
  {
    hide PlainName;
    hide FabricComposite;
    hide TransformToSgx;
    hide PointKeys;
    hide ScannedKeys;
    hide RawKeys;
    ReadSetIsImage(trace);
    var ps, rs := ReadKeys(n.pointReads), RawKeys(n.rangeReads);
    forall i | 0 <= i < |n.pointReads|
      ensures PlainName(n.pointReads[i].key)
    {
      assert ps[i] in Elements(ps);
    }
    forall f | f in rs
      ensures FabricComposite(f)
    {
      assert f in Elements(rs);
    }
    PointNamesAreImage(n.pointReads);
    RangeNamesAreImage(n.rangeReads);
    ImageOfKeys(ps);
    ImageOfKeys(rs);
    assert Elements(SgxKeys(ps) + SgxKeys(rs)) == Elements(SgxKeys(ps)) + Elements(SgxKeys(rs));
    assert Image(Elements(ps) + Elements(rs)) == Image(Elements(ps)) + Image(Elements(rs));
  }

  // ----- the three write sets -----

  lemma {:induction false} PutKeysGood(trace: seq<Event>)
    requires GoodTrace(trace)
    ensures forall k | k in WriteSet(trace) :: PlainName(k) || CompositeName(k)
  {
    hide PlainName;
    hide CompositeName;
    if trace != [] {
      PutKeysGood(trace[..|trace| - 1]);
      assert GoodEvent(trace[|trace| - 1]);
    }
  }

  lemma {:induction false} PutIsWritten(trace: seq<Event>, i: nat)
    requires i < |trace| && trace[i].Put?
    ensures trace[i].key in WriteSet(trace)
  {
    if i < |trace| - 1 { PutIsWritten(trace[..|trace| - 1], i); }
  }

  lemma {:induction false} FirstPutOf(trace: seq<Event>, k: string) returns (i: nat)
    requires k in WriteSet(trace)
    ensures FirstPut(trace, i) && trace[i].key == k && trace[i].value == WriteSet(trace)[k]
  {
    var front := trace[..|trace| - 1];
    if k in WriteSet(front) {
      i := FirstPutOf(front, k);
    } else {
      i := |front|;
      forall j | 0 <= j < i && trace[j].Put?
        ensures trace[j].key != k
      {
        PutIsWritten(front, j);
      }
    }
  }

  lemma FirstPutIs(trace: seq<Event>, i: nat)
    requires FirstPut(trace, i)
    ensures trace[i].key in WriteSet(trace) && WriteSet(trace)[trace[i].key] == trace[i].value
  {
    hide WriteSet;
    PutIsWritten(trace, i);
    var j := FirstPutOf(trace, trace[i].key);
    assert i == j;
  }

  lemma {:induction false} LastPutOf(trace: seq<Event>, k: string) returns (j: nat)
    requires k in WriteSet(trace)
    ensures LastPut(trace, j) && trace[j].key == k
  {
    var front, e := trace[..|trace| - 1], trace[|trace| - 1];
    if e.Put? && e.key == k {
      j := |front|;
    } else {
      j := LastPutOf(front, k);
    }
  }

  lemma GoodPut(trace: seq<Event>, i: nat)
    requires GoodTrace(trace) && i < |trace| && trace[i].Put?
    ensures PlainName(trace[i].key) || CompositeName(trace[i].key)
  {
    assert GoodEvent(trace[i]);
  }

  /** Good keys that differ in the enclave differ in Fabric. */
  lemma {:induction false} LastPutIs(trace: seq<Event>, j: nat)
    requires GoodTrace(trace) && LastPut(trace, j)
    ensures FabricKey(trace[j].key) in PeerWrites(trace) && PeerWrites(trace)[FabricKey(trace[j].key)] == trace[j].value
  {
    hide FabricKey;
    hide TransformToSgx;
    hide EccWriteName;
    hide PlainName;
    hide CompositeName;
    var front, e := trace[..|trace| - 1], trace[|trace| - 1];
    if j < |front| {
      assert LastPut(front, j);
      LastPutIs(front, j);
      if e.Put? {
        GoodPut(trace, j);
        GoodPut(trace, |front|);
        PutTranslations(e.key);
        PutTranslations(trace[j].key);
      }
    }
  }

  /** The enclave's name of a key of the peer's write set. */
  lemma {:induction false} PeerKeyBehind(trace: seq<Event>, f: string) returns (k: string)
    requires f in PeerWrites(trace)
    ensures k in WriteSet(trace) && f == FabricKey(k)
  {
    hide FabricKey;
    var front, e := trace[..|trace| - 1], trace[|trace| - 1];
    if e.Put? && FabricKey(e.key) == f {
      k := e.key;
    } else {
      k := PeerKeyBehind(front, f);
    }
  }

  /** The two write sets, key by key: first value here, last value there. */
  lemma PeerValueOf(trace: seq<Event>, k: string) returns (i: nat, j: nat)
    requires GoodTrace(trace) && k in WriteSet(trace)
    ensures FirstPut(trace, i) && trace[i].key == k && trace[i].value == WriteSet(trace)[k]
    ensures LastPut(trace, j) && trace[j].key == k
    ensures FabricKey(k) in PeerWrites(trace) && trace[j].value == PeerWrites(trace)[FabricKey(k)]
  {
    hide WriteSet;
    hide PeerWrites;
    hide FabricKey;
    hide GoodTrace;
    i := FirstPutOf(trace, k);
    j := LastPutOf(trace, k);
    LastPutIs(trace, j);
  }

  /** Each recorded write, under its name in the enclave. */
  lemma WriteBehind(n: NsRwSet, trace: seq<Event>, i: nat) returns (k: string)
    requires GoodTrace(trace) && Records(n, trace) && i < |n.writes|
    ensures k in WriteSet(trace) && FabricKey(k) in PeerWrites(trace)
    ensures n.writes[i] == KvWrite(FabricKey(k), PeerWrites(trace)[FabricKey(k)])
    ensures TransformToSgx(n.writes[i].key) == k && EccWriteName(n.writes[i].key) == k
  {
    hide WriteSet;
    hide PeerWrites;
    assert IsPeerWrite(n.writes[i], trace);
    k := PeerKeyBehind(trace, n.writes[i].key);
    PutKeysGood(trace);
    PutTranslations(k);
  }

  lemma {:induction false} GoWriteMapHas(ws: seq<KvWrite>, i: nat)
    requires Distinct(GoWriteKeys(ws)) && i < |ws|
    ensures TransformToSgx(ws[i].key) in GoWriteMap(ws) && GoWriteMap(ws)[TransformToSgx(ws[i].key)] == ws[i].value
  {
    hide TransformToSgx;
    if i < |ws| - 1 {
      var front := ws[..|ws| - 1];
      assert GoWriteKeys(front) == GoWriteKeys(ws)[..|ws| - 1];
      GoWriteMapHas(front, i);
      assert GoWriteKeys(ws)[i] != GoWriteKeys(ws)[|ws| - 1];
    }
  }

  lemma GoWriteKeysDistinct(n: NsRwSet, trace: seq<Event>)
    requires GoodTrace(trace) && Records(n, trace)
    ensures Distinct(GoWriteKeys(n.writes))
  {
    hide WriteSet;
    hide PeerWrites;
    hide IsPeerWrite;
    hide GoodTrace;
    hide FabricKey;
    hide TransformToSgx;
    hide EccWriteName;
    forall i, j | 0 <= i < j < |n.writes|
      ensures GoWriteKeys(n.writes)[i] != GoWriteKeys(n.writes)[j]
    {
      var k := WriteBehind(n, trace, i);
      var k' := WriteBehind(n, trace, j);
    }
  }

  /** The write recorded for a key of the enclave's write set. */
  lemma WriteFor(n: NsRwSet, trace: seq<Event>, k: string) returns (i: nat)
    requires GoodTrace(trace) && Records(n, trace) && k in WriteSet(trace)
    ensures FabricKey(k) in PeerWrites(trace)
    ensures i < |n.writes| && n.writes[i] == KvWrite(FabricKey(k), PeerWrites(trace)[FabricKey(k)])
    ensures TransformToSgx(n.writes[i].key) == k && EccWriteName(n.writes[i].key) == k
  {
    hide WriteSet;
    hide PeerWrites;
    hide FabricKey;
    var first, last := PeerValueOf(trace, k);
    var w := KvWrite(FabricKey(k), PeerWrites(trace)[FabricKey(k)]);
    assert w in n.writes;
    i :| 0 <= i < |n.writes| && n.writes[i] == w;
    PutKeysGood(trace);
    PutTranslations(k);
  }

  /** The validator's map has the keys of the enclave and the values of the peer. */
  lemma GoWriteMapIs(n: NsRwSet, trace: seq<Event>)
    requires GoodTrace(trace) && Records(n, trace)
    ensures GoWriteMap(n.writes).Keys == WriteSet(trace).Keys
    ensures forall k | k in WriteSet(trace) ::
              FabricKey(k) in PeerWrites(trace) && GoWriteMap(n.writes)[k] == PeerWrites(trace)[FabricKey(k)]
  {
    hide WriteSet;
    hide PeerWrites;
    hide GoWriteMap;
    hide Records;
    hide GoodTrace;
    hide FabricKey;
    hide TransformToSgx;
    hide EccWriteName;
    GoWriteKeysDistinct(n, trace);
    forall k | k in WriteSet(trace)
      ensures k in GoWriteMap(n.writes) && FabricKey(k) in PeerWrites(trace)
      ensures GoWriteMap(n.writes)[k] == PeerWrites(trace)[FabricKey(k)]
    {
      var i := WriteFor(n, trace, k);
      GoWriteMapHas(n.writes, i);
    }
    forall k | k in GoWriteMap(n.writes)
      ensures k in WriteSet(trace)
    {
      assert k in Elements(GoWriteKeys(n.writes));
      var i :| 0 <= i < |n.writes| && GoWriteKeys(n.writes)[i] == k;
      var k' := WriteBehind(n, trace, i);
    }
  }

  /** The validator rebuilds the enclave's write set exactly when no key was put with a last
      value other than its first. */
  lemma GoWritesExact(n: NsRwSet, trace: seq<Event>)
    requires GoodTrace(trace) && Records(n, trace)
    ensures GoWriteMap(n.writes) == WriteSet(trace) <==> Settled(trace)
  {
    hide WriteSet;
    hide PeerWrites;
    hide GoWriteMap;
    hide Records;
    hide GoodTrace;
    hide FabricKey;
    GoWriteMapIs(n, trace);
    if GoWriteMap(n.writes) == WriteSet(trace) {
      forall i: nat, j: nat | FirstPut(trace, i) && LastPut(trace, j) && trace[i].key == trace[j].key
        ensures trace[i].value == trace[j].value
      {
        FirstPutIs(trace, i);
        LastPutIs(trace, j);
      }
    }
    if Settled(trace) {
      forall k | k in WriteSet(trace)
        ensures GoWriteMap(n.writes)[k] == WriteSet(trace)[k]
      {
        var i, j := PeerValueOf(trace, k);
      }
    }
  }

  lemma {:induction false} NameWritesIs(ws: seq<KvWrite>, value: string)
    ensures forall k | k in NameWrites(map[], ws, value) :: NameWrites(map[], ws, value)[k] == value
    ensures forall k :: k in NameWrites(map[], ws, value) <==> exists i :: 0 <= i < |ws| && EccWriteName(ws[i].key) == k
  {
    hide EccWriteName;
    if ws != [] {
      var front, w := ws[..|ws| - 1], ws[|ws| - 1];
      NameWritesIs(front, value);
      assert ws == front + [w];
      forall k
        ensures k in NameWrites(map[], ws, value) <==> exists i :: 0 <= i < |ws| && EccWriteName(ws[i].key) == k
      {
        if i :| 0 <= i < |ws| && EccWriteName(ws[i].key) == k {
          if i < |front| { assert EccWriteName(front[i].key) == k; }
        }
        if i :| 0 <= i < |front| && EccWriteName(front[i].key) == k {
          assert EccWriteName(ws[i].key) == k;
        }
      }
    }
  }

  /** The ledger's write set is the enclave's exactly when every first put has the value that
      the peer recorded in its first write. */
  lemma LedgerWritesExact(n: NsRwSet, trace: seq<Event>)
    requires GoodTrace(trace) && Records(n, trace)
    ensures NsEccWrites(map[], n).Keys == WriteSet(trace).Keys
    ensures NsEccWrites(map[], n) == WriteSet(trace) <==> FirstPutsAre(trace, FirstValue(n.writes))
  {
    hide WriteSet;
    hide PeerWrites;
    hide GoodTrace;
    hide FabricKey;
    hide TransformToSgx;
    hide EccWriteName;
    hide NameWrites;
    hide Records;
    assert n.ns == "ecc" by { EccRecord(n, trace); }
    var ws, v := n.writes, FirstValue(n.writes);
    var m := NameWrites(map[], ws, v);
    NameWritesIs(ws, v);
    forall k | k in WriteSet(trace)
      ensures k in m
    {
      var i := WriteFor(n, trace, k);
    }
    forall k | k in m
      ensures k in WriteSet(trace)
    {
      var i :| 0 <= i < |ws| && EccWriteName(ws[i].key) == k;
      var k' := WriteBehind(n, trace, i);
    }
    if m == WriteSet(trace) {
      forall i: nat | FirstPut(trace, i)
        ensures trace[i].value == v
      {
        FirstPutIs(trace, i);
      }
    }
    if FirstPutsAre(trace, v) {
      forall k | k in WriteSet(trace)
        ensures m[k] == WriteSet(trace)[k]
      {
        var i := FirstPutOf(trace, k);
      }
    }
  }

  lemma EccRecord(n: NsRwSet, trace: seq<Event>)
    requires Records(n, trace)
    ensures n.ns == "ecc"
  {
  }

  /** For at most one written key the ledger and the validator agree with the enclave on the
      write set under the same condition. */
  lemma OneWriteAgrees(n: NsRwSet, trace: seq<Event>)
    requires GoodTrace(trace) && Records(n, trace) && |n.writes| <= 1
    ensures NsEccWrites(map[], n) == WriteSet(trace) <==> Settled(trace)
  {
    hide WriteSet;
    hide PeerWrites;
    hide GoodTrace;
    hide FabricKey;
    hide TransformToSgx;
    hide EccWriteName;
    hide NameWrites;
    hide GoWriteMap;
    hide Records;
    hide Settled;
    hide FirstPutsAre;
    assert n.ns == "ecc" by { EccRecord(n, trace); }
    LedgerWritesExact(n, trace);
    GoWritesExact(n, trace);
    GoWriteMapIs(n, trace);
    NameWritesIs(n.writes, FirstValue(n.writes));
    GoWriteKeysDistinct(n, trace);
    forall k | k in WriteSet(trace)
      ensures GoWriteMap(n.writes)[k] == NsEccWrites(map[], n)[k]
    {
      var i := WriteFor(n, trace, k);
      GoWriteMapHas(n.writes, i);
    }
  }

  // ----- agreement -----

  /** The read/write set of the action holds one ecc part, at index i. */
  predicate OnlyEcc(rws: seq<NsRwSet>, i: nat) {
    i < |rws| && rws[i].ns == "ecc" && forall j | 0 <= j < |rws| && j != i :: rws[j].ns != "ecc"
  }

  lemma {:induction false} EccPart(rws: seq<NsRwSet>, i: nat)
    requires OnlyEcc(rws, i)
    ensures EccReads(rws) == NsEccReads(rws[i]) && EccWrites(rws) == NsEccWrites(map[], rws[i])
  {
    hide NameWrites;
    hide RangeNames;
    hide PointNames;
    var front := rws[..|rws| - 1];
    if i == |rws| - 1 {
      NoEcc(front);
    } else {
      EccPart(front, i);
    }
  }

  lemma {:induction false} NoEcc(rws: seq<NsRwSet>)
    requires forall j | 0 <= j < |rws| :: rws[j].ns != "ecc"
    ensures EccReads(rws) == {} && EccWrites(rws) == map[]
  {
    if rws != [] { NoEcc(rws[..|rws| - 1]); }
  }

  lemma CancelMiddle(a: string, x: string, y: string, z: string)
    ensures a + x + z == a + y + z <==> x == y
  {
    if a + x + z == a + y + z {
      assert |x| == |y|;
      assert (a + x + z)[|a|..|a| + |x|] == x && (a + y + z)[|a|..|a| + |y|] == y;
    }
  }

  lemma GoReadKeysNonEmpty(n: NsRwSet, trace: seq<Event>)
    requires GoodTrace(trace) && Records(n, trace)
    ensures AllNonEmpty(GoReadKeys(n))
  {
    hide FabricComposite;
    hide PointKeys;
    hide ScannedKeys;
    hide RawKeys;
    ReadSetIsImage(trace);
    var ps, rs, g := ReadKeys(n.pointReads), RawKeys(n.rangeReads), GoReadKeys(n);
    forall i | 0 <= i < |g|
      ensures g[i] != ""
    {
      if i < |ps| {
        assert ps[i] in Elements(ps);
        PlainTranslations(ps[i]);
      } else {
        assert rs[i - |ps|] in Elements(rs);
        FabricTranslations(rs[i - |ps|]);
      }
    }
  }

  /** The bytes of the same keys with values of the same lengths show every difference. */
  lemma {:induction false} PairsAlign(keys: seq<string>, m: map<string, string>, m': map<string, string>)
    requires forall i | 0 <= i < |keys| :: keys[i] in m && keys[i] in m' && |m[keys[i]]| == |m'[keys[i]]|
    ensures |PairBytes(keys, m)| == |PairBytes(keys, m')|
    ensures PairBytes(keys, m) == PairBytes(keys, m') <==> forall i | 0 <= i < |keys| :: m[keys[i]] == m'[keys[i]]
  {
    if keys != [] {
      var front, k := keys[..|keys| - 1], keys[|keys| - 1];
      PairsAlign(front, m, m');
      var a, b := PairBytes(front, m), PairBytes(front, m');
      SplitSame(a + k, m[k], b + k, m'[k]);
      SplitSame(a, k, b, k);
    }
  }

  lemma SplitSame(a: string, x: string, b: string, y: string)
    requires |x| == |y|
    ensures a + x == b + y <==> a == b && x == y
  {
    if a + x == b + y {
      assert |a| == |b|;
      assert (a + x)[..|a|] == a && (b + y)[..|b|] == b;
      assert (a + x)[|a|..] == x && (b + y)[|b|..] == y;
    }
  }

  lemma OrderedAlign(m: map<string, string>, m': map<string, string>)
    requires m.Keys == m'.Keys && forall k | k in m :: |m[k]| == |m'[k]|
    ensures |OrderedPairBytes(m)| == |OrderedPairBytes(m')|
    ensures OrderedPairBytes(m) == OrderedPairBytes(m') <==> m == m'
  {
    hide Ordered;
    hide PairBytes;
    OrderedKeysIn(m);
    OrderedKeysIn(m');
    var keys := Ordered(m.Keys);
    PairsAlign(keys, m, m');
    if forall i | 0 <= i < |keys| :: m[keys[i]] == m'[keys[i]] {
      forall k | k in m
        ensures m[k] == m'[k]
      {
        assert k in Elements(keys);
      }
    }
  }

  /** The validator's bytes with its write map visited in order. */
  lemma GoBytesAre(args: string, response: string, n: NsRwSet, trace: seq<Event>)
    requires GoodTrace(trace) && Records(n, trace)
    ensures GoBytes(args, response, n) ==
            args + response + Concat(SortStrings(GoReadKeys(n))) + OrderedPairBytes(GoWriteMap(n.writes))
  {
    hide Ordered;
    hide SortStrings;
    hide Concat;
    hide GoReadKeys;
    hide GoWriteMap;
    hide PairBytes;
    hide Records;
    hide GoodTrace;
    GoWriteKeysDistinct(n, trace);
    SortIsOrdered(GoWriteKeys(n.writes));
  }

  /** The validator against the enclave. */
  lemma ValidatorAgreement(args: string, response: string, n: NsRwSet, trace: seq<Event>)
    requires GoodTrace(trace) && Records(n, trace) && SteadyLengths(trace)
    ensures GoBytes(args, response, n) == EnclaveBytes(args, response, trace) <==>
      Distinct(GoReadKeys(n)) && Settled(trace)
  {
    hide Ordered;
    hide SortStrings;
    hide Concat;
    hide ReadSet;
    hide WriteSet;
    hide PeerWrites;
    hide GoReadKeys;
    hide GoWriteMap;
    hide OrderedPairBytes;
    hide GoBytes;
    hide Records;
    hide GoodTrace;
    hide Settled;
    hide FabricKey;
    hide NsEccReads;
    LedgerReadsAgree(n, trace);
    GoBytesAre(args, response, n, trace);
    GoWritesExact(n, trace);
    GoWriteMapIs(n, trace);
    GoReadKeysNonEmpty(n, trace);
    RepetitionShows(GoReadKeys(n));
    forall k | k in WriteSet(trace)
      ensures |GoWriteMap(n.writes)[k]| == |WriteSet(trace)[k]|
    {
      var i, j := PeerValueOf(trace, k);
    }
    OrderedAlign(GoWriteMap(n.writes), WriteSet(trace));
    var r, r' := Concat(SortStrings(GoReadKeys(n))), Concat(Ordered(ReadSet(trace)));
    var w, w' := OrderedPairBytes(GoWriteMap(n.writes)), OrderedPairBytes(WriteSet(trace));
    SplitSame(args + response + r, w, args + response + r', w');
    CancelMiddle(args + response, r, r', "");
    assert args + response + r + "" == args + response + r && args + response + r' + "" == args + response + r';
  }

  /** The ledger against the enclave. */
  lemma LedgerAgreement(args: string, response: string, rws: seq<NsRwSet>, i: nat, trace: seq<Event>)
    requires OnlyEcc(rws, i) && GoodTrace(trace) && Records(rws[i], trace)
    requires FirstPutsAsLongAs(trace, FirstValue(rws[i].writes))
    ensures SignedBytes(Action(args, "ecc", response, Some(rws))) == EnclaveBytes(args, response, trace) <==>
            FirstPutsAre(trace, FirstValue(rws[i].writes))
  {
    hide Ordered;
    hide Concat;
    hide ReadSet;
    hide WriteSet;
    hide OrderedPairBytes;
    hide EccReads;
    hide EccWrites;
    hide NsEccReads;
    hide Records;
    hide GoodTrace;
    hide NameWrites;
    hide GoReadKeys;
    var n := rws[i];
    EccPart(rws, i);
    LedgerReadsAgree(n, trace);
    LedgerWritesExact(n, trace);
    var m, v := NsEccWrites(map[], n), FirstValue(n.writes);
    NameWritesIs(n.writes, v);
    forall k | k in WriteSet(trace)
      ensures |m[k]| == |WriteSet(trace)[k]|
    {
      var i := FirstPutOf(trace, k);
    }
    OrderedAlign(m, WriteSet(trace));
    var a := args + response + Concat(Ordered(ReadSet(trace)));
    SplitSame(a, OrderedPairBytes(m), a, OrderedPairBytes(WriteSet(trace)));
  }

  /** For an invocation with good keys, recorded by the peer. The ledger rebuilds the bytes the
      enclave signed when every first put has the value of the first recorded write, and the
      validator does when no read key comes up twice and no key is put with a last value other
      than its first. As long as the values compared have the same lengths, exactly then. */
  lemma ThreeWayAgreement(args: string, response: string, rws: seq<NsRwSet>, i: nat, trace: seq<Event>)
    requires OnlyEcc(rws, i) && GoodTrace(trace) && Records(rws[i], trace)
    ensures var ledger := SignedBytes(Action(args, "ecc", response, Some(rws))) == EnclaveBytes(args, response, trace);
            var v := FirstValue(rws[i].writes);
            && (FirstPutsAre(trace, v) ==> ledger)
            && (FirstPutsAsLongAs(trace, v) ==> (ledger <==> FirstPutsAre(trace, v)))
    ensures var validator := GoBytes(args, response, rws[i]) == EnclaveBytes(args, response, trace);
            && (Distinct(GoReadKeys(rws[i])) && Settled(trace) ==> validator)
            && (SteadyLengths(trace) ==> (validator <==> Distinct(GoReadKeys(rws[i])) && Settled(trace)))
  {
    hide SignedBytes;
    hide EnclaveBytes;
    hide GoBytes;
    hide GoReadKeys;
    hide Records;
    hide GoodTrace;
    hide FirstPut;
    hide LastPut;
    if FirstPutsAsLongAs(trace, FirstValue(rws[i].writes)) {
      LedgerAgreement(args, response, rws, i, trace);
    }
    if SteadyLengths(trace) {
      ValidatorAgreement(args, response, rws[i], trace);
    }
  }

  // ----- keys put twice -----

  lemma PutSnoc(trace: seq<Event>, k: string, v: string)
    requires PlainName(k)
    ensures GoodTrace(trace) ==> GoodTrace(trace + [Put(k, v)])
    ensures WriteSet(trace + [Put(k, v)]) == InsertString(WriteSet(trace), k, v)
    ensures PeerWrites(trace + [Put(k, v)]) == PeerWrites(trace)[k := v]
    ensures PointKeys(trace + [Put(k, v)]) == PointKeys(trace) && ScannedKeys(trace + [Put(k, v)]) == ScannedKeys(trace)
  {
    hide PlainName;
    PlainTranslations(k);
    assert (trace + [Put(k, v)])[..|trace|] == trace;
  }

  lemma NoEvents()
    ensures GoodTrace([]) && WriteSet([]) == PeerWrites([]) == map[] && PointKeys([]) == ScannedKeys([]) == {}
  {
  }

  lemma PutTwiceRecorded(n: NsRwSet, trace: seq<Event>)
    requires n == NsRwSet("ecc", [], [], [KvWrite("k", "b")])
    requires PeerWrites(trace) == map["k" := "b"] && PointKeys(trace) == ScannedKeys(trace) == {}
    ensures Records(n, trace)
  {
    hide PeerWrites;
    hide PointKeys;
    hide ScannedKeys;
  }

  /** The enclave signs the first value "a", the peer records the last value "b", and the
      validator hashes that one, although no read key comes up twice. */
  lemma PutTwiceDiffers(args: string, response: string)
    ensures var trace := [Put("k", "a"), Put("k", "b")];
            var n := NsRwSet("ecc", [], [], [KvWrite("k", "b")]);
            && GoodTrace(trace) && Records(n, trace) && Distinct(GoReadKeys(n))
            && WriteSet(trace) == map["k" := "a"] && GoWriteMap(n.writes) == map["k" := "b"]
            && GoBytes(args, response, n) != EnclaveBytes(args, response, trace)
  {
    hide WriteSet;
    hide PeerWrites;
    hide PointKeys;
    hide ScannedKeys;
    hide GoodTrace;
    hide Records;
    hide FabricKey;
    hide CString;
    hide EccWriteName;
    hide GoBytes;
    hide EnclaveBytes;
    var trace := [Put("k", "a"), Put("k", "b")];
    var n := NsRwSet("ecc", [], [], [KvWrite("k", "b")]);
    NoEvents();
    PutSnoc([], "k", "a");
    PutSnoc([Put("k", "a")], "k", "b");
    assert [] + [Put("k", "a")] == [Put("k", "a")] && [Put("k", "a")] + [Put("k", "b")] == trace;
    PlainTranslations("k");
    assert n.writes[..0] == [];
    assert FirstPut(trace, 0) && LastPut(trace, 1);
    PutTwiceRecorded(n, trace);
    ValidatorAgreement(args, response, n, trace);
  }

  lemma TwoKeysInOrder(m: map<string, string>)
    requires m.Keys == {"x", "y"}
    ensures OrderedPairBytes(m) == "x" + m["x"] + "y" + m["y"]
  {
    hide Ordered;
    var keys := ["x", "y"];
    assert Less("x", "y");
    assert Elements(keys) == m.Keys;
    AscendingUnique(keys, Ordered(m.Keys));
    OrderedKeysIn(m);
    assert keys[..1] == ["x"] && ["x"][..0] == [];
    assert PairBytes(["x"], m) == "x" + m["x"];
    assert PairBytes(keys, m) == PairBytes(["x"], m) + "y" + m["y"];
  }

  /** Two keys whose first and last values differ, in lengths too. */
  const UNEVEN: seq<Event> := [Put("x", "a"), Put("y", "byc"), Put("x", "ayb"), Put("y", "c")]

  const UNEVEN_RECORD: NsRwSet := NsRwSet("ecc", [], [], [KvWrite("x", "ayb"), KvWrite("y", "c")])

  lemma UnevenRecorded()
    ensures GoodTrace(UNEVEN) && Records(UNEVEN_RECORD, UNEVEN) && !Settled(UNEVEN) && !SteadyLengths(UNEVEN)
  {
    hide WriteSet;
    hide PeerWrites;
    hide PointKeys;
    hide ScannedKeys;
    hide GoodTrace;
    FourPuts();
    assert FirstPut(UNEVEN, 0) && LastPut(UNEVEN, 2) && |UNEVEN[0].value| != |UNEVEN[2].value|;
  }

  lemma UnevenWrites()
    ensures OrderedPairBytes(WriteSet(UNEVEN)) == OrderedPairBytes(GoWriteMap(UNEVEN_RECORD.writes)) == "xaybyc"
  {
    hide WriteSet;
    hide PeerWrites;
    hide GoodTrace;
    hide GoWriteMap;
    hide OrderedPairBytes;
    hide FabricKey;
    hide TransformToSgx;
    hide EccWriteName;
    hide CString;
    hide Settled;
    hide SteadyLengths;
    hide Records;
    FourPuts();
    UnevenRecorded();
    GoWriteMapIs(UNEVEN_RECORD, UNEVEN);
    PlainTranslations("x");
    PlainTranslations("y");
    TwoKeysInOrder(WriteSet(UNEVEN));
    TwoKeysInOrder(GoWriteMap(UNEVEN_RECORD.writes));
    assert "x" + "a" + "y" + "byc" == "xaybyc" == "x" + "ayb" + "y" + "c";
  }

  /** Without the lengths the bytes need not show the difference: the validator hashes what the
      enclave signed, although first and last values differ. */
  lemma UnevenValuesCollide(args: string, response: string)
    ensures GoodTrace(UNEVEN) && Records(UNEVEN_RECORD, UNEVEN) && !Settled(UNEVEN)
    ensures GoBytes(args, response, UNEVEN_RECORD) == EnclaveBytes(args, response, UNEVEN)
  {
    hide WriteSet;
    hide ReadSet;
    hide GoodTrace;
    hide GoBytes;
    hide GoWriteMap;
    hide OrderedPairBytes;
    hide Ordered;
    hide SortStrings;
    hide Concat;
    hide NsEccReads;
    hide Records;
    UnevenRecorded();
    UnevenWrites();
    GoBytesAre(args, response, UNEVEN_RECORD, UNEVEN);
    LedgerReadsAgree(UNEVEN_RECORD, UNEVEN);
    assert GoReadKeys(UNEVEN_RECORD) == [];
    RepetitionShows(GoReadKeys(UNEVEN_RECORD));
  }

  lemma FourPuts()
    ensures GoodTrace(UNEVEN) && PointKeys(UNEVEN) == ScannedKeys(UNEVEN) == {}
    ensures WriteSet(UNEVEN) == map["x" := "a", "y" := "byc"]
    ensures PeerWrites(UNEVEN) == map["x" := "ayb", "y" := "c"]
  {
    hide WriteSet;
    hide PeerWrites;
    hide PointKeys;
    hide ScannedKeys;
    hide GoodTrace;
    var t1, t2 := [Put("x", "a")], [Put("x", "a"), Put("y", "byc")];
    var t3 := [Put("x", "a"), Put("y", "byc"), Put("x", "ayb")];
    NoEvents();
    PutSnoc([], "x", "a");
    assert [] + [Put("x", "a")] == t1;
    PutSnoc(t1, "y", "byc");
    assert t1 + [Put("y", "byc")] == t2;
    PutSnoc(t2, "x", "ayb");
    assert t2 + [Put("x", "ayb")] == t3;
    PutSnoc(t3, "y", "c");
    assert t3 + [Put("y", "c")] == UNEVEN;
  }
}
