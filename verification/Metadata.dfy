/** State metadata: the ledger enclave authenticates a value or a range of values with a MAC
    over the key and a hash, and the chaincode enclave recomputes both from what the peer
    handed it. Hash and MAC are arbitrary functions of the bytes they are fed; where the
    length of a hash matters it is 32 bytes. */
module Metadata {
  import opened Lex
  import opened Keys
  import opened Ledger

  // ----- stripping the chaincode name -----

  /** std::string::find_first_of("."), or the length. */
  function FirstDot(s: string): (i: nat)
    ensures i <= |s| && Free(s[..i], SEP) && (i < |s| ==> s[i] == SEP)
  {
    if s == "" || s[0] == SEP then 0 else
      var i := FirstDot(s[1..]);
      assert s[..i + 1] == [s[0]] + s[1..][..i];
      1 + i
  }

  function EraseBeforeDot(s: string): string {
    if FirstDot(s) < |s| then s[FirstDot(s)..] else s
  }

  function EraseThroughDot(s: string): string {
    if FirstDot(s) < |s| then s[FirstDot(s) + 1..] else s
  }

  lemma FirstDotOfEcc(x: string)
    ensures FirstDot("ecc" + x) == 3 + FirstDot(x)
  {
    assert ("ecc" + x)[1..] == "cc" + x && ("cc" + x)[1..] == "c" + x && ("c" + x)[1..] == x;
  }

  /** Erasing up to the first dot undoes the prefix "ecc" exactly on keys that start with a
      dot. */
  lemma EraseUndoesEcc(x: string)
    ensures EraseBeforeDot("ecc" + x) == x <==> x != "" && x[0] == SEP
  {
    FirstDotOfEcc(x);
    var s := "ecc" + x;
    if x != "" && x[0] == SEP {
      assert s[3..] == x;
    } else if FirstDot(s) < |s| {
      assert |EraseBeforeDot(s)| < |x|;
    }
  }

  // ----- the range scan of the ledger -----

  function Selected(state: Kvs, prefix: string): set<string> {
    set k | k in state && HasPrefix(k, prefix)
  }

  function ScanBytes(keys: seq<string>, state: Kvs): string
    requires forall i | 0 <= i < |keys| :: keys[i] in state
  {
    if keys == [] then ""
    else ScanBytes(keys[..|keys| - 1], state) + EraseBeforeDot(keys[|keys| - 1]) + state[keys[|keys| - 1]].value
  }

  lemma SelectedKeysIn(state: Kvs, prefix: string)
    ensures forall i | 0 <= i < |Ordered(Selected(state, prefix))| :: Ordered(Selected(state, prefix))[i] in state
  {
    var ks := Ordered(Selected(state, prefix));
    assert forall i | 0 <= i < |ks| :: ks[i] in Elements(ks);
  }

  /** What ledger_get_multi_state_hash should hash: the entries with the prefix, in order. */
  function RangeBytes(state: Kvs, prefix: string): string {
    SelectedKeysIn(state, prefix);
    ScanBytes(Ordered(Selected(state, prefix)), state)
  }

  method LowerBound(keys: seq<string>, k: string) returns (lo: nat)
    requires Ascending(keys)
    ensures lo <= |keys|
    ensures forall i | 0 <= i < lo :: Less(keys[i], k)
    ensures forall i | lo <= i < |keys| :: LessEq(k, keys[i])
  {
    lo := 0;
    while lo < |keys| && Less(keys[lo], k)
      invariant lo <= |keys|
      invariant forall i | 0 <= i < lo :: Less(keys[i], k)
    {
      lo := lo + 1;
    }
    forall i | lo <= i < |keys|
      ensures LessEq(k, keys[i])
    {
      LessTotal(keys[lo], k);
      if lo < i && k != keys[lo] { LessTransitive(k, keys[lo], keys[i]); }
    }
  }

  /** A scan over ks from the lower bound of the prefix up to the first key without it. */
  predicate Stretch(ks: seq<string>, prefix: string, lo: nat, hi: nat) {
    && lo <= hi <= |ks|
    && (forall i | 0 <= i < lo :: Less(ks[i], prefix))
    && (forall i | lo <= i < |ks| :: LessEq(prefix, ks[i]))
    && (forall i | lo <= i < hi :: HasPrefix(ks[i], prefix))
    && (hi < |ks| ==> !HasPrefix(ks[hi], prefix))
  }

  lemma StretchMissesNothing(ks: seq<string>, prefix: string, lo: nat, hi: nat, i: nat)
    requires Ascending(ks) && Stretch(ks, prefix, lo, hi) && i < |ks| && HasPrefix(ks[i], prefix)
    ensures lo <= i < hi
  {
    PrefixIsLower(prefix, ks[i]);
    if i < lo {
      LessAsymmetric(ks[i], prefix);
      LessIrreflexive(prefix);
    } else if i > hi {
      PrefixIsContiguous(prefix, ks[hi], ks[i]);
    }
  }

  /** It visits all keys with the prefix, and only those, in order. */
  lemma StretchIsSelected(ks: seq<string>, state: Kvs, prefix: string, lo: nat, hi: nat)
    requires Ascending(ks) && Elements(ks) == state.Keys && Stretch(ks, prefix, lo, hi)
    ensures ks[lo..hi] == Ordered(Selected(state, prefix))
  {
    hide Ordered;
    hide Less;
    var s := ks[lo..hi];
    forall x | x in Selected(state, prefix)
      ensures x in s
    {
      assert x in Elements(ks);
      var i :| 0 <= i < |ks| && ks[i] == x;
      StretchMissesNothing(ks, prefix, lo, hi, i);
      assert s[i - lo] == x;
    }
    assert forall i | 0 <= i < |s| :: s[i] == ks[lo + i] && ks[lo + i] in Elements(ks);
    assert Elements(s) == Selected(state, prefix);
    AscendingUnique(s, Ordered(Selected(state, prefix)));
  }

  lemma ScanSnoc(keys: seq<string>, lo: nat, i: nat, state: Kvs)
    requires lo <= i < |keys| && forall i | 0 <= i < |keys| :: keys[i] in state
    ensures ScanBytes(keys[lo..i + 1], state) ==
      ScanBytes(keys[lo..i], state) + EraseBeforeDot(keys[i]) + state[keys[i]].value
  {
    hide EraseBeforeDot;
    assert keys[lo..i + 1][..i - lo] == keys[lo..i];
  }

  /** ledger_get_multi_state_hash, as the bytes it feeds to the hash. */
  method GetMultiState(state: Kvs, k: string) returns (bytes: string)
    ensures bytes == RangeBytes(state, k)
  {
    hide Ordered;
    hide EraseBeforeDot;
    hide RangeBytes;
    hide Less;
    hide LessEq;
    hide HasPrefix;
    hide Selected;
    var keys := Ordered(state.Keys);
    OrderedKeysIn(state);
    var lo := LowerBound(keys, k);
    var i := lo;
    bytes := "";
    assert keys[lo..lo] == [];
    while i < |keys| && HasPrefix(keys[i], k)
      invariant lo <= i <= |keys|
      invariant forall j | lo <= j < i :: HasPrefix(keys[j], k)
      invariant bytes == ScanBytes(keys[lo..i], state)
    {
      ScanSnoc(keys, lo, i, state);
      bytes := bytes + EraseBeforeDot(keys[i]) + state[keys[i]].value;
      i := i + 1;
    }
    StretchIsSelected(keys, state, k, lo, i);
    RangeBytesIs(state, k);
  }

  lemma RangeBytesIs(state: Kvs, k: string)
    ensures forall i | 0 <= i < |Ordered(Selected(state, k))| :: Ordered(Selected(state, k))[i] in state
    ensures RangeBytes(state, k) == ScanBytes(Ordered(Selected(state, k)), state)
  {
    SelectedKeysIn(state, k);
  }

  // ----- agreement with the chaincode enclave -----

  /** The peer returned exactly the entries of the ledger state under the key. */
  ghost predicate SameRange(state: Kvs, compKey: string, values: map<string, string>) {
    && (forall x :: x in values <==> HasPrefix(x, compKey) && "ecc" + x in state)
    && forall x | x in values :: values[x] == state["ecc" + x].value
  }

  function WithEcc(keys: seq<string>): (r: seq<string>)
    ensures |r| == |keys| && forall i | 0 <= i < |keys| :: r[i] == "ecc" + keys[i]
  {
    seq(|keys|, i requires 0 <= i < |keys| => "ecc" + keys[i])
  }

  lemma EccPrefix(x: string, compKey: string)
    ensures HasPrefix("ecc" + x, "ecc" + compKey) <==> HasPrefix(x, compKey)
  {
    if |compKey| <= |x| {
      assert ("ecc" + x)[..3 + |compKey|] == "ecc" + x[..|compKey|];
      assert ("ecc" + x[..|compKey|])[3..] == x[..|compKey|] && ("ecc" + compKey)[3..] == compKey;
    }
  }

  /** Putting "ecc" in front of the enclave's keys gives the ledger's keys in the same order. */
  lemma SameOrder(state: Kvs, compKey: string, values: map<string, string>)
    requires SameRange(state, compKey, values)
    ensures WithEcc(Ordered(values.Keys)) == Ordered(Selected(state, "ecc" + compKey))
  {
    hide Ordered;
    var vs := Ordered(values.Keys);
    var a := WithEcc(vs);
    forall i, j | 0 <= i < j < |a|
      ensures Less(a[i], a[j])
    {
      LessUnderPrefix("ecc", vs[i], vs[j]);
    }
    forall k | k in a
      ensures k in Selected(state, "ecc" + compKey)
    {
      var i :| 0 <= i < |a| && a[i] == k;
      assert vs[i] in Elements(vs);
      EccPrefix(vs[i], compKey);
    }
    forall k | k in Selected(state, "ecc" + compKey)
      ensures k in a
    {
      var x := k[3..];
      assert k[..3] == k[..3 + |compKey|][..3] == "ecc";
      assert k == "ecc" + x;
      EccPrefix(x, compKey);
      assert x in Elements(vs);
      var i :| 0 <= i < |vs| && vs[i] == x;
      assert a[i] == k;
    }
    assert Elements(a) == Selected(state, "ecc" + compKey);
    AscendingUnique(a, Ordered(Selected(state, "ecc" + compKey)));
  }

  lemma {:induction false} SameBytes(keys: seq<string>, state: Kvs, values: map<string, string>)
    requires forall i | 0 <= i < |keys| ::
               keys[i] in values && "ecc" + keys[i] in state && values[keys[i]] == state["ecc" + keys[i]].value &&
                 keys[i] != "" && keys[i][0] == SEP
    ensures ScanBytes(WithEcc(keys), state) == PairBytes(keys, values)
  {
    hide EraseBeforeDot;
    if keys != [] {
      var front, last := keys[..|keys| - 1], keys[|keys| - 1];
      assert WithEcc(keys)[..|keys| - 1] == WithEcc(front);
      SameBytes(front, state, values);
      EraseUndoesEcc(last);
    }
  }

  /** The two range hashes are over the same bytes. */
  lemma RangeAgreement(state: Kvs, compKey: string, values: map<string, string>)
    requires compKey != "" && compKey[0] == SEP && SameRange(state, compKey, values)
    ensures RangeBytes(state, "ecc" + compKey) == OrderedPairBytes(values)
  {
    hide Ordered;
    hide ScanBytes;
    hide PairBytes;
    var keys := Ordered(values.Keys);
    SameOrder(state, compKey, values);
    OrderedKeysIn(values);
    forall i | 0 <= i < |keys|
      ensures keys[i] != "" && keys[i][0] == SEP
    {
      assert keys[i] in values && HasPrefix(keys[i], compKey);
      assert keys[i][0] == keys[i][..|compKey|][0];
    }
    SameBytes(keys, state, values);
    RangeBytesIs(state, "ecc" + compKey);
  }

  // ----- the MACed bytes -----

  type Hash = string -> string

  /** ecall_get_multi_state_metadata. */
  function LedgerRangeMac(sha: Hash, state: Kvs, k: string): string {
    EraseBeforeDot(k) + sha(RangeBytes(state, k))
  }

  /** check_cmac in get_state_by_partial_composite_key. */
  function EnclaveRangeMac(sha: Hash, compKey: string, values: map<string, string>): string {
    compKey + sha(OrderedPairBytes(values))
  }

  /** For a delimited key both enclaves authenticate the same bytes. */
  lemma RangeMacAgreement(sha: Hash, state: Kvs, compKey: string, values: map<string, string>)
    requires IsSgxCompositeKey(compKey) && SameRange(state, compKey, values)
    ensures LedgerRangeMac(sha, state, "ecc" + compKey) == EnclaveRangeMac(sha, compKey, values)
  {
    hide RangeBytes;
    hide OrderedPairBytes;
    RangeAgreement(state, compKey, values);
    EraseUndoesEcc(compKey);
  }

  const NO_HASH: string := seq(32, _ => NUL)

  /** A hash of 32 bytes, as SHA-256 gives. */
  ghost predicate IsSha256(sha: Hash) {
    forall x :: |sha(x)| == 32
  }

  /** The key the peer asks the ledger enclave about: the chaincode's key translated, under
      the namespace, and cut where the C string that carries it ends. */
  function AskedKey(key: string): string {
    CString("ecc." + FabricKey(key))
  }

  /** What an honest peer answers for a key: the value the ledger has for it, or nothing. */
  function PeerValue(state: Kvs, key: string): string {
    var k := EccKey(FabricKey(key));
    if k in state then state[k].value else ""
  }

  /** ecall_get_state_metadata for the key the peer passes on. */
  function LedgerPointMac(sha: Hash, state: Kvs, k: string): string {
    EraseThroughDot(k) + if k in state then sha(state[k].value) else NO_HASH
  }

  /** check_cmac in get_state; the peer answers an absent key with the empty value. */
  function EnclavePointMac(sha: Hash, key: string, val: string): string {
    key + if val != "" then sha(val) else NO_HASH
  }

  lemma PlainAskedKey(key: string)
    requires Free(key, NUL) && !IsSgxCompositeKey(key)
    ensures AskedKey(key) == EccKey(FabricKey(key)) == "ecc." + key && EraseThroughDot("ecc." + key) == key
  {
    hide CString;
    assert Free("ecc." + key, NUL);
    CStringOfNulFree("ecc." + key);
    CStringOfNulFree(key);
    assert key != "" ==> key[0] in key;
    assert "ecc." + key == "ecc" + ("." + key);
    FirstDotOfEcc("." + key);
    assert ("ecc." + key)[4..] == key;
  }

  /** The Fabric form of a delimited key starts with NUL, so nothing of it gets through. */
  lemma DelimitedAskedKey(key: string)
    requires Free(key, NUL) && IsSgxCompositeKey(key) && |key| >= 2
    ensures AskedKey(key) == "ecc." && EraseThroughDot("ecc.") == ""
  {
    hide CString;
    hide Marked;
    SplitOfDelimited(key);
    var comps := SplitSgxCompositeKey(key).value;
    assert Free(Marked(comps, SEP), NUL) by { assert key[1..] == Marked(comps, SEP); }
    MarkedFree(comps, NUL);
    FabricKeyOf(comps);
    var rest := Marked(comps, NUL);
    assert "ecc." + ([NUL] + rest) == "ecc." + [NUL] + rest;
    CStringStops("ecc.", rest);
    assert "ecc." == "ecc" + ".";
    FirstDotOfEcc(".");
  }

  /** For a point read the two enclaves authenticate the same bytes exactly when the key is
      not delimited and its value is not a stored empty string (unless the hash of nothing is
      the zero block). The key "." alone makes the peer panic. */
  lemma PointMacExact(sha: Hash, state: Kvs, key: string)
    requires IsSha256(sha) && Free(key, NUL) && key != "."
    ensures LedgerPointMac(sha, state, AskedKey(key)) == EnclavePointMac(sha, key, PeerValue(state, key)) <==>
            && !IsSgxCompositeKey(key)
            && ("ecc." + key in state && state["ecc." + key].value == "" ==> sha("") == NO_HASH)
  {
    hide CString;
    hide FabricKey;
    hide EccKey;
    hide EraseThroughDot;
    var a := LedgerPointMac(sha, state, AskedKey(key));
    var b := EnclavePointMac(sha, key, PeerValue(state, key));
    if IsSgxCompositeKey(key) {
      DelimitedAskedKey(key);
      assert |a| == 32 && |b| == |key| + 32;
    } else {
      PlainAskedKey(key);
      assert a[..|key|] == key && b[..|key|] == key;
      assert a == key + a[|key|..] && b == key + b[|key|..];
    }
  }

  /** A stored empty value: the enclave compares with the zero block, the ledger has hashed
      the empty string. */
  lemma EmptyValueDiffers(sha: Hash, v: Version)
    requires IsSha256(sha) && sha("") != NO_HASH
    ensures var state: Kvs := map["ecc.k" := Entry("", v)];
            LedgerPointMac(sha, state, AskedKey("k")) != EnclavePointMac(sha, "k", PeerValue(state, "k"))
  {
    hide CString;
    assert "ecc." + "k" == "ecc.k";
    PointMacExact(sha, map["ecc.k" := Entry("", v)], "k");
  }

  /** A delimited key, on any state: the ledger authenticates the empty key instead. */
  lemma DelimitedKeyDiffers(sha: Hash, state: Kvs)
    requires IsSha256(sha)
    ensures AskedKey(".x.") == "ecc."
    ensures LedgerPointMac(sha, state, AskedKey(".x.")) != EnclavePointMac(sha, ".x.", PeerValue(state, ".x."))
  {
    hide CString;
    DelimitedAskedKey(".x.");
    PointMacExact(sha, state, ".x.");
  }
}
