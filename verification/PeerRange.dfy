/** The range an honest peer hands to the chaincode enclave against the range the ledger
    enclave hashes: Fabric keeps plain and composite keys apart, the ledger does not. */
module PeerRange {
  import opened Lex
  import opened Keys
  import opened Ledger
  import opened Metadata

  predicate IsComponents(c: seq<string>) {
    c != [] && AllFree(c, SEP) && AllFree(c, NUL)
  }

  /** The composite key of the components in the chaincode's form. */
  function Sgx(c: seq<string>): string {
    [SEP] + Marked(c, SEP)
  }

  /** The same in Fabric's form. */
  function Fabric(c: seq<string>): string {
    [NUL] + Marked(c, NUL)
  }

  /** A key the peer stores for the chaincode, which passes C strings. */
  ghost predicate Storable(f: string) {
    exists key :: key != "" && Free(key, NUL) && FabricKey(key) == f
  }

  /** The ledger holds the peer's state: one entry for each stored key, with its value. */
  ghost predicate Mirrors(state: Kvs, world: map<string, string>) {
    && (forall f | f in world :: Storable(f) && EccKey(f) in state && state[EccKey(f)].value == world[f])
    && (forall f, g | f in world && g in world && EccKey(f) == EccKey(g) :: f == g)
    && forall k | k in state && HasPrefix(k, "ecc.") :: exists f :: f in world && EccKey(f) == k
  }

  /** The key lies in the peer's range or in the ledger's. */
  predicate Concerned(f: string, compKey: string) {
    HasPrefix(f, FabricKey(compKey)) || HasPrefix(EccKey(f), "ecc" + compKey)
  }

  /** A composite key without an empty component. */
  ghost predicate Whole(f: string) {
    exists c :: IsComponents(c) && AllNonEmpty(c) && f == Fabric(c)
  }

  // ----- keys and components -----

  lemma PrefixCons(x: char, a: string, b: string)
    ensures HasPrefix([x] + a, [x] + b) <==> HasPrefix(a, b)
  {
    if |b| <= |a| {
      assert ([x] + a)[..1 + |b|] == [x] + a[..|b|];
      assert ([x] + a[..|b|])[1..] == a[..|b|] && ([x] + b)[1..] == b;
    }
  }

  lemma SgxPrefix(c: seq<string>, p: seq<string>)
    requires AllFree(c, SEP) && AllFree(p, SEP)
    ensures HasPrefix(Sgx(c), Sgx(p)) <==> p <= c
  {
    PrefixCons(SEP, Marked(c, SEP), Marked(p, SEP));
    PrefixOfComponents(p, c, SEP);
  }

  lemma SgxInjective(c: seq<string>, p: seq<string>)
    requires AllFree(c, SEP) && AllFree(p, SEP) && Sgx(c) == Sgx(p)
    ensures c == p
  {
    hide Sgx;
    SgxPrefix(c, p);
    SgxPrefix(p, c);
  }

  lemma FabricPrefix(c: seq<string>, p: seq<string>)
    requires AllFree(c, NUL) && AllFree(p, NUL)
    ensures HasPrefix(Fabric(c), Fabric(p)) <==> p <= c
  {
    PrefixCons(NUL, Marked(c, NUL), Marked(p, NUL));
    PrefixOfComponents(p, c, NUL);
  }

  lemma FabricInjective(c: seq<string>, p: seq<string>)
    requires AllFree(c, NUL) && AllFree(p, NUL) && Fabric(c) == Fabric(p)
    ensures c == p
  {
    hide Fabric;
    FabricPrefix(c, p);
    FabricPrefix(p, c);
  }

  lemma Translated(c: seq<string>)
    requires IsComponents(c)
    ensures FabricKey(Sgx(c)) == Fabric(c) && TransformToSgx(Fabric(c)) == Sgx(c)
  {
    FabricKeyOf(c);
    SgxOfMarked(c);
    assert Fabric(c)[1..] == Marked(c, NUL);
  }

  /** A stored key is plain, or the composite key of its components. */
  lemma ShapeOf(f: string) returns (c: seq<string>)
    requires Storable(f)
    ensures if c == [] then f != "" && Free(f, NUL) else IsComponents(c) && f == Fabric(c)
  {
    var key :| key != "" && Free(key, NUL) && FabricKey(key) == f;
    c := [];
    if IsSgxCompositeKey(key) && |key| >= 2 {
      SplitOfDelimited(key);
      c := SplitSgxCompositeKey(key).value;
      MarkedFree(c, NUL);
      assert key[1..] == Marked(c, SEP);
    } else if IsSgxCompositeKey(key) {
      assert key == [SEP] && Split(key) == ["", ""];
    }
  }

  // ----- the ledger's key -----

  /** The components before the first empty one. */
  function Leading(c: seq<string>): (r: seq<string>)
    ensures r <= c && AllNonEmpty(r)
  {
    if c == [] || c[0] == "" then [] else
      var r := Leading(c[1..]);
      assert c == [c[0]] + c[1..];
      [c[0]] + r
  }

  lemma {:induction false} LeadingOfPrefix(p: seq<string>, c: seq<string>)
    requires p <= c && AllNonEmpty(p)
    ensures p <= Leading(c)
  {
    if p != [] {
      assert p[0] == c[0] != "" && c[1..][..|p| - 1] == p[1..];
      assert p == [p[0]] + p[1..];
      LeadingOfPrefix(p[1..], c[1..]);
    }
  }

  lemma LeadingOfWhole(c: seq<string>)
    requires AllNonEmpty(c)
    ensures Leading(c) == c
  {
    LeadingOfPrefix(c, c);
    assert c == Leading(c)[..|c|];
  }

  lemma {:induction false} ScanIsLeading(c: seq<string>)
    requires AllFree(c, NUL)
    ensures ScanComponents(Marked(c, NUL)) == Marked(Leading(c), SEP)
  {
    if c != [] {
      var rest := Marked(c[1..], NUL);
      CStringStops(c[0], rest);
      if c[0] != "" {
        assert Marked(c, NUL)[|c[0]| + 1..] == rest;
        ScanIsLeading(c[1..]);
        assert Leading(c)[1..] == Leading(c[1..]);
      }
    }
  }

  /** The ledger stores a composite key under its components up to an empty one. */
  lemma LedgerKeyOf(c: seq<string>)
    requires AllFree(c, NUL)
    ensures EccKey(Fabric(c)) == "ecc" + Sgx(Leading(c))
  {
    hide ScanComponents;
    hide Marked;
    hide Leading;
    ScanIsLeading(c);
    assert Fabric(c)[1..] == Marked(c, NUL);
    assert "ecc" + ([SEP] + Marked(Leading(c), SEP)) == "ecc." + Marked(Leading(c), SEP);
  }

  lemma LedgerKeyOfPlain(f: string)
    requires f != "" && Free(f, NUL)
    ensures EccKey(f) == "ecc" + ([SEP] + f)
  {
    CStringOfNulFree(f);
    assert f[0] in f;
    assert "ecc" + ([SEP] + f) == "ecc." + f;
  }

  lemma SameAfterEcc(x: string, y: string)
    requires "ecc" + x == "ecc" + y
    ensures x == y
  {
    assert ("ecc" + x)[3..] == x && ("ecc" + y)[3..] == y;
  }

  // ----- the peer's range -----

  lemma PeerRangeHas(world: map<string, string>, p: seq<string>, c: seq<string>)
    requires (forall f | f in world :: Storable(f)) && IsComponents(p) && IsComponents(c)
    ensures Sgx(c) in RangeQuery(world, Sgx(p)) <==> p <= c && Fabric(c) in world
    ensures p <= c && Fabric(c) in world ==> RangeQuery(world, Sgx(p))[Sgx(c)] == world[Fabric(c)]
  {
    hide Sgx;
    hide Fabric;
    hide FabricKey;
    hide Storable;
    hide HasPrefix;
    Translated(p);
    Translated(c);
    FabricPrefix(c, p);
    var x := Sgx(c);
    if x in RangeQuery(world, Sgx(p)) {
      var f := FabricOf(world, Sgx(p), x);
      var d := CompositeInRange(f, p);
      Translated(d);
      SgxInjective(d, c);
    }
  }

  lemma CompositeInRange(f: string, p: seq<string>) returns (d: seq<string>)
    requires Storable(f) && IsComponents(p) && HasPrefix(f, Fabric(p))
    ensures IsComponents(d) && f == Fabric(d) && p <= d
  {
    hide Storable;
    d := ShapeOf(f);
    assert f[0] == f[..|Fabric(p)|][0] == NUL;
    assert d != [] by { assert f[0] in f; }
    FabricPrefix(d, p);
  }

  lemma PeerRangeIs(world: map<string, string>, p: seq<string>, x: string) returns (c: seq<string>)
    requires (forall f | f in world :: Storable(f)) && IsComponents(p) && x in RangeQuery(world, Sgx(p))
    ensures IsComponents(c) && x == Sgx(c) && p <= c && Fabric(c) in world
  {
    hide Sgx;
    hide Fabric;
    hide FabricKey;
    hide Storable;
    hide HasPrefix;
    Translated(p);
    c := CompositeInRange(FabricOf(world, Sgx(p), x), p);
    Translated(c);
  }

  // ----- when the two ranges agree -----

  lemma WholeComponents(c: seq<string>)
    requires IsComponents(c) && Whole(Fabric(c))
    ensures AllNonEmpty(c) && EccKey(Fabric(c)) == "ecc" + Sgx(c)
  {
    hide EccKey;
    hide Sgx;
    hide Fabric;
    var d :| IsComponents(d) && AllNonEmpty(d) && Fabric(c) == Fabric(d);
    FabricInjective(c, d);
    LeadingOfWhole(c);
    LedgerKeyOf(c);
  }

  lemma ConcernedComposite(c: seq<string>, p: seq<string>)
    requires IsComponents(c) && IsComponents(p)
    ensures Concerned(Fabric(c), Sgx(p)) <==> p <= c
  {
    hide EccKey;
    hide Sgx;
    hide Fabric;
    hide FabricKey;
    hide HasPrefix;
    Translated(p);
    FabricPrefix(c, p);
    LedgerKeyOf(c);
    EccPrefix(Sgx(Leading(c)), Sgx(p));
    SgxPrefix(Leading(c), p);
  }

  /** Where every stored key of either range is whole the peer's range is the ledger's. */
  lemma WholeRangesAgree(state: Kvs, world: map<string, string>, p: seq<string>)
    requires Mirrors(state, world) && IsComponents(p)
    requires forall f | f in world && Concerned(f, Sgx(p)) :: Whole(f)
    ensures SameRange(state, Sgx(p), RangeQuery(world, Sgx(p)))
  {
    hide RangeQuery;
    hide EccKey;
    hide Sgx;
    hide Fabric;
    hide FabricKey;
    hide Storable;
    var values := RangeQuery(world, Sgx(p));
    forall x | x in values
      ensures HasPrefix(x, Sgx(p)) && "ecc" + x in state && values[x] == state["ecc" + x].value
    {
      var c := PeerRangeIs(world, p, x);
      PeerRangeHas(world, p, c);
      Translated(p);
      FabricPrefix(c, p);
      WholeComponents(c);
      SgxPrefix(c, p);
    }
    forall x | HasPrefix(x, Sgx(p)) && "ecc" + x in state
      ensures x in values
    {
      LedgerEntryInPeerRange(state, world, p, x);
    }
  }

  lemma EccDot(x: string, p: seq<string>)
    requires HasPrefix(x, Sgx(p))
    ensures HasPrefix("ecc" + x, "ecc.")
  {
    assert x[0] == x[..|Sgx(p)|][0] == SEP;
    assert ("ecc" + x)[..4] == "ecc.";
  }

  lemma LedgerEntryInPeerRange(state: Kvs, world: map<string, string>, p: seq<string>, x: string)
    requires Mirrors(state, world) && IsComponents(p)
    requires forall f | f in world && Concerned(f, Sgx(p)) :: Whole(f)
    requires HasPrefix(x, Sgx(p)) && "ecc" + x in state
    ensures x in RangeQuery(world, Sgx(p))
  {
    hide RangeQuery;
    hide EccKey;
    hide Sgx;
    hide Fabric;
    hide FabricKey;
    hide Storable;
    EccDot(x, p);
    var f :| f in world && EccKey(f) == "ecc" + x;
    EccPrefix(x, Sgx(p));
    var c :| IsComponents(c) && AllNonEmpty(c) && f == Fabric(c);
    WholeComponents(c);
    SameAfterEcc(x, Sgx(c));
    SgxPrefix(c, p);
    PeerRangeHas(world, p, c);
  }

  /** Where the ranges agree a composite key in the peer's range has no empty component. */
  lemma AgreementIsWhole(state: Kvs, world: map<string, string>, p: seq<string>, c: seq<string>)
    requires Mirrors(state, world) && IsComponents(p) && AllNonEmpty(p) && IsComponents(c)
    requires SameRange(state, Sgx(p), RangeQuery(world, Sgx(p)))
    requires p <= c && Fabric(c) in world
    ensures AllNonEmpty(c)
  {
    hide RangeQuery;
    hide EccKey;
    hide Sgx;
    hide Fabric;
    hide FabricKey;
    hide Storable;
    hide HasPrefix;
    var l := Leading(c);
    LedgerKeyOf(c);
    LeadingOfPrefix(p, c);
    SgxPrefix(l, p);
    var d := PeerRangeIs(world, p, Sgx(l));
    SgxInjective(d, l);
    LeadingOfWhole(l);
    LedgerKeyOf(l);
    FabricInjective(l, c);
  }

  /** Where the ranges agree no plain key lies in the ledger's. */
  lemma AgreementHasNoPlain(state: Kvs, world: map<string, string>, p: seq<string>, f: string)
    requires Mirrors(state, world) && IsComponents(p) && AllNonEmpty(p)
    requires SameRange(state, Sgx(p), RangeQuery(world, Sgx(p)))
    requires f in world && f != "" && Free(f, NUL)
    ensures !Concerned(f, Sgx(p))
  {
    hide RangeQuery;
    hide EccKey;
    hide Sgx;
    hide FabricKey;
    hide Storable;
    hide HasPrefix;
    Translated(p);
    PlainNotInRange(f, p);
    LedgerKeyOfPlain(f);
    var x := [SEP] + f;
    EccPrefix(x, Sgx(p));
    if HasPrefix(x, Sgx(p)) {
      var c := PeerRangeIs(world, p, x);
      AgreementIsWhole(state, world, p, c);
      LeadingOfWhole(c);
      LedgerKeyOf(c);
    }
  }

  lemma PlainNotInRange(f: string, p: seq<string>)
    requires f != "" && Free(f, NUL)
    ensures !HasPrefix(f, Fabric(p))
  {
    assert f[0] in f;
    assert Fabric(p)[0] == NUL;
  }

  /** An honest peer's range is the ledger's exactly when every stored key in either of them
      is a composite key without an empty component. */
  lemma PeerRangeExact(state: Kvs, world: map<string, string>, p: seq<string>)
    requires Mirrors(state, world) && IsComponents(p) && AllNonEmpty(p)
    ensures SameRange(state, Sgx(p), RangeQuery(world, Sgx(p))) <==>
            forall f | f in world && Concerned(f, Sgx(p)) :: Whole(f)
  {
    hide RangeQuery;
    hide EccKey;
    hide Sgx;
    hide Fabric;
    hide FabricKey;
    hide Storable;
    hide HasPrefix;
    hide SameRange;
    hide Concerned;
    if SameRange(state, Sgx(p), RangeQuery(world, Sgx(p))) {
      forall f | f in world && Concerned(f, Sgx(p))
        ensures Whole(f)
      {
        var c := ShapeOf(f);
        if c == [] {
          AgreementHasNoPlain(state, world, p, f);
          assert false;
        }
        ConcernedComposite(c, p);
        AgreementIsWhole(state, world, p, c);
      }
    } else if forall f | f in world && Concerned(f, Sgx(p)) :: Whole(f) {
      WholeRangesAgree(state, world, p);
    }
  }

  /** A plain key in the range of a prefix: the ledger hashes it, Fabric leaves it out. */
  lemma PlainKeyBreaks(key: string, p: seq<string>, value: string, version: Version)
    requires key != "" && Free(key, NUL) && FabricKey(key) == key
    requires IsComponents(p) && AllNonEmpty(p) && HasPrefix([SEP] + key, Sgx(p))
    ensures var world, state := map[key := value], map["ecc." + key := Entry(value, version)];
            Mirrors(state, world) && !SameRange(state, Sgx(p), RangeQuery(world, Sgx(p)))
  {
    hide RangeQuery;
    hide EccKey;
    hide Sgx;
    hide FabricKey;
    hide HasPrefix;
    hide SameRange;
    var world, state := map[key := value], map["ecc." + key := Entry(value, version)];
    LedgerKeyOfPlain(key);
    assert "ecc" + ([SEP] + key) == "ecc." + key;
    assert Storable(key);
    EccPrefix([SEP] + key, Sgx(p));
    if SameRange(state, Sgx(p), RangeQuery(world, Sgx(p))) {
      AgreementHasNoPlain(state, world, p, key);
    }
  }

  /** The plain key somePrefix.a.z lies among the keys of the bids in auction a. */
  lemma PlainKeyAmongBids(value: string, version: Version)
    ensures var world, state := map["somePrefix.a.z" := value], map["ecc.somePrefix.a.z" := Entry(value, version)];
            Mirrors(state, world) && !SameRange(state, ".somePrefix.a.", RangeQuery(world, ".somePrefix.a."))
  {
    hide RangeQuery;
    hide SameRange;
    hide Mirrors;
    var key, p := "somePrefix.a.z", ["somePrefix", "a"];
    assert p[1..] == ["a"] && ["a"][1..] == [];
    assert Marked(["a"], SEP) == "a.";
    assert Sgx(p) == ".somePrefix.a.";
    assert HasPrefix([SEP] + key, ".somePrefix.a.");
    assert "ecc." + key == "ecc.somePrefix.a.z";
    PlainKeyBreaks(key, p, value, version);
  }
}
