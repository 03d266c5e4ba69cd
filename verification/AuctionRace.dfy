/** Two bids of one bidder, endorsed on the same state and ordered into one block. */
module AuctionRace {
  import opened Options
  import opened Keys
  import opened Ledger
  import opened LedgerRuns
  import opened Serializability
  import opened Auction
  import opened AuctionRuns
  import opened AuctionLedger

  /** Three stored values: the open auction and the two bids. */
  const OPEN := "O"
  const FIRST := "1"
  const SECOND := "2"

  function Decode(a: string, b: string): Reader {
    (s: string) => if s == OPEN then AuctionRecord(a, true) else BidRecord(b, if s == FIRST then 1 else 2)
  }

  function CreateSet(a: string): NsRwSet {
    NsRwSet("ecc", [], [KvRead(a, ZERO)], [KvWrite(a, OPEN)])
  }

  /** A bid made after the auction was created by the first transaction of block 1. */
  function BidSet(a: string, b: string, value: string): NsRwSet {
    NsRwSet("ecc", [], [KvRead(a, Version(1, 0))], [KvWrite(FabricKey(BidKey(a, b)), value)])
  }

  function Rebid(a: string, b: string): seq<Block> {
    [Block(0, true, [], [Config]),
     Block(1, true, [], [OneAction(CreateSet(a))]),
     Block(2, true, [], [OneAction(BidSet(a, b, FIRST)), OneAction(BidSet(a, b, SECOND))])]
  }

  /** Every transaction ran on the state before its block. */
  function Heights(): (nat, nat) -> nat {
    (n: nat, k: nat) => n
  }

  function RebidCalls(a: string, b: string): Calls {
    (n: nat, k: nat) =>
      if n == 1 then Some(Call(Create(a), map[]))
      else Some(Call(Submit(a, b, k + 1), map[a := AuctionRecord(a, true)]))
  }

  lemma NameChecks(n: NsRwSet, a: string, v: Version)
    requires GoodName(a) && n.ns == "ecc" && n.rangeReads == [] && n.pointReads == [KvRead(a, v)]
    ensures Checks([n]) == [KvRead(AuctionKey(a), v)]
  {
    hide CString;
    CStringOfNulFree(a);
    assert "ecc" + "." + a == AuctionKey(a);
    OneNamespace(n);
    assert n.pointReads[..0] == [];
    assert PointChecks("ecc", n.pointReads) == [KvRead(AuctionKey(a), v)];
    assert RangeChecks("ecc", n.rangeReads) == [];
  }

  lemma CreateSets(a: string)
    requires GoodName(a)
    ensures Checks([CreateSet(a)]) == [KvRead(AuctionKey(a), ZERO)]
    ensures Effects([CreateSet(a)]) == [KvWrite(AuctionKey(a), OPEN)]
  {
    hide EccKey;
    NameChecks(CreateSet(a), a, ZERO);
    OneEccEffect(CreateSet(a));
    PlainKey(a);
    EccKeyOfName(a);
  }

  lemma BidSets(a: string, b: string, value: string)
    requires GoodName(a) && GoodName(b)
    ensures Checks([BidSet(a, b, value)]) == [KvRead(AuctionKey(a), Version(1, 0))]
    ensures Effects([BidSet(a, b, value)]) == [KvWrite(BidLedgerKey(a, b), value)]
  {
    hide EccKey;
    hide FabricKey;
    hide BidKey;
    NameChecks(BidSet(a, b, value), a, Version(1, 0));
    OneEccEffect(BidSet(a, b, value));
    EccKeyOfBid(a, b);
  }

  lemma RebidUnits(a: string, b: string)
    ensures Units(Rebid(a, b)[0]) == []
    ensures Units(Rebid(a, b)[1]) == [Unit([CreateSet(a)], Version(1, 0))]
    ensures Units(Rebid(a, b)[2]) ==
            [Unit([BidSet(a, b, FIRST)], Version(2, 0)), Unit([BidSet(a, b, SECOND)], Version(2, 1))]
  {
    hide FabricKey;
    hide BidKey;
    hide Units;
    ConfigBlock(Rebid(a, b)[0]);
    OneActionBlock(Rebid(a, b)[1], CreateSet(a));
    TwoActionBlock(Rebid(a, b)[2], BidSet(a, b, FIRST), BidSet(a, b, SECOND));
  }

  /** One unit whose reads are valid and that writes one new key. */
  lemma OneUnit(state: Kvs, u: Unit, w: KvWrite)
    requires ReadsValid(state, map[], Checks(u.rws)) && Effects(u.rws) == [w]
    ensures ApplyUnits(state, map[], [u]) == map[w.key := Entry(w.value, u.version)]
  {
    hide Checks;
    hide Effects;
    hide InsertAll;
    ApplyOne(state, map[], u);
    InsertAllSnoc(map[], [], w, u.version);
    InsertNone(map[], u.version);
    assert [] + [w] == [w];
  }

  lemma RebidStates(a: string, b: string)
    requires GoodName(a)
    ensures StateAfter(Rebid(a, b), 0) == StateAfter(Rebid(a, b), 1) == map[]
    ensures StateAfter(Rebid(a, b), 2) == map[AuctionKey(a) := Entry(OPEN, Version(1, 0))]
  {
    hide Units;
    hide Checks;
    hide Effects;
    hide ApplyUnits;
    hide AuctionKey;
    RebidUnits(a, b);
    CreateSets(a);
    ApplyNone(map[]);
    OneUnit(map[], Unit([CreateSet(a)], Version(1, 0)), KvWrite(AuctionKey(a), OPEN));
  }

  lemma RebidPending(a: string, b: string)
    requires GoodName(a) && GoodName(b)
    ensures var state, us := StateAfter(Rebid(a, b), 2), Units(Rebid(a, b)[2]);
            && |us| == 2 && Pending(state, us, 0) == map[]
            && Pending(state, us, 1) == map[BidLedgerKey(a, b) := Entry(FIRST, Version(2, 0))]
  {
    hide Units;
    hide Checks;
    hide Effects;
    hide ApplyUnits;
    hide AuctionKey;
    hide BidLedgerKey;
    hide StateAfter;
    RebidUnits(a, b);
    RebidStates(a, b);
    BidSets(a, b, FIRST);
    var state, us := StateAfter(Rebid(a, b), 2), Units(Rebid(a, b)[2]);
    assert us[..0] == [] && us[..1] == [us[0]];
    ApplyNone(state);
    OneUnit(state, us[0], KvWrite(BidLedgerKey(a, b), FIRST));
  }

  lemma RebidCallsRan(a: string, b: string)
    requires GoodName(a) && GoodName(b)
    ensures IsRwSetOf([CreateSet(a)], Call(Create(a), map[]), Decode(a, b))
    ensures var world: World := map[a := AuctionRecord(a, true)];
            && IsRwSetOf([BidSet(a, b, FIRST)], Call(Submit(a, b, 1), world), Decode(a, b))
            && IsRwSetOf([BidSet(a, b, SECOND)], Call(Submit(a, b, 2), world), Decode(a, b))
            && Succeeds(Call(Submit(a, b, 1), world)) && Succeeds(Call(Submit(a, b, 2), world))
    ensures Succeeds(Call(Create(a), map[]))
  {
    hide BidKey;
    PlainKey(a);
    hide FabricKey;
    var world: World := map[a := AuctionRecord(a, true)];
    assert Lookup(world, a) == Some(AuctionRecord(a, true));
    assert Writes(Call(Create(a), map[])) == map[a := AuctionRecord(a, true)];
    assert Writes(Call(Submit(a, b, 1), world)) == map[BidKey(a, b) := BidRecord(b, 1)];
    assert Writes(Call(Submit(a, b, 2), world)) == map[BidKey(a, b) := BidRecord(b, 2)];
    assert a in Writes(Call(Create(a), map[]));
    assert BidKey(a, b) in Writes(Call(Submit(a, b, 1), world));
    assert BidKey(a, b) in Writes(Call(Submit(a, b, 2), world));
  }

  lemma RebidSurvives(a: string, b: string)
    requires GoodName(a) && GoodName(b)
    ensures |Units(Rebid(a, b)[1])| == 1 && Survives(Rebid(a, b), 1, 0)
    ensures |Units(Rebid(a, b)[2])| == 2 && Survives(Rebid(a, b), 2, 0) && Survives(Rebid(a, b), 2, 1)
  {
    hide Units;
    hide Checks;
    hide Effects;
    hide StateAfter;
    hide AuctionKey;
    hide BidKey;
    hide FabricKey;
    RebidUnits(a, b);
    RebidStates(a, b);
    RebidPending(a, b);
    CreateSets(a);
    BidSets(a, b, FIRST);
    BidSets(a, b, SECOND);
    BidIsNoAuction(a, b, a);
    assert Pending(map[], Units(Rebid(a, b)[1]), 0) == map[] by {
      assert Units(Rebid(a, b)[1])[..0] == [];
      ApplyNone(map[]);
    }
  }

  lemma RebidIsAuctionChain(a: string, b: string)
    requires GoodName(a) && GoodName(b)
    ensures AuctionChain(Rebid(a, b), Heights(), RebidCalls(a, b), Decode(a, b), a)
  {
    hide Units;
    hide Checks;
    hide Effects;
    hide StateAfter;
    hide AuctionKey;
    hide BidKey;
    hide FabricKey;
    hide IsRwSetOf;
    hide ReadAt;
    RebidUnits(a, b);
    RebidStates(a, b);
    CreateSets(a);
    BidSets(a, b, FIRST);
    BidSets(a, b, SECOND);
    RebidCallsRan(a, b);
    PlainKey(a);
    NameRead(CreateSet(a), a, Version(1, 0), map[]);
    NameRead(BidSet(a, b, FIRST), a, Version(2, 0), StateAfter(Rebid(a, b), 2));
    NameRead(BidSet(a, b, SECOND), a, Version(2, 1), StateAfter(Rebid(a, b), 2));
  }

  lemma NameRead(n: NsRwSet, a: string, v: Version, snapshot: Kvs)
    requires GoodName(a) && n.ns == "ecc" && n.rangeReads == [] && |n.pointReads| == 1 && n.pointReads[0].key == a
    ensures ReadAt(Unit([n], v), snapshot) <==> n.pointReads[0].version == VersionAt(snapshot, AuctionKey(a))
  {
    CStringOfNulFree(a);
    assert PointKey(n, 0) == AuctionKey(a);
    OnePointRead(Unit([n], v), n, snapshot);
  }

  /** Both bids survive, and the first one stays: the second is not written over it. The chain
      meets all conditions of the theorems about auctions on the ledger. */
  lemma SecondBidLost(a: string, b: string)
    requires GoodName(a) && GoodName(b)
    ensures AuctionChain(Rebid(a, b), Heights(), RebidCalls(a, b), Decode(a, b), a)
    ensures Took(Rebid(a, b), RebidCalls(a, b), a, 1, 0)
    ensures Took(Rebid(a, b), RebidCalls(a, b), a, 2, 0) && Took(Rebid(a, b), RebidCalls(a, b), a, 2, 1)
    ensures BidLedgerKey(a, b) in StateAfter(Rebid(a, b), 3)
    ensures StateAfter(Rebid(a, b), 3)[BidLedgerKey(a, b)] == Entry(FIRST, Version(2, 0))
    ensures Decode(a, b)(FIRST) == BidRecord(b, 1) && RebidCalls(a, b)(2, 1).value.op == Submit(a, b, 2)
  {
    hide Units;
    hide Checks;
    hide Effects;
    hide StateAfter;
    hide BidKey;
    hide FabricKey;
    hide AuctionChain;
    RebidIsAuctionChain(a, b);
    RebidSurvives(a, b);
    RebidCallsRan(a, b);
    RebidUnits(a, b);
    BidSets(a, b, FIRST);
    var w := KvWrite(BidLedgerKey(a, b), FIRST);
    assert [w][0].key == BidLedgerKey(a, b);
    FirstWriterStored(Rebid(a, b), 2, 0, BidLedgerKey(a, b));
  }
}
