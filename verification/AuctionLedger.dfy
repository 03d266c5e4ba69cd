/** The auction chaincode over the trusted ledger: invocations endorsed on arbitrary earlier
    snapshots, possibly ordered into one block, and filtered by the version checks. */
module AuctionLedger {
  import opened Options
  import opened Keys
  import opened Ledger
  import opened LedgerRuns
  import PeerRange
  import opened Serializability
  import opened Auction
  import opened AuctionRuns

  /** Reads a stored value: base64, decryption and unmarshalling. */
  type Reader = string -> Record

  function AuctionKey(a: string): string {
    "ecc." + a
  }

  function BidLedgerKey(a: string, b: string): string {
    "ecc" + BidKey(a, b)
  }

  function RecordAt(dec: Reader, kvs: Kvs, a: string): Option<Record> {
    if AuctionKey(a) in kvs then Some(dec(kvs[AuctionKey(a)].value)) else None
  }

  function PhaseOf(dec: Reader, kvs: Kvs, a: string): Phase {
    var r := RecordAt(dec, kvs, a);
    if r.None? then Absent else if IsOpen(r.value) then Opened else Closed
  }

  function Rank(p: Phase): nat {
    match p
    case Absent => 0
    case Opened => 1
    case Closed => 2
  }

  /** One invocation as a transaction: the operation, and the peer's state it ran on. */
  datatype Call = Call(op: Op, world: World)

  function Writes(c: Call): map<string, Record> {
    if c.op.Eval? then map[] else Update(c.world, c.op).writeSet
  }

  predicate Succeeds(c: Call) {
    !c.op.Eval? && Update(c.world, c.op).response == Ok
  }

  /** The read/write set that the peer builds from the enclave's calls. */
  ghost predicate IsRwSetOf(rws: seq<NsRwSet>, c: Call, dec: Reader) {
    && |rws| == 1
    && rws[0].ns == "ecc"
    && |rws[0].pointReads| == 1
    && rws[0].pointReads[0].key == c.op.auction
    && |rws[0].writes| == |Writes(c)|
    && forall i | 0 <= i < |rws[0].writes| ::
         exists k :: k in Writes(c) && rws[0].writes[i].key == FabricKey(k) &&
           dec(rws[0].writes[i].value) == Writes(c)[k]
  }

  /** The calls of a chain: None marks a transaction of another kind. */
  type Calls = (nat, nat) -> Option<Call>

  /** Every transaction is an auction invocation with good names that ran on the snapshot it
      read, or does not write the record of auction a. */
  ghost predicate AuctionChain(chain: seq<Block>, height: (nat, nat) -> nat, calls: Calls, dec: Reader, a: string) {
    && IsChain(chain) && GenesisIsConfig(chain) && SnapshotReads(chain, height)
    && forall n: nat, k: nat | n < |chain| && k < |Units(chain[n])| ::
         var u := Units(chain[n])[k];
         if calls(n, k).Some? then
           var c := calls(n, k).value;
           && GoodOp(c.op) && IsRwSetOf(u.rws, c, dec)
           && Lookup(c.world, c.op.auction) == RecordAt(dec, StateAfter(chain, height(n, k)), c.op.auction)
         else AuctionKey(a) !in WriteKeys(Effects(u.rws))
  }

  // ----- the ledger keys of auction writes -----

  lemma EccKeyOfName(x: string)
    requires GoodName(x)
    ensures EccKey(FabricKey(x)) == AuctionKey(x)
  {
    PlainKey(x);
    CStringOfNulFree(x);
  }

  lemma EccKeyOfBid(x: string, b: string)
    requires GoodName(x) && GoodName(b)
    ensures EccKey(FabricKey(BidKey(x, b))) == "ecc" + BidKey(x, b)
  {
    hide EccKey;
    hide FabricKey;
    hide Marked;
    hide BidKey;
    BidKeys(x, b);
    GoodComponents(x, b);
    PeerRange.LeadingOfWhole(BidComponents(x, b));
    PeerRange.LedgerKeyOf(BidComponents(x, b));
  }

  lemma NameKeysDiffer(x: string, a: string)
    ensures AuctionKey(x) == AuctionKey(a) <==> x == a
  {
    assert AuctionKey(x)[4..] == x && AuctionKey(a)[4..] == a;
  }

  lemma BidIsNoAuction(x: string, b: string, a: string)
    requires GoodName(a)
    ensures "ecc" + BidKey(x, b) != AuctionKey(a)
  {
    var k := "ecc" + BidKey(x, b);
    assert k[4..] == PREFIX + [SEP] + x + [SEP] + b + [SEP];
    assert k[4..][|PREFIX|] == SEP;
    assert AuctionKey(a)[4..] == a;
  }

  lemma OneEccEffect(n: NsRwSet)
    requires n.ns == "ecc" && |n.writes| <= 1
    ensures Effects([n]) == if n.writes == [] then [] else [KvWrite(EccKey(n.writes[0].key), n.writes[0].value)]
  {
    hide EccKey;
    OneNamespace(n);
    if n.writes != [] {
      assert n.writes == [n.writes[0]];
      OneEccWrite(n.writes[0], n.writes[0].value);
    }
  }

  /** The effects of an invocation on the ledger: none, or its one write. */
  lemma CallEffects(rws: seq<NsRwSet>, c: Call, dec: Reader)
    requires GoodOp(c.op) && IsRwSetOf(rws, c, dec)
    ensures !Succeeds(c) ==> Effects(rws) == []
    ensures Succeeds(c) ==> |Effects(rws)| == 1
    ensures Succeeds(c) && !c.op.Submit? ==>
              Effects(rws)[0].key == AuctionKey(c.op.auction) && dec(Effects(rws)[0].value).AuctionRecord? &&
              (dec(Effects(rws)[0].value).isOpen <==> c.op.Create?)
    ensures Succeeds(c) && c.op.Submit? ==>
              Effects(rws)[0].key == "ecc" + BidKey(c.op.auction, c.op.bidder) &&
              dec(Effects(rws)[0].value) == BidRecord(c.op.bidder, c.op.value)
  {
    hide FabricKey;
    hide BidKey;
    hide EccKey;
    hide Effects;
    hide AuctionKey;
    hide Lookup;
    var n := rws[0];
    assert rws == [n];
    assert |Writes(c)| == if Succeeds(c) then 1 else 0;
    OneEccEffect(n);
    if Succeeds(c) {
      match c.op {
        case Create(x) => EccKeyOfName(x);
        case Submit(x, b, _) => EccKeyOfBid(x, b);
        case Close(x) => EccKeyOfName(x);
      }
    }
  }

  lemma CallTouchesAuction(rws: seq<NsRwSet>, c: Call, dec: Reader, a: string)
    requires GoodOp(c.op) && GoodName(a) && IsRwSetOf(rws, c, dec)
    ensures AuctionKey(a) in WriteKeys(Effects(rws)) <==> Succeeds(c) && !c.op.Submit? && c.op.auction == a
  {
    hide BidKey;
    hide Effects;
    hide AuctionKey;
    hide IsRwSetOf;
    CallEffects(rws, c, dec);
    NameKeysDiffer(c.op.auction, a);
    if c.op.Submit? { BidIsNoAuction(c.op.auction, c.op.bidder, a); }
    if Succeeds(c) { assert Effects(rws) == [Effects(rws)[0]]; }
  }

  lemma CallReadsAuction(u: Unit, c: Call, dec: Reader)
    requires GoodOp(c.op) && IsRwSetOf(u.rws, c, dec)
    ensures AuctionKey(c.op.auction) in CheckedKeys(u)
  {
    CStringOfNulFree(c.op.auction);
    assert "ecc" + "." == "ecc.";
    assert PointKey(u.rws[0], 0) == AuctionKey(c.op.auction);
  }

  // ----- the phase of an auction along the chain -----

  function PhaseAt(chain: seq<Block>, dec: Reader, a: string, n: nat, k: nat): Phase
    requires n < |chain| && k <= |Units(chain[n])|
  {
    PhaseOf(dec, Overlay(chain, n, k), a)
  }

  /** A surviving invocation saw the phase its auction has at its place, and moves it. */
  lemma PhaseStep(chain: seq<Block>, height: (nat, nat) -> nat, calls: Calls, dec: Reader, a: string, n: nat, k: nat)
    requires GoodName(a) && AuctionChain(chain, height, calls, dec, a)
    requires n < |chain| && k < |Units(chain[n])|
    ensures var before, after := PhaseAt(chain, dec, a, n, k), PhaseAt(chain, dec, a, n, k + 1);
            if Survives(chain, n, k) && calls(n, k).Some? && calls(n, k).value.op.auction == a &&
              Succeeds(calls(n, k).value) then
              match calls(n, k).value.op
              case Create(_) => before == Absent && after == Opened
              case Submit(_, _, _) => before == Opened && after == Opened
              case Close(_) => before == Opened && after == Closed
            else after == before
  {
    hide Pending;
    hide Units;
    hide StateAfter;
    hide Checks;
    hide Effects;
    hide FabricKey;
    hide BidKey;
    hide AuctionKey;
    hide IsRwSetOf;
    hide Survives;
    var state, us := StateAfter(chain, n), Units(chain[n]);
    var u := us[k];
    var pending := Pending(state, us, k);
    PendingStep(state, us, k);
    assert Survives(chain, n, k) <==> ReadsValid(state, pending, Checks(u.rws)) by { SurvivesIs(chain, n, k); }
    if Survives(chain, n, k) {
      InsertAllEntries(pending, Effects(u.rws), u.version);
      if calls(n, k).Some? {
        var c := calls(n, k).value;
        CallEffects(u.rws, c, dec);
        CallTouchesAuction(u.rws, c, dec, a);
        if c.op.auction == a {
          CallReadsAuction(u, c, dec);
          SurvivorReadsCurrent(chain, height, n, k, AuctionKey(a));
          if Succeeds(c) && !c.op.Submit? {
            var w := Effects(u.rws)[0];
            assert Effects(u.rws) == [w];
            InsertAllSnoc(pending, [], w, u.version);
            assert [] + [w] == [w];
          }
        }
      }
    }
  }

  lemma SurvivesIs(chain: seq<Block>, n: nat, k: nat)
    requires n < |chain| && k < |Units(chain[n])|
    ensures Survives(chain, n, k) <==>
            ReadsValid(StateAfter(chain, n), Pending(StateAfter(chain, n), Units(chain[n]), k),
              Checks(Units(chain[n])[k].rws))
  {
  }

  lemma NextBlock(chain: seq<Block>, n: nat)
    requires n + 1 < |chain|
    ensures Overlay(chain, n, |Units(chain[n])|) == Overlay(chain, n + 1, 0) == StateAfter(chain, n + 1)
  {
    hide ApplyUnits;
    hide Units;
    PendingIsAll(StateAfter(chain, n), Units(chain[n]));
    assert Units(chain[n + 1])[..0] == [];
    ApplyNone(StateAfter(chain, n + 1));
  }

  /** Places in block order; a place may be the end of a block. */
  predicate NotAfter(n: nat, k: nat, n': nat, k': nat) {
    n < n' || (n == n' && k <= k')
  }

  lemma {:induction false} PhaseNeverFalls(chain: seq<Block>, height: (nat, nat) -> nat, calls: Calls, dec: Reader,
      a: string, n: nat, k: nat, n': nat, k': nat)
    requires GoodName(a) && AuctionChain(chain, height, calls, dec, a)
    requires n < |chain| && k <= |Units(chain[n])| && n' < |chain| && k' <= |Units(chain[n'])| && NotAfter(n, k, n', k')
    ensures Rank(PhaseAt(chain, dec, a, n, k)) <= Rank(PhaseAt(chain, dec, a, n', k'))
    decreases n', k'
  {
    hide PhaseAt;
    hide Units;
    hide AuctionChain;
    hide Survives;
    hide Succeeds;
    if n == n' && k == k' {
    } else if k' > 0 {
      PhaseNeverFalls(chain, height, calls, dec, a, n, k, n', k' - 1);
      PhaseStep(chain, height, calls, dec, a, n', k' - 1);
    } else {
      PhaseNeverFalls(chain, height, calls, dec, a, n, k, n' - 1, |Units(chain[n' - 1])|);
      SamePhase(chain, dec, a, n' - 1);
    }
  }

  lemma SamePhase(chain: seq<Block>, dec: Reader, a: string, n: nat)
    requires n + 1 < |chain|
    ensures PhaseAt(chain, dec, a, n, |Units(chain[n])|) == PhaseAt(chain, dec, a, n + 1, 0)
  {
    hide Overlay;
    hide Units;
    NextBlock(chain, n);
  }

  /** The invocation at a place survived the version checks and reported success on a. */
  ghost predicate Took(chain: seq<Block>, calls: Calls, a: string, n: nat, k: nat) {
    && n < |chain| && k < |Units(chain[n])|
    && Survives(chain, n, k)
    && calls(n, k).Some?
    && calls(n, k).value.op.auction == a
    && Succeeds(calls(n, k).value)
  }

  /** Of two successful survivors on one auction the later is not its creation and the
      earlier is not its closing: at most one creation, at most one closing, and no bid after
      the closing, in one block or over many. */
  lemma AuctionOrder(chain: seq<Block>, height: (nat, nat) -> nat, calls: Calls, dec: Reader, a: string, n: nat, k: nat,
      n': nat, k': nat)
    requires GoodName(a) && AuctionChain(chain, height, calls, dec, a)
    requires Took(chain, calls, a, n, k) && Took(chain, calls, a, n', k')
    requires NotAfter(n, k + 1, n', k')
    ensures !calls(n', k').value.op.Create?
    ensures !calls(n, k).value.op.Close?
  {
    hide PhaseAt;
    hide Units;
    hide AuctionChain;
    hide Survives;
    PhaseStep(chain, height, calls, dec, a, n, k);
    PhaseStep(chain, height, calls, dec, a, n', k');
    PhaseNeverFalls(chain, height, calls, dec, a, n, k + 1, n', k');
  }

  // ----- writes without a read -----

  /** The unit survives and writes the key. */
  predicate WritesKey(chain: seq<Block>, n: nat, j: nat, key: string)
    requires n < |chain| && j < |Units(chain[n])|
  {
    Survives(chain, n, j) && key in WriteKeys(Effects(Units(chain[n])[j].rws))
  }

  /** An earlier survivor of the block writes the key. */
  predicate WrittenBefore(chain: seq<Block>, n: nat, k: nat, key: string)
    requires n < |chain| && k <= |Units(chain[n])|
  {
    exists j: nat | j < k :: WritesKey(chain, n, j, key)
  }

  /** The pending updates hold the keys of the survivors so far. */
  lemma {:induction false} PendingKeys(chain: seq<Block>, n: nat, k: nat, key: string)
    requires n < |chain| && k <= |Units(chain[n])|
    ensures key in Pending(StateAfter(chain, n), Units(chain[n]), k) <==> WrittenBefore(chain, n, k, key)
    decreases k
  {
    hide Units;
    hide Checks;
    hide Effects;
    hide StateAfter;
    hide WriteKeys;
    var state, us := StateAfter(chain, n), Units(chain[n]);
    if k == 0 {
      assert us[..0] == [];
      ApplyNone(state);
    } else {
      hide Pending;
      PendingKeys(chain, n, k - 1, key);
      PendingStep(state, us, k - 1);
      InsertAllEntries(Pending(state, us, k - 1), Effects(us[k - 1].rws), us[k - 1].version);
      if WrittenBefore(chain, n, k - 1, key) {
        var j: nat :| j < k - 1 && WritesKey(chain, n, j, key);
        assert WritesKey(chain, n, j, key);
      }
      assert WrittenBefore(chain, n, k, key) <==>
        WrittenBefore(chain, n, k - 1, key) || WritesKey(chain, n, k - 1, key);
    }
  }

  /** The first survivor of a block that writes a key is the one whose write is stored. */
  lemma FirstWriterStored(chain: seq<Block>, n: nat, k: nat, key: string)
    requires n < |chain| && k < |Units(chain[n])|
    requires WritesKey(chain, n, k, key) && !WrittenBefore(chain, n, k, key)
    ensures key in StateAfter(chain, n + 1)
    ensures StateAfter(chain, n + 1)[key].version == Units(chain[n])[k].version
    ensures forall w | Effects(Units(chain[n])[k].rws) == [w] ::
              StateAfter(chain, n + 1)[key] == Entry(w.value, Units(chain[n])[k].version)
  {
    hide Units;
    hide Checks;
    hide Effects;
    hide Pending;
    hide ApplyUnits;
    var state, us := StateAfter(chain, n), Units(chain[n]);
    var before := Pending(state, us, k);
    PendingKeys(chain, n, k, key);
    PendingStep(state, us, k);
    InsertAllEntries(before, Effects(us[k].rws), us[k].version);
    forall w | Effects(us[k].rws) == [w]
      ensures Pending(state, us, k + 1)[key] == Entry(w.value, us[k].version)
    {
      InsertAllSnoc(before, [], w, us[k].version);
      InsertNone(before, us[k].version);
      assert [] + [w] == [w];
    }
    PendingKeepsEntry(state, us, k + 1, |us|, key);
    PendingIsAll(state, us);
  }

  lemma FirstWriter(chain: seq<Block>, n: nat, k: nat, key: string) returns (j: nat)
    requires n < |chain| && k <= |Units(chain[n])| && WrittenBefore(chain, n, k, key)
    ensures j < k && WritesKey(chain, n, j, key) && !WrittenBefore(chain, n, j, key)
    decreases k
  {
    hide Units;
    hide WritesKey;
    j :| j < k && WritesKey(chain, n, j, key);
    if WrittenBefore(chain, n, j, key) {
      j := FirstWriter(chain, n, j, key);
    }
  }

  /** An earlier survivor of the block, from another transaction, writes the key. */
  predicate WrittenByAnother(chain: seq<Block>, n: nat, k: nat, key: string)
    requires n < |chain| && k < |Units(chain[n])|
  {
    exists j: nat | j < k :: Units(chain[n])[j].version != Units(chain[n])[k].version && WritesKey(chain, n, j, key)
  }

  /** What is stored under a key a survivor writes comes from its transaction exactly when no
      earlier survivor from another transaction of the block writes the key. A bid is not read
      before it is written, so of two bids of one bidder in a block the first one stands. */
  lemma FirstWriteOfBlockStands(chain: seq<Block>, n: nat, k: nat, key: string)
    requires n < |chain| && k < |Units(chain[n])| && WritesKey(chain, n, k, key)
    ensures key in StateAfter(chain, n + 1)
    ensures StateAfter(chain, n + 1)[key].version == Units(chain[n])[k].version <==> !WrittenByAnother(chain, n, k, key)
  {
    hide UnitsUpTo;
    hide WritesKey;
    hide StateAfter;
    var us := Units(chain[n]);
    if !WrittenBefore(chain, n, k, key) {
      FirstWriterStored(chain, n, k, key);
    } else {
      var j := FirstWriter(chain, n, k, key);
      FirstWriterStored(chain, n, j, key);
      if WrittenByAnother(chain, n, k, key) {
        var i: nat :| i < k && us[i].version != us[k].version && WritesKey(chain, n, i, key);
        assert j <= i;
        UnitsInOrder(chain[n], |chain[n].envelopes|, j, i);
        UnitsInOrder(chain[n], |chain[n].envelopes|, i, k);
      }
    }
  }

  lemma {:induction false} PendingKeepsEntry(state: Kvs, us: seq<Unit>, j: nat, k: nat, key: string)
    requires j <= k <= |us| && key in Pending(state, us, j)
    ensures key in Pending(state, us, k) && Pending(state, us, k)[key] == Pending(state, us, j)[key]
    decreases k
  {
    hide Pending;
    hide Checks;
    hide Effects;
    if j < k {
      PendingKeepsEntry(state, us, j, k - 1, key);
      PendingStep(state, us, k - 1);
      InsertAllEntries(Pending(state, us, k - 1), Effects(us[k - 1].rws), us[k - 1].version);
    }
  }
}
