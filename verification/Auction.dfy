/** The auction chaincode (ecc_enclave/enclave/auction/auction_cc.cpp) on top of the shim
    (ecc_enclave/enclave/shim.cpp) and the peer's key translation
    (ecc/enclave/enclave_stub.go). Values are given decrypted and unmarshalled. */
module Auction {
  import opened Options
  import opened Lex
  import opened Keys

  datatype Record = AuctionRecord(name: string, isOpen: bool) | BidRecord(bidder: string, value: int)

  /** The peer's state, under Fabric keys. */
  type World = map<string, Record>

  const PREFIX := "somePrefix"

  datatype Op =
    | Create(auction: string)
    | Submit(auction: string, bidder: string, value: int)
    | Close(auction: string)
    | Eval(auction: string)

  /** Undefined is the marshalled winner variable before anything was assigned to it. Fault is
      the assignment of the null pointer that a record of the other kind gives for its name. */
  datatype Response =
    | Ok | AlreadyExists | AlreadyClosed | NoBids | Draw | Winner(bid: Record) | Undefined | Fault

  // ----- keys -----

  function BidComponents(auction: string, bidder: string): seq<string> {
    [PREFIX, auction, bidder]
  }

  function BidKey(auction: string, bidder: string): string {
    [SEP] + PREFIX + [SEP] + auction + [SEP] + bidder + [SEP]
  }

  function BidsPrefix(auction: string): string {
    [SEP] + PREFIX + [SEP] + auction + [SEP]
  }

  predicate GoodName(s: string) {
    s != "" && Free(s, SEP) && Free(s, NUL)
  }

  predicate GoodOp(op: Op) {
    GoodName(op.auction) && (op.Submit? ==> GoodName(op.bidder))
  }

  // ----- evaluation -----

  datatype Tally = Tally(high: int, draw: bool, winner: Option<Record>)

  function Count(bids: seq<Record>, value: int): nat
    requires AllBids(bids)
  {
    if bids == [] then 0
    else Count(bids[..|bids| - 1], value) + if bids[|bids| - 1].value == value then 1 else 0
  }

  predicate AllBids(bids: seq<Record>) {
    forall i | 0 <= i < |bids| :: bids[i].BidRecord?
  }

  predicate IsMax(bids: seq<Record>, m: int)
    requires AllBids(bids)
  {
    (exists i :: 0 <= i < |bids| && bids[i].value == m) && forall i | 0 <= i < |bids| :: bids[i].value <= m
  }

  function Announce(t: Tally): Response {
    if t.draw then Draw else if t.winner.None? then Undefined else Winner(t.winner.value)
  }

  /** The answer an auction should give: the only highest bid, or a draw when the highest
      value was bid more than once. */
  ghost predicate RightAnswer(bids: seq<Record>, r: Response)
    requires AllBids(bids)
  {
    forall m | IsMax(bids, m) ::
      if Count(bids, m) == 1 then r.Winner? && r.bid in bids && r.bid.BidRecord? && r.bid.value == m else r == Draw
  }

  /** What the loop's variables say about the bids seen so far. */
  predicate Tallied(bids: seq<Record>, t: Tally)
    requires AllBids(bids)
  {
    && t.high >= -1
    && (forall i | 0 <= i < |bids| :: bids[i].value <= t.high)
    && (t.high == -1 ==> t.winner.None?)
    && (t.high >= 0 ==> t.winner.Some? && t.winner.value in bids)
    && (t.high >= 0 ==> t.winner.value.BidRecord? && t.winner.value.value == t.high)
    && (t.draw <==> Count(bids, t.high) >= if t.high == -1 then 1 else 2)
    && (t.high >= 0 ==> Count(bids, t.high) >= 1)
  }

  lemma CountSnoc(bids: seq<Record>, b: Record, value: int)
    requires AllBids(bids) && b.BidRecord?
    ensures AllBids(bids + [b])
    ensures Count(bids + [b], value) == Count(bids, value) + if b.value == value then 1 else 0
  {
    assert (bids + [b])[..|bids|] == bids;
  }

  lemma {:induction false} CountZero(bids: seq<Record>, value: int)
    requires AllBids(bids)
    ensures Count(bids, value) == 0 <==> forall i | 0 <= i < |bids| :: bids[i].value != value
  {
    if bids != [] {
      var front := bids[..|bids| - 1];
      CountZero(front, value);
      assert bids == front + [bids[|bids| - 1]];
    }
  }

  lemma TallyStep(bids: seq<Record>, b: Record, t: Tally, t': Tally)
    requires AllBids(bids) && b.BidRecord? && Tallied(bids, t)
    requires t' == if b.value > t.high then Tally(b.value, false, Some(b))
                   else if b.value == t.high then t.(draw := true) else t
    ensures AllBids(bids + [b]) && Tallied(bids + [b], t')
  {
    CountSnoc(bids, b, t'.high);
    if b.value > t.high { CountZero(bids, b.value); }
    assert forall x | x in bids :: x in bids + [b];
    assert b in bids + [b];
  }

  /** The loop of auction_eval. */
  method SearchHighestBid(bids: seq<Record>) returns (r: Response)
    requires AllBids(bids)
    ensures exists t :: Tallied(bids, t) && r == Announce(t)
  {
    var winner: Option<Record> := None;
    var high, draw := -1, false;
    for i := 0 to |bids|
      invariant Tallied(bids[..i], Tally(high, draw, winner))
    {
      ghost var t := Tally(high, draw, winner);
      var b := bids[i];
      if b.value > high {
        draw := false;
        high := b.value;
        winner := Some(b);
      } else if b.value == high {
        draw := true;
      }
      TallyStep(bids[..i], b, t, Tally(high, draw, winner));
      assert bids[..i + 1] == bids[..i] + [b];
    }
    assert bids[..|bids|] == bids;
    if draw {
      r := Draw;
    } else if winner.None? {
      r := Undefined;
    } else {
      r := Winner(winner.value);
    }
    assert r == Announce(Tally(high, draw, winner));
  }

  /** The answer is right exactly when some bid is at least 0, or the highest bid is -1 and
      was made twice or more. */
  lemma EvaluationExact(bids: seq<Record>, m: int, t: Tally)
    requires AllBids(bids) && IsMax(bids, m) && Tallied(bids, t)
    ensures RightAnswer(bids, Announce(t)) <==> m >= 0 || (m == -1 && Count(bids, m) >= 2)
  {
    var i :| 0 <= i < |bids| && bids[i].value == m;
    CountZero(bids, t.high);
    CountZero(bids, m);
    assert forall m' | IsMax(bids, m') :: m' == m;
    assert t.high == if m >= 0 then m else -1;
  }

  /** With a single bid of -5 no tally leads to the right answer. */
  lemma NegativeBidMisjudged(bidder: string, t: Tally)
    requires Tallied([BidRecord(bidder, -5)], t)
    ensures !RightAnswer([BidRecord(bidder, -5)], Announce(t))
  {
    var bids := [BidRecord(bidder, -5)];
    assert bids[0].value == -5;
    EvaluationExact(bids, -5, t);
  }

  // ----- one invocation -----

  /** What an invocation reports, which keys the shim put in its read set and what it writes. */
  datatype Effect = Effect(response: Response, readSet: set<string>, writeSet: map<string, Record>)

  function Lookup(w: World, key: string): Option<Record> {
    if FabricKey(key) in w then Some(w[FabricKey(key)]) else None
  }

  predicate IsOpen(r: Record) {
    r.AuctionRecord? && r.isOpen
  }

  /** Everything but evaluation. Unmarshalling an auction from a record without a name is a
      fault; a creation does not unmarshal what it finds. */
  function Update(w: World, op: Op): Effect
    requires !op.Eval?
  {
    var found := Lookup(w, op.auction);
    var rs := {op.auction};
    match op
    case Create(a) =>
      if found.Some? then Effect(AlreadyExists, rs, map[])
      else Effect(Ok, rs, map[a := AuctionRecord(a, true)])
    case Submit(a, b, v) =>
      if found.None? then Effect(AlreadyExists, rs, map[])
      else if found.value.BidRecord? then Effect(Fault, rs, map[])
      else if !IsOpen(found.value) then Effect(AlreadyClosed, rs, map[])
      else Effect(Ok, rs, map[BidKey(a, b) := BidRecord(b, v)])
    case Close(a) =>
      if found.None? then Effect(AlreadyExists, rs, map[])
      else if found.value.BidRecord? then Effect(Fault, rs, map[])
      else if !IsOpen(found.value) then Effect(AlreadyClosed, rs, map[])
      else Effect(Ok, rs, map[a := AuctionRecord(found.value.name, false)])
  }

  /** r is an answer of an evaluation on w. */
  ghost predicate Evaluates(w: World, auction: string, r: Response) {
    var found := Lookup(w, auction);
    var bids := OrderedValues(RangeQuery(w, BidsPrefix(auction)));
    if found.None? then r == AlreadyExists
    else if found.value.BidRecord? then r == Fault
    else if IsOpen(found.value) then r == AlreadyClosed
    else if bids == [] then r == NoBids
    else if !AllBids(bids) then r == Fault
    else exists t :: Tallied(bids, t) && r == Announce(t)
  }

  /** The read and write set of one invocation, as the shim keeps them for its context. */
  class Context {
    const world: World
    var readSet: set<string>
    var writeSet: map<string, Record>

    constructor (w: World)
      ensures world == w && readSet == {} && writeSet == map[]
    {
      world, readSet, writeSet := w, {}, map[];
    }

    method GetState(key: string) returns (r: Option<Record>)
      modifies this`readSet
      ensures readSet == old(readSet) + {key}
      ensures r == Lookup(world, key)
    {
      readSet := readSet + {key};
      var f := FabricKey(key);
      r := if f in world then Some(world[f]) else None;
    }

    /** std::map::insert keeps the first value put under a key. */
    method PutState(key: string, r: Record)
      modifies this`writeSet
      ensures writeSet == if key in old(writeSet) then old(writeSet) else old(writeSet)[key := r]
    {
      if key !in writeSet {
        writeSet := writeSet[key := r];
      }
    }

    method GetStateByPartialCompositeKey(prefix: string) returns (values: map<string, Record>)
      modifies this`readSet
      ensures values == RangeQuery(world, prefix)
      ensures readSet == old(readSet) + values.Keys
    {
      values := RangeQuery(world, prefix);
      AddReads(Ordered(values.Keys));
    }

    method AddReads(keys: seq<string>)
      modifies this`readSet
      ensures readSet == old(readSet) + Elements(keys)
    {
      hide Elements;
      ElementsSplit(keys, 0);
      for i := 0 to |keys|
        invariant readSet + Elements(keys[i..]) == old(readSet) + Elements(keys)
      {
        ElementsSplit(keys, i);
        readSet := readSet + {keys[i]};
      }
      ElementsSplit(keys, |keys|);
    }

    method AuctionCreate(auction: string) returns (r: Response)
      requires readSet == {} && writeSet == map[]
      modifies this
      ensures Effect(r, readSet, writeSet) == Update(world, Create(auction))
    {
      var found := GetState(auction);
      if found.Some? {
        return AlreadyExists;
      }
      PutState(auction, AuctionRecord(auction, true));
      return Ok;
    }

    method AuctionSubmit(auction: string, bidder: string, value: int) returns (r: Response)
      requires readSet == {} && writeSet == map[]
      modifies this
      ensures Effect(r, readSet, writeSet) == Update(world, Submit(auction, bidder, value))
    {
      var found := GetState(auction);
      if found.None? {
        return AlreadyExists;
      }
      if found.value.BidRecord? {
        return Fault;
      }
      if !IsOpen(found.value) {
        return AlreadyClosed;
      }
      PutState(BidKey(auction, bidder), BidRecord(bidder, value));
      return Ok;
    }

    method AuctionClose(auction: string) returns (r: Response)
      requires readSet == {} && writeSet == map[]
      modifies this
      ensures Effect(r, readSet, writeSet) == Update(world, Close(auction))
    {
      var found := GetState(auction);
      if found.None? {
        return AlreadyExists;
      }
      if found.value.BidRecord? {
        return Fault;
      }
      if !IsOpen(found.value) {
        return AlreadyClosed;
      }
      PutState(auction, AuctionRecord(found.value.name, false));
      return Ok;
    }

    /** The bids are those under the auction's prefix, in key order. */
    method AuctionEval(auction: string) returns (r: Response)
      modifies this`readSet
      ensures readSet == old(readSet) + {auction} +
                if Lookup(world, auction).Some? && Lookup(world, auction).value.AuctionRecord? &&
                   !IsOpen(Lookup(world, auction).value)
                then RangeQuery(world, BidsPrefix(auction)).Keys else {}
      ensures Evaluates(world, auction, r)
    {
      var found := GetState(auction);
      if found.None? {
        return AlreadyExists;
      }
      if found.value.BidRecord? {
        return Fault;
      }
      if IsOpen(found.value) {
        return AlreadyClosed;
      }
      var values := GetStateByPartialCompositeKey(BidsPrefix(auction));
      var bids := OrderedValues(values);
      OrderedValuesIn(values);
      if bids == [] {
        return NoBids;
      }
      if !AllBids(bids) {
        return Fault;
      }
      r := SearchHighestBid(bids);
    }
  }

  lemma ElementsSplit(keys: seq<string>, i: nat)
    requires i <= |keys|
    ensures keys[0..] == keys && Elements(keys[|keys|..]) == {}
    ensures i < |keys| ==> Elements(keys[i..]) == {keys[i]} + Elements(keys[i + 1..])
  {
    assert keys[0..] == keys;
    if i < |keys| {
      assert keys[i..] == [keys[i]] + keys[i + 1..];
    }
  }

  function OrderedValues(m: map<string, Record>): (s: seq<Record>)
  {
    var ks := Ordered(m.Keys);
    assert forall i | 0 <= i < |ks| :: ks[i] in Elements(ks);
    seq(|ks|, i requires 0 <= i < |ks| => m[ks[i]])
  }

  lemma OrderedValuesIn(m: map<string, Record>)
    ensures forall k | k in m :: m[k] in OrderedValues(m)
    ensures |OrderedValues(m)| == |Ordered(m.Keys)|
    ensures forall i | 0 <= i < |OrderedValues(m)| ::
              Ordered(m.Keys)[i] in m && OrderedValues(m)[i] == m[Ordered(m.Keys)[i]]
  {
    var ks := Ordered(m.Keys);
    forall k | k in m
      ensures m[k] in OrderedValues(m)
    {
      assert k in Elements(ks);
      var i :| 0 <= i < |ks| && ks[i] == k;
      assert OrderedValues(m)[i] == m[k];
    }
    assert forall i | 0 <= i < |ks| :: ks[i] in Elements(ks);
  }
}
