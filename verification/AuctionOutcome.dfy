/** What an auction on the trusted ledger comes to: which bids the stored state holds after
    any chain of blocks, and what an evaluation on that state announces. */
module AuctionOutcome {
  import opened Lex
  import opened Keys
  import opened Ledger
  import opened LedgerRuns
  import opened Metadata
  import opened Serializability
  import opened Auction
  import opened AuctionRuns
  import opened AuctionLedger
  import PeerRange

  // ----- the bids that stand -----

  /** The invocation at a place is a bid by b in auction a that survived and succeeded. */
  ghost predicate BidTook(chain: seq<Block>, calls: Calls, a: string, b: string, n: nat, k: nat) {
    Took(chain, calls, a, n, k) && calls(n, k).value.op.Submit? && calls(n, k).value.op.bidder == b
  }

  /** A bid enters unless its bidder already has one. */
  function AddBid(book: map<string, int>, a: string, c: Call): map<string, int> {
    if Succeeds(c) && c.op.auction == a && c.op.Submit? && c.op.bidder !in book then book[c.op.bidder := c.op.value]
    else book
  }

  /** The bids that the first k units of a block leave: of each bidder the first. */
  ghost function BlockBids(chain: seq<Block>, calls: Calls, a: string, n: nat, k: nat): map<string, int>
    requires n < |chain| && k <= |Units(chain[n])|
  {
    if k == 0 then map[] else
      var book := BlockBids(chain, calls, a, n, k - 1);
      if Survives(chain, n, k - 1) && calls(n, k - 1).Some? then AddBid(book, a, calls(n, k - 1).value) else book
  }

  lemma BlockBidsStep(chain: seq<Block>, calls: Calls, a: string, n: nat, k: nat)
    requires n < |chain| && k < |Units(chain[n])|
    ensures var book := BlockBids(chain, calls, a, n, k);
            BlockBids(chain, calls, a, n, k + 1) ==
            if Survives(chain, n, k) && calls(n, k).Some? then AddBid(book, a, calls(n, k).value) else book
  {
    hide Units;
    hide Survives;
    hide AddBid;
  }

  /** The bids that the first n blocks leave: a block overrides the ones before it. */
  ghost function Book(chain: seq<Block>, calls: Calls, a: string, n: nat): map<string, int>
    requires n <= |chain|
  {
    if n == 0 then map[]
    else Book(chain, calls, a, n - 1) + BlockBids(chain, calls, a, n - 1, |Units(chain[n - 1])|)
  }

  ghost predicate FirstOfBlock(chain: seq<Block>, calls: Calls, a: string, b: string, n: nat, k: nat) {
    BidTook(chain, calls, a, b, n, k) && forall j: nat | j < k :: !BidTook(chain, calls, a, b, n, j)
  }

  /** The first surviving bid of b in the last of the first len blocks that has one. */
  ghost predicate Stands(chain: seq<Block>, calls: Calls, a: string, b: string, n: nat, k: nat, len: nat) {
    && n < len && FirstOfBlock(chain, calls, a, b, n, k)
    && forall n': nat, k': nat | n < n' < len :: !BidTook(chain, calls, a, b, n', k')
  }

  lemma {:induction false} BlockBidIs(chain: seq<Block>, calls: Calls, a: string, b: string, n: nat, k: nat)
    returns (j: nat)
    requires n < |chain| && k <= |Units(chain[n])|
    ensures if b in BlockBids(chain, calls, a, n, k) then
              j < k && FirstOfBlock(chain, calls, a, b, n, j) &&
              BlockBids(chain, calls, a, n, k)[b] == calls(n, j).value.op.value
            else forall i: nat | i < k :: !BidTook(chain, calls, a, b, n, i)
    decreases k
  {
    hide Units;
    hide Survives;
    hide Succeeds;
    j := 0;
    if k > 0 {
      j := BlockBidIs(chain, calls, a, b, n, k - 1);
      if b !in BlockBids(chain, calls, a, n, k - 1) && BidTook(chain, calls, a, b, n, k - 1) {
        j := k - 1;
      }
    }
  }

  lemma TookInBlock(chain: seq<Block>, calls: Calls, a: string, b: string, n: nat, k: nat)
    requires n < |chain| && BidTook(chain, calls, a, b, n, k)
    ensures k < |Units(chain[n])|
  {
  }

  /** A bid in the book is the first surviving one of its bidder in the last block with one. */
  lemma {:induction false} BookStands(chain: seq<Block>, calls: Calls, a: string, b: string, len: nat)
    returns (n: nat, k: nat)
    requires len <= |chain|
    ensures if b in Book(chain, calls, a, len) then
              Stands(chain, calls, a, b, n, k, len) && Book(chain, calls, a, len)[b] == calls(n, k).value.op.value
            else forall n': nat, k': nat | n' < len :: !BidTook(chain, calls, a, b, n', k')
    decreases len
  {
    hide Units;
    hide BidTook;
    hide BlockBids;
    n, k := 0, 0;
    if len > 0 {
      var last := len - 1;
      var j := BlockBidIs(chain, calls, a, b, last, |Units(chain[last])|);
      n, k := BookStands(chain, calls, a, b, last);
      if b in BlockBids(chain, calls, a, last, |Units(chain[last])|) {
        n, k := last, j;
      } else {
        forall k': nat
          ensures !BidTook(chain, calls, a, b, last, k')
        {
          if BidTook(chain, calls, a, b, last, k') { TookInBlock(chain, calls, a, b, last, k'); }
        }
      }
    }
  }

  // ----- the stored bids -----

  predicate UnderBids(key: string, a: string) {
    HasPrefix(key, "ecc" + BidsPrefix(a))
  }

  /** Under the keys of a's bids there is the book and nothing else. */
  ghost predicate HoldsBids(kvs: Kvs, dec: Reader, a: string, book: map<string, int>) {
    && (forall b | b in book ::
          GoodName(b) && BidLedgerKey(a, b) in kvs && dec(kvs[BidLedgerKey(a, b)].value) == BidRecord(b, book[b]))
    && forall key | key in kvs && UnderBids(key, a) :: exists b :: b in book && key == BidLedgerKey(a, b)
  }

  /** Nothing but auction invocations writes under the keys of a's bids. */
  ghost predicate OnlyCallsBid(chain: seq<Block>, calls: Calls, a: string) {
    forall n: nat, k: nat | n < |chain| && k < |Units(chain[n])| ::
      calls(n, k).None? ==> NoneUnderBids(Effects(Units(chain[n])[k].rws), a)
  }

  predicate NoneUnderBids(ws: seq<KvWrite>, a: string) {
    forall key | key in WriteKeys(ws) :: !UnderBids(key, a)
  }

  lemma BidUnderBids(x: string, b: string, a: string)
    requires GoodName(x) && GoodName(b) && GoodName(a)
    ensures UnderBids(BidLedgerKey(x, b), a) <==> x == a
  {
    hide BidKey;
    hide BidsPrefix;
    hide HasPrefix;
    EccPrefix(BidKey(x, b), BidsPrefix(a));
    var c, p := BidComponents(x, b), [PREFIX, a];
    GoodComponents(x, b);
    GoodComponents(a, b);
    BidKeys(x, b);
    PrefixOfBids(a);
    PeerRange.SgxPrefix(c, p);
    assert p <= c <==> x == a by {
      assert c[..2] == [PREFIX, x];
      assert p[1] == a && [PREFIX, x][1] == x;
    }
  }

  lemma PrefixOfBids(a: string)
    ensures BidsPrefix(a) == [SEP] + Marked([PREFIX, a], SEP)
  {
    MarkedTwo(PREFIX, a, SEP);
  }

  lemma NameNotUnderBids(x: string, a: string)
    requires GoodName(x)
    ensures !UnderBids(AuctionKey(x), a)
  {
    var p := "ecc" + BidsPrefix(a);
    assert p[4..] == PREFIX + [SEP] + a + [SEP];
    assert p[4..][|PREFIX|] == SEP;
  }

  lemma SameBidder(a: string, b: string, c: string)
    ensures BidLedgerKey(a, b) == BidLedgerKey(a, c) <==> b == c
  {
    hide BidKey;
    if BidLedgerKey(a, b) == BidLedgerKey(a, c) {
      PeerRange.SameAfterEcc(BidKey(a, b), BidKey(a, c));
      SameBidKey(a, b, c);
    }
  }

  lemma BidsUntouched(kvs: Kvs, dec: Reader, a: string, book: map<string, int>, ws: seq<KvWrite>, v: Version)
    requires HoldsBids(kvs, dec, a, book) && NoneUnderBids(ws, a)
    ensures HoldsBids(InsertAll(kvs, ws, v), dec, a, book)
  {
    hide UnderBids;
    hide BidLedgerKey;
    hide WriteKeys;
    hide InsertAll;
    InsertAllEntries(kvs, ws, v);
  }

  lemma BidInserted(kvs: Kvs, dec: Reader, a: string, book: map<string, int>, b: string, value: int, w: KvWrite,
      v: Version)
    requires HoldsBids(kvs, dec, a, book) && GoodName(a) && GoodName(b)
    requires w.key == BidLedgerKey(a, b) && dec(w.value) == BidRecord(b, value)
    ensures HoldsBids(InsertAll(kvs, [w], v), dec, a, if b in book then book else book[b := value])
  {
    hide UnderBids;
    hide BidLedgerKey;
    InsertAllSnoc(kvs, [], w, v);
    assert [] + [w] == [w];
    BidUnderBids(a, b, a);
    forall c | c in book
      ensures BidLedgerKey(a, c) == w.key <==> c == b
    {
      SameBidder(a, b, c);
    }
  }

  lemma BidsOverlaid(kvs: Kvs, later: Kvs, dec: Reader, a: string, book: map<string, int>, newer: map<string, int>)
    requires GoodName(a) && HoldsBids(kvs, dec, a, book) && HoldsBids(later, dec, a, newer)
    ensures HoldsBids(kvs + later, dec, a, book + newer)
  {
    hide UnderBids;
    hide BidLedgerKey;
    forall b | b in book && b !in newer
      ensures BidLedgerKey(a, b) !in later
    {
      BidUnderBids(a, b, a);
      forall c | c in newer
        ensures BidLedgerKey(a, b) != BidLedgerKey(a, c)
      {
        SameBidder(a, b, c);
      }
    }
  }

  /** What an invocation's effects do to the stored bids of auction a. */
  lemma CallBids(kvs: Kvs, rws: seq<NsRwSet>, c: Call, dec: Reader, a: string, book: map<string, int>, v: Version)
    requires GoodOp(c.op) && GoodName(a) && IsRwSetOf(rws, c, dec) && HoldsBids(kvs, dec, a, book)
    ensures HoldsBids(InsertAll(kvs, Effects(rws), v), dec, a, AddBid(book, a, c))
  {
    hide Effects;
    hide InsertAll;
    hide UnderBids;
    hide BidKey;
    hide AuctionKey;
    hide IsRwSetOf;
    hide HoldsBids;
    CallEffects(rws, c, dec);
    if Succeeds(c) {
      var w := Effects(rws)[0];
      assert Effects(rws) == [w];
      assert WriteKeys([w]) == {w.key};
      if c.op.Submit? {
        BidUnderBids(c.op.auction, c.op.bidder, a);
        if c.op.auction == a {
          BidInserted(kvs, dec, a, book, c.op.bidder, c.op.value, w, v);
        } else {
          BidsUntouched(kvs, dec, a, book, [w], v);
        }
      } else {
        NameNotUnderBids(c.op.auction, a);
        BidsUntouched(kvs, dec, a, book, [w], v);
      }
    } else {
      BidsUntouched(kvs, dec, a, book, [], v);
    }
  }

  lemma NoBids(dec: Reader, a: string)
    ensures HoldsBids(map[], dec, a, map[])
  {
  }

  lemma NoBidsYet(chain: seq<Block>, calls: Calls, dec: Reader, a: string, n: nat)
    requires n < |chain|
    ensures HoldsBids(Pending(StateAfter(chain, n), Units(chain[n]), 0), dec, a, BlockBids(chain, calls, a, n, 0))
  {
    hide Units;
    hide StateAfter;
    hide HoldsBids;
    hide ApplyUnits;
    assert Units(chain[n])[..0] == [];
    ApplyNone(StateAfter(chain, n));
    NoBids(dec, a);
  }

  lemma AtPlace(chain: seq<Block>, height: (nat, nat) -> nat, calls: Calls, dec: Reader, a: string, n: nat, k: nat)
    requires AuctionChain(chain, height, calls, dec, a) && OnlyCallsBid(chain, calls, a)
    requires n < |chain| && k < |Units(chain[n])|
    ensures var rws := Units(chain[n])[k].rws;
            if calls(n, k).Some? then GoodOp(calls(n, k).value.op) && IsRwSetOf(rws, calls(n, k).value, dec)
            else NoneUnderBids(Effects(rws), a)
  {
    hide IsRwSetOf;
    hide NoneUnderBids;
    hide Effects;
    hide Units;
  }

  lemma UnitStoresBids(chain: seq<Block>, height: (nat, nat) -> nat, calls: Calls, dec: Reader, a: string, n: nat,
      k: nat, book: map<string, int>)
    requires GoodName(a) && AuctionChain(chain, height, calls, dec, a) && OnlyCallsBid(chain, calls, a)
    requires n < |chain| && k < |Units(chain[n])|
    requires HoldsBids(Pending(StateAfter(chain, n), Units(chain[n]), k), dec, a, book)
    ensures HoldsBids(Pending(StateAfter(chain, n), Units(chain[n]), k + 1), dec, a,
              if Survives(chain, n, k) && calls(n, k).Some? then AddBid(book, a, calls(n, k).value) else book)
  {
    hide Units;
    hide StateAfter;
    hide Pending;
    hide Checks;
    hide Effects;
    hide InsertAll;
    hide IsRwSetOf;
    hide Survives;
    hide NoneUnderBids;
    hide HoldsBids;
    hide AddBid;
    hide AuctionChain;
    hide OnlyCallsBid;
    var state, us := StateAfter(chain, n), Units(chain[n]);
    var u, pending := us[k], Pending(state, us, k);
    AtPlace(chain, height, calls, dec, a, n, k);
    PendingStep(state, us, k);
    SurvivesIs(chain, n, k);
    if Survives(chain, n, k) {
      if calls(n, k).Some? {
        CallBids(pending, u.rws, calls(n, k).value, dec, a, book, u.version);
      } else {
        BidsUntouched(pending, dec, a, book, Effects(u.rws), u.version);
      }
    }
  }

  lemma {:induction false} BlockStoresBids(chain: seq<Block>, height: (nat, nat) -> nat, calls: Calls, dec: Reader,
      a: string, n: nat, k: nat)
    requires GoodName(a) && AuctionChain(chain, height, calls, dec, a) && OnlyCallsBid(chain, calls, a)
    requires n < |chain| && k <= |Units(chain[n])|
    ensures HoldsBids(Pending(StateAfter(chain, n), Units(chain[n]), k), dec, a, BlockBids(chain, calls, a, n, k))
    decreases k
  {
    hide Units;
    hide StateAfter;
    hide HoldsBids;
    hide AuctionChain;
    hide OnlyCallsBid;
    hide Survives;
    hide AddBid;
    hide Pending;
    hide BlockBids;
    if k == 0 {
      NoBidsYet(chain, calls, dec, a, n);
    } else {
      BlockStoresBids(chain, height, calls, dec, a, n, k - 1);
      BlockBidsStep(chain, calls, a, n, k - 1);
      UnitStoresBids(chain, height, calls, dec, a, n, k - 1, BlockBids(chain, calls, a, n, k - 1));
    }
  }

  /** After any number of blocks the ledger holds the book of auction a, bid for bid. */
  lemma {:induction false} LedgerHoldsBook(chain: seq<Block>, height: (nat, nat) -> nat, calls: Calls, dec: Reader,
      a: string, n: nat)
    requires GoodName(a) && AuctionChain(chain, height, calls, dec, a) && OnlyCallsBid(chain, calls, a)
    requires n <= |chain|
    ensures HoldsBids(StateAfter(chain, n), dec, a, Book(chain, calls, a, n))
    decreases n
  {
    hide Units;
    hide AuctionChain;
    hide OnlyCallsBid;
    hide BlockBids;
    hide HoldsBids;
    hide Pending;
    hide ApplyUnits;
    if n == 0 {
      NoBids(dec, a);
    } else {
      LedgerHoldsBook(chain, height, calls, dec, a, n - 1);
      var state, us := StateAfter(chain, n - 1), Units(chain[n - 1]);
      BlockStoresBids(chain, height, calls, dec, a, n - 1, |us|);
      PendingIsAll(state, us);
      BidsOverlaid(state, Pending(state, us, |us|), dec, a, Book(chain, calls, a, n - 1),
        BlockBids(chain, calls, a, n - 1, |us|));
    }
  }

  // ----- closed auctions -----

  lemma NoBidWhenClosed(chain: seq<Block>, height: (nat, nat) -> nat, calls: Calls, dec: Reader, a: string, n: nat,
      n': nat, k: nat)
    requires GoodName(a) && AuctionChain(chain, height, calls, dec, a) && n <= n' < |chain|
    requires PhaseAt(chain, dec, a, n, 0) == Closed && k < |Units(chain[n'])|
    ensures !(Took(chain, calls, a, n', k) && calls(n', k).value.op.Submit?)
  {
    hide PhaseAt;
    hide Units;
    hide AuctionChain;
    hide Survives;
    hide Succeeds;
    PhaseNeverFalls(chain, height, calls, dec, a, n, 0, n', k);
    PhaseStep(chain, height, calls, dec, a, n', k);
  }

  lemma {:induction false} NoBlockBids(chain: seq<Block>, height: (nat, nat) -> nat, calls: Calls, dec: Reader,
      a: string, n: nat, n': nat, k: nat)
    requires GoodName(a) && AuctionChain(chain, height, calls, dec, a) && n <= n' < |chain|
    requires PhaseAt(chain, dec, a, n, 0) == Closed && k <= |Units(chain[n'])|
    ensures BlockBids(chain, calls, a, n', k) == map[]
    decreases k
  {
    hide PhaseAt;
    hide Units;
    hide AuctionChain;
    hide Survives;
    hide Succeeds;
    if k > 0 {
      hide BlockBids;
      NoBlockBids(chain, height, calls, dec, a, n, n', k - 1);
      BlockBidsStep(chain, calls, a, n', k - 1);
      NoBidWhenClosed(chain, height, calls, dec, a, n, n', k - 1);
    }
  }

  /** Once the ledger has an auction closed no later block changes its book. */
  lemma {:induction false} ClosedBookIsFinal(chain: seq<Block>, height: (nat, nat) -> nat, calls: Calls, dec: Reader,
      a: string, n: nat, n': nat)
    requires GoodName(a) && AuctionChain(chain, height, calls, dec, a) && n <= n' <= |chain|
    requires PhaseOf(dec, StateAfter(chain, n), a) == Closed
    ensures Book(chain, calls, a, n') == Book(chain, calls, a, n)
    decreases n'
  {
    hide PhaseOf;
    hide StateAfter;
    hide Units;
    hide AuctionChain;
    hide BlockBids;
    if n < n' {
      ClosedBookIsFinal(chain, height, calls, dec, a, n, n' - 1);
      StartOfBlock(chain, n);
      NoBlockBids(chain, height, calls, dec, a, n, n' - 1, |Units(chain[n' - 1])|);
    }
  }

  lemma StartOfBlock(chain: seq<Block>, n: nat)
    requires n < |chain|
    ensures Overlay(chain, n, 0) == StateAfter(chain, n)
  {
    hide Units;
    hide ApplyUnits;
    assert Units(chain[n])[..0] == [];
    ApplyNone(StateAfter(chain, n));
  }

  // ----- evaluation -----

  function Decoded(dec: Reader, values: map<string, string>): map<string, Record> {
    map x | x in values :: dec(values[x])
  }

  lemma RangeIsLedgerBook(kvs: Kvs, dec: Reader, a: string, book: map<string, int>, values: map<string, string>)
    requires GoodName(a) && HoldsBids(kvs, dec, a, book) && SameRange(kvs, BidsPrefix(a), values)
    ensures var q := Decoded(dec, values);
            && (forall b | b in book :: BidKey(a, b) in q && q[BidKey(a, b)] == BidRecord(b, book[b]))
            && forall x | x in q :: exists b :: b in book && x == BidKey(a, b)
  {
    hide BidKey;
    hide BidsPrefix;
    hide HasPrefix;
    forall b | b in book
      ensures BidKey(a, b) in values && dec(values[BidKey(a, b)]) == BidRecord(b, book[b])
    {
      BidUnderBids(a, b, a);
      EccPrefix(BidKey(a, b), BidsPrefix(a));
    }
    forall x | x in values
      ensures exists b :: b in book && x == BidKey(a, b)
    {
      EccPrefix(x, BidsPrefix(a));
      var b :| b in book && "ecc" + x == BidLedgerKey(a, b);
      PeerRange.SameAfterEcc(x, BidKey(a, b));
    }
  }

  /** An evaluation on a range that the ledger vouches for answers rightly for the book of the
      chain exactly when its highest bid is at least 0, or is -1 and shared. */
  lemma EvaluationOfChain(chain: seq<Block>, height: (nat, nat) -> nat, calls: Calls, dec: Reader, a: string, n: nat,
      values: map<string, string>, t: Tally, top: string)
    requires GoodName(a) && AuctionChain(chain, height, calls, dec, a) && OnlyCallsBid(chain, calls, a)
    requires n <= |chain| && SameRange(StateAfter(chain, n), BidsPrefix(a), values)
    requires var book := Book(chain, calls, a, n); top in book && forall b | b in book :: book[b] <= book[top]
    ensures var bids := OrderedValues(Decoded(dec, values));
            var book := Book(chain, calls, a, n);
            AllBids(bids) &&
            (Tallied(bids, t) ==>
              (RightForBook(book, Announce(t)) <==> book[top] >= 0 || (book[top] == -1 && !BeatsAll(book, top))))
  {
    hide AuctionChain;
    hide OnlyCallsBid;
    hide Book;
    hide StateAfter;
    hide SameRange;
    hide HoldsBids;
    hide BidKey;
    hide OrderedValues;
    hide Decoded;
    hide Tallied;
    hide Announce;
    hide RightForBook;
    var book, q := Book(chain, calls, a, n), Decoded(dec, values);
    LedgerHoldsBook(chain, height, calls, dec, a, n);
    RangeIsLedgerBook(StateAfter(chain, n), dec, a, book, values);
    ValuesAreBook(q, a, book);
    var bids := OrderedValues(q);
    var i :| 0 <= i < |bids| && bids[i] == BidRecord(top, book[top]);
    if Tallied(bids, t) {
      AnswerForBook(bids, book, top, i, t);
    }
  }
}
