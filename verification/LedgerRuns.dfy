/** Runs of the trusted ledger: agreement under any delivery order, and the order of the
    versions it stores. */
module LedgerRuns {
  import opened Options
  import opened Keys
  import opened Ledger

  // ----- what an update map can hold -----

  function WriteKeys(ws: seq<KvWrite>): set<string> {
    set i | 0 <= i < |ws| :: ws[i].key
  }

  /** Inserting never touches a key that is there; a new key gets the given version. */
  lemma {:induction false} InsertAllEntries(updates: Kvs, ws: seq<KvWrite>, v: Version)
    ensures forall k | k in updates :: k in InsertAll(updates, ws, v) && InsertAll(updates, ws, v)[k] == updates[k]
    ensures forall k | k in InsertAll(updates, ws, v) && k !in updates :: InsertAll(updates, ws, v)[k].version == v
    ensures InsertAll(updates, ws, v).Keys == updates.Keys + WriteKeys(ws)
  {
    if ws != [] {
      var front, w := ws[..|ws| - 1], ws[|ws| - 1];
      InsertAllEntries(updates, front, v);
      assert ws == front + [w];
      WriteKeysSnoc(front, w);
    }
  }

  lemma WriteKeysSnoc(ws: seq<KvWrite>, w: KvWrite)
    ensures WriteKeys(ws + [w]) == WriteKeys(ws) + {w.key}
  {
    var all := ws + [w];
    assert all[|ws|] == w;
    forall k | k in WriteKeys(ws)
      ensures k in WriteKeys(all)
    {
      var i :| 0 <= i < |ws| && ws[i].key == k;
      assert all[i] == ws[i];
    }
    forall k | k in WriteKeys(all)
      ensures k in WriteKeys(ws) + {w.key}
    {
      var i :| 0 <= i < |all| && all[i].key == k;
      if i < |ws| { assert ws[i].key == k; }
    }
  }

  predicate FromBlock(updates: Kvs, n: nat) {
    forall k | k in updates :: updates[k].version.blockNum == n
  }

  predicate UnitsOf(us: seq<Unit>, n: nat) {
    forall i | 0 <= i < |us| :: us[i].version.blockNum == n
  }

  lemma {:induction false} TxUnitsVersion(actions: seq<Action>, v: Version)
    ensures forall i | 0 <= i < |TxUnits(actions, v)| :: TxUnits(actions, v)[i].version == v
  {
    if actions != [] && !actions[0].BadAction? {
      TxUnitsVersion(actions[1..], v);
    }
  }

  lemma {:induction false} UnitsUpToVersions(b: Block, n: nat)
    requires n <= |b.envelopes|
    ensures forall i | 0 <= i < |UnitsUpTo(b, n)| ::
              UnitsUpTo(b, n)[i].version.blockNum == b.number && UnitsUpTo(b, n)[i].version.txNum < n
  {
    hide EnvelopeUnits;
    if n > 0 {
      UnitsUpToVersions(b, n - 1);
      EnvelopeVersions(b, n - 1);
    }
  }

  lemma EnvelopeVersions(b: Block, n: nat)
    requires n < |b.envelopes|
    ensures forall i | 0 <= i < |EnvelopeUnits(b, n)| ::
              EnvelopeUnits(b, n)[i].version.blockNum == b.number && EnvelopeUnits(b, n)[i].version.txNum == n
  {
    hide TxUnits;
    if b.envelopes[n].Endorser? && b.envelopes[n].tx.Some? {
      TxUnitsVersion(b.envelopes[n].tx.value, Version(b.number, n));
    }
  }

  /** The units of a block are in the order of its transactions. */
  lemma {:induction false} UnitsInOrder(b: Block, n: nat, i: nat, j: nat)
    requires n <= |b.envelopes| && i <= j < |UnitsUpTo(b, n)|
    ensures UnitsUpTo(b, n)[i].version.blockNum == UnitsUpTo(b, n)[j].version.blockNum
    ensures UnitsUpTo(b, n)[i].version.txNum <= UnitsUpTo(b, n)[j].version.txNum
    decreases n
  {
    hide EnvelopeUnits;
    UnitsUpToVersions(b, n);
    if n > 0 {
      var m := |UnitsUpTo(b, n - 1)|;
      EnvelopeVersions(b, n - 1);
      if j < m {
        UnitsInOrder(b, n - 1, i, j);
      } else {
        assert UnitsUpTo(b, n)[j] == EnvelopeUnits(b, n - 1)[j - m];
      }
    }
  }

  lemma BlockUnits(b: Block)
    ensures UnitsOf(Units(b), b.number)
  {
    UnitsUpToVersions(b, |b.envelopes|);
  }

  lemma {:induction false} PendingFromBlock(state: Kvs, us: seq<Unit>, n: nat)
    requires UnitsOf(us, n)
    ensures FromBlock(ApplyUnits(state, map[], us), n)
  {
    if us != [] {
      var front, u := us[..|us| - 1], us[|us| - 1];
      PendingFromBlock(state, front, n);
      assert u.version.blockNum == n;
      InsertAllEntries(ApplyUnits(state, map[], front), Effects(u.rws), u.version);
    }
  }

  // ----- replaying a chain in order -----

  /** Header numbers are the positions, and stay below 2^32 - 1. */
  predicate IsChain(chain: seq<Block>) {
    |chain| < UINT32 && forall i | 0 <= i < |chain| :: chain[i].number == i
  }

  function StateAfter(chain: seq<Block>, n: nat): Kvs
    requires n <= |chain|
  {
    if n == 0 then map[] else
      var s := StateAfter(chain, n - 1);
      s + ApplyUnits(s, map[], Units(chain[n - 1]))
  }

  function Run(l: LedgerState, ms: seq<Message>): LedgerState {
    if ms == [] then l else Deliver(Run(l, ms[..|ms| - 1]), ms[|ms| - 1])
  }

  /** The number of blocks the counter stands for. */
  function Height(l: LedgerState): nat {
    (l.seqNo + 1) % UINT32
  }

  predicate FromChain(chain: seq<Block>, m: Message) {
    m.Decoded? ==> m.block.number < |chain| && m.block == chain[m.block.number]
  }

  predicate Committable(b: Block) {
    b.metadataDecodes && Decodes(b)
  }

  /** The ledger is in the state that the first Height(l) blocks, taken once each in order,
      lead to. */
  ghost predicate Agrees(chain: seq<Block>, l: LedgerState) {
    && l.seqNo < UINT32
    && Height(l) <= |chain|
    && l.state == StateAfter(chain, Height(l))
    && forall i | 0 <= i < Height(l) :: Committable(chain[i])
  }

  lemma DeliverAgrees(chain: seq<Block>, l: LedgerState, m: Message)
    requires IsChain(chain) && Agrees(chain, l) && FromChain(chain, m)
    ensures Agrees(chain, Deliver(l, m))
    ensures Height(l) <= Height(Deliver(l, m)) <= Height(l) + 1
    ensures Height(Deliver(l, m)) == Height(l) + 1 <==>
            m.Decoded? && m.block.number == Height(l) && Committable(m.block)
  {
    hide ApplyUnits;
    hide Units;
    if Accepts(l, m) {
      assert m.block == chain[Height(l)];
      assert StateAfter(chain, Height(l) + 1) == l.state + ApplyUnits(l.state, map[], Units(m.block));
    }
  }

  /** Duplicates, gaps, reorderings and undecodable deliveries of a fixed chain all lead to
      the state of an in-order replay up to the counter. */
  lemma {:induction false} DeliveryAgreement(chain: seq<Block>, ms: seq<Message>)
    requires IsChain(chain)
    requires forall i | 0 <= i < |ms| :: FromChain(chain, ms[i])
    ensures Agrees(chain, Run(START, ms))
  {
    if ms != [] {
      DeliveryAgreement(chain, ms[..|ms| - 1]);
      DeliverAgrees(chain, Run(START, ms[..|ms| - 1]), ms[|ms| - 1]);
    }
  }

  /** Hence two ledgers with the same counter hold the same state, whatever each was sent. */
  lemma SameHeightSameState(chain: seq<Block>, ms: seq<Message>, ms': seq<Message>)
    requires IsChain(chain)
    requires forall i | 0 <= i < |ms| :: FromChain(chain, ms[i])
    requires forall i | 0 <= i < |ms'| :: FromChain(chain, ms'[i])
    requires Run(START, ms).seqNo == Run(START, ms').seqNo
    ensures Run(START, ms) == Run(START, ms')
  {
    hide Run;
    hide StateAfter;
    DeliveryAgreement(chain, ms);
    DeliveryAgreement(chain, ms');
  }

  /** A delivery changes the ledger exactly when parse_block reports success. */
  lemma ChangeExactlyOnSuccess(l: LedgerState, m: Message)
    requires l.seqNo < UINT32
    ensures Deliver(l, m) == l <==> StatusOf(l, m) != Success
  {
    hide ApplyUnits;
    hide Units;
    assert StatusOf(l, m) == Success <==> Accepts(l, m);
    if Accepts(l, m) {
      assert Deliver(l, m).seqNo == (l.seqNo + 1) % UINT32 != l.seqNo;
    }
  }

  ghost predicate InOrderWithin(chain: seq<Block>, k: nat, ms: seq<Message>, at: seq<nat>)
    requires k <= |chain|
  {
    && |at| == k
    && (forall i | 0 <= i < k :: at[i] < |ms| && ms[at[i]] == Decoded(chain[i]))
    && forall i, j | 0 <= i < j < k :: at[i] < at[j]
  }

  /** Catching up: once blocks 0 to k - 1 have been delivered in order, with anything in
      between, the ledger has committed at least k blocks. */
  lemma {:induction false} CatchesUp(chain: seq<Block>, k: nat, ms: seq<Message>, at: seq<nat>)
    requires IsChain(chain) && k <= |chain|
    requires forall i | 0 <= i < |ms| :: FromChain(chain, ms[i])
    requires forall i | 0 <= i < k :: Committable(chain[i])
    requires InOrderWithin(chain, k, ms, at)
    ensures Height(Run(START, ms)) >= k
    decreases |ms|
  {
    hide StateAfter;
    hide Deliver;
    hide Committable;
    if ms != [] {
      var front, m := ms[..|ms| - 1], ms[|ms| - 1];
      DeliveryAgreement(chain, front);
      DeliverAgrees(chain, Run(START, front), m);
      if k > 0 {
        if at[k - 1] == |ms| - 1 {
          assert forall i | 0 <= i < k - 1 :: front[at[i]] == ms[at[i]];
          CatchesUp(chain, k - 1, front, at[..k - 1]);
        } else {
          assert forall i | 0 <= i < k :: at[i] <= at[k - 1];
          assert forall i | 0 <= i < k :: front[at[i]] == ms[at[i]];
          CatchesUp(chain, k, front, at);
        }
      }
    }
  }

  // ----- the order of versions -----

  /** In every reachable state a stored block number is below the height, so it never
      exceeds the sequence number. */
  lemma {:induction false} VersionsBelowHeight(chain: seq<Block>, n: nat)
    requires IsChain(chain) && n <= |chain|
    ensures forall k | k in StateAfter(chain, n) :: StateAfter(chain, n)[k].version.blockNum < n
  {
    if n > 0 {
      VersionsBelowHeight(chain, n - 1);
      BlockUnits(chain[n - 1]);
      PendingFromBlock(StateAfter(chain, n - 1), Units(chain[n - 1]), n - 1);
    }
  }

  lemma PendingFromChain(chain: seq<Block>, n: nat, k: nat)
    requires IsChain(chain) && n < |chain| && k <= |Units(chain[n])|
    ensures FromBlock(Pending(StateAfter(chain, n), Units(chain[n]), k), n)
  {
    BlockUnits(chain[n]);
    PendingFromBlock(StateAfter(chain, n), Units(chain[n])[..k], n);
  }

  lemma PendingIsAll(state: Kvs, us: seq<Unit>)
    ensures Pending(state, us, |us|) == ApplyUnits(state, map[], us)
  {
    assert us[..|us|] == us;
  }

  /** Along the chain a key is never dropped, and its entry either stays as it is or gets a
      strictly later version. */
  lemma {:induction false} VersionsIncrease(chain: seq<Block>, h: nat, n: nat, key: string)
    requires IsChain(chain) && h <= n <= |chain|
    requires key in StateAfter(chain, h)
    ensures key in StateAfter(chain, n)
    ensures StateAfter(chain, n)[key] == StateAfter(chain, h)[key] ||
            Before(StateAfter(chain, h)[key].version, StateAfter(chain, n)[key].version)
    decreases n
  {
    hide ApplyUnits;
    hide Units;
    if h < n {
      VersionsIncrease(chain, h, n - 1, key);
      VersionsBelowHeight(chain, n - 1);
      var s, us := StateAfter(chain, n - 1), Units(chain[n - 1]);
      PendingFromChain(chain, n - 1, |us|);
      PendingIsAll(s, us);
    }
  }

  /** Comparing a read with the committed state and then with the pending updates is one
      comparison with the updates laid over the state. */
  lemma OverlayCheck(chain: seq<Block>, n: nat, k: nat, c: KvRead)
    requires IsChain(chain) && n < |chain| && k <= |Units(chain[n])|
    ensures var state, pending := StateAfter(chain, n), Pending(StateAfter(chain, n), Units(chain[n]), k);
            Passes(state, pending, c) <==> !HasVersionConflict(c.key, state + pending, c.version)
  {
    hide Pending;
    hide StateAfter;
    VersionsBelowHeight(chain, n);
    PendingFromChain(chain, n, k);
  }

  // ----- the header number is cut to 32 bits for the counter only -----

  ghost predicate BelowHeight(l: LedgerState) {
    forall k | k in l.state :: l.state[k].version.blockNum < Height(l)
  }

  /** Stored versions keep their full 64-bit block number. An accepted block keeps them below
      the height exactly when its header number fits in 32 bits or it stores nothing; the block
      that wraps the counter exactly when nothing is stored at all. */
  lemma HeightBoundExact(l: LedgerState, m: Message)
    requires l.seqNo < UINT32 && BelowHeight(l) && Accepts(l, m)
    ensures var updates := ApplyUnits(l.state, map[], Units(m.block));
            BelowHeight(Deliver(l, m)) <==>
            if Height(l) + 1 < UINT32 then m.block.number < UINT32 || updates == map[]
            else l.state == map[] && updates == map[]
  {
    hide ApplyUnits;
    hide Units;
    var us := Units(m.block);
    var up := ApplyUnits(l.state, map[], us);
    BlockUnits(m.block);
    PendingFromBlock(l.state, us, m.block.number);
    if up != map[] {
      var k :| k in up;
      assert Deliver(l, m).state[k].version.blockNum == m.block.number;
    }
    if Height(l) + 1 == UINT32 && l.state != map[] {
      var k :| k in l.state;
      assert k in Deliver(l, m).state;
    }
  }

  function OneWrite(number: nat, value: string): Block {
    Block(number, true, [], [Endorser(Some([Action("f", "ecc", "r",
      Some([NsRwSet("ecc", [], [], [KvWrite("k", value)])]))]))])
  }

  /** A first block with number 2^32 is accepted as block 0, and the next block then stores a
      lower version for the same key. */
  lemma WideNumberBreaksOrder()
    ensures var l1 := Deliver(START, Decoded(OneWrite(UINT32, "a")));
            var l2 := Deliver(l1, Decoded(OneWrite(1, "b")));
            && l1.state == map["ecc.k" := Entry("a", Version(UINT32, 0))]
            && l2.state == map["ecc.k" := Entry("b", Version(1, 0))]
            && Before(l2.state["ecc.k"].version, l1.state["ecc.k"].version)
  {
    hide ApplyUnits;
    hide Units;
    OneWriteEffect(START.state, UINT32, "a");
    var l1 := Deliver(START, Decoded(OneWrite(UINT32, "a")));
    OneWriteEffect(l1.state, 1, "b");
  }

  lemma OneWriteEffect(state: Kvs, number: nat, value: string)
    ensures ApplyUnits(state, map[], Units(OneWrite(number, value))) == map["ecc.k" := Entry(value, Version(number, 0))]
  {
    hide Units;
    hide ApplyUnits;
    hide Effects;
    hide Checks;
    hide InsertAll;
    var n := NsRwSet("ecc", [], [], [KvWrite("k", value)]);
    var u := Unit([n], Version(number, 0));
    OneWriteUnits(number, value);
    ApplyOne(state, map[], u);
    OneNamespace(n);
    assert NsChecks(n) == [];
    OneWriteStored(n, value);
    var w := KvWrite("ecc.k", value);
    InsertAllSnoc(map[], [], w, Version(number, 0));
    InsertNone(map[], Version(number, 0));
    assert [] + [w] == [w];
  }

  lemma OneWriteStored(n: NsRwSet, value: string)
    requires n == NsRwSet("ecc", [], [], [KvWrite("k", value)])
    ensures NsEffects(n) == [KvWrite("ecc.k", value)]
  {
    OneEccWrite(n.writes[0], value);
    CStringOfNulFree("k");
    assert "ecc." + "k" == "ecc.k";
  }

  lemma OneWriteUnits(number: nat, value: string)
    ensures Units(OneWrite(number, value)) ==
      [Unit([NsRwSet("ecc", [], [], [KvWrite("k", value)])], Version(number, 0))]
  {
    var b := OneWrite(number, value);
    var actions := b.envelopes[0].tx.value;
    assert actions[1..] == [];
    assert TxUnits(actions, Version(number, 0)) == ActionUnits(actions[0], Version(number, 0)) + [];
    assert UnitsUpTo(b, 0) == [];
    assert UnitsUpTo(b, 1) == EnvelopeUnits(b, 0);
  }
}
