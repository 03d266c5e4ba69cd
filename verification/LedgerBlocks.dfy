/** What a block holds and what a ledger answers, said of the block itself: which actions run,
    which writes are stored, and the status of a delivery. */
module LedgerBlocks {
  import opened Keys
  import opened Ledger
  import opened LedgerRuns

  // ----- the transaction filter -----

  /** The block with a configuration in place of every transaction marked 1 in the filter. */
  function Unfiltered(b: Block): Block {
    Block(b.number, b.metadataDecodes, [], seq(|b.envelopes|, i requires 0 <= i < |b.envelopes| =>
      if i < |b.filter| && b.filter[i] == 1 then Config else b.envelopes[i]))
  }

  lemma {:induction false} UnfilteredUpTo(b: Block, n: nat)
    requires n <= |b.envelopes|
    ensures UnitsUpTo(b, n) == UnitsUpTo(Unfiltered(b), n)
  {
    hide TxUnits;
    if n > 0 {
      UnfilteredUpTo(b, n - 1);
      assert Unfiltered(b).envelopes[n - 1] ==
        if n - 1 < |b.filter| && b.filter[n - 1] == 1 then Config else b.envelopes[n - 1];
    }
  }

  /** A transaction marked 1 in the filter counts like a configuration, and any other mark
      counts for nothing: for the units of the block, its state and the answer. */
  lemma FilterMeans(b: Block, l: LedgerState)
    ensures Units(b) == Units(Unfiltered(b))
    ensures Deliver(l, Decoded(b)) == Deliver(l, Decoded(Unfiltered(b)))
    ensures StatusOf(l, Decoded(b)) == StatusOf(l, Decoded(Unfiltered(b)))
  {
    hide UnitsUpTo;
    hide ApplyUnits;
    var c := Unfiltered(b);
    UnfilteredUpTo(b, |b.envelopes|);
    forall i | 0 <= i < |b.envelopes|
      ensures (b.envelopes[i].BadEnvelope? ==> Skipped(b, i)) <==> !c.envelopes[i].BadEnvelope?
    {
    }
    assert Decodes(b) <==> Decodes(c);
  }

  // ----- the units of a block -----

  /** Action j of transaction i is run through the checks: the transaction is not marked 1 and
      decodes, the action and all before it decode, and the action has results. */
  predicate Runs(b: Block, i: nat, j: nat) {
    && i < |b.envelopes| && !(i < |b.filter| && b.filter[i] == 1)
    && b.envelopes[i].Endorser? && b.envelopes[i].tx.Some?
    && ActionRuns(b.envelopes[i].tx.value, j)
  }

  predicate ActionRuns(actions: seq<Action>, j: nat) {
    && j < |actions| && (forall k | 0 <= k <= j :: actions[k].Action?)
    && actions[j].results.Some?
  }

  function UnitAt(b: Block, i: nat, j: nat): Unit
    requires Runs(b, i, j)
  {
    Unit(b.envelopes[i].tx.value[j].results.value, Version(b.number, i))
  }

  predicate Earlier(p: (nat, nat), q: (nat, nat)) {
    p.0 < q.0 || (p.0 == q.0 && p.1 < q.1)
  }

  predicate InOrder(places: seq<(nat, nat)>) {
    forall k, l | 0 <= k < l < |places| :: Earlier(places[k], places[l])
  }

  /** The places of transaction i from action j on. */
  ghost predicate ActionPlaces(actions: seq<Action>, i: nat, j: nat, places: seq<(nat, nat)>, us: seq<Unit>,
                               v: Version)
  {
    && |places| == |us| && InOrder(places)
    && (forall k | 0 <= k < |places| ::
          places[k].0 == i && places[k].1 >= j && ActionRuns(actions, places[k].1) &&
          us[k] == Unit(actions[places[k].1].results.value, v))
    && forall m: nat | m >= j && ActionRuns(actions, m) :: (i, m) in places
  }

  lemma {:induction false} TxPlaces(actions: seq<Action>, i: nat, j: nat, v: Version) returns (places: seq<(nat, nat)>)
    requires j <= |actions| && forall k | 0 <= k < j :: actions[k].Action?
    ensures ActionPlaces(actions, i, j, places, TxUnits(actions[j..], v), v)
    decreases |actions| - j
  {
    places := [];
    if j < |actions| && actions[j].Action? {
      hide ActionPlaces;
      hide TxUnits;
      TxUnitsStep(actions, j, v);
      var rest := TxPlaces(actions, i, j + 1, v);
      places := if actions[j].results.Some? then [(i, j)] + rest else rest;
      PlacesCons(actions, i, j, rest, TxUnits(actions[j + 1..], v), v);
    }
  }

  lemma PlacesCons(actions: seq<Action>, i: nat, j: nat, rest: seq<(nat, nat)>, us: seq<Unit>, v: Version)
    requires j < |actions| && forall k | 0 <= k <= j :: actions[k].Action?
    requires ActionPlaces(actions, i, j + 1, rest, us, v)
    ensures actions[j].results.Some? ==>
      ActionPlaces(actions, i, j, [(i, j)] + rest, [Unit(actions[j].results.value, v)] + us, v)
    ensures actions[j].results.None? ==> ActionPlaces(actions, i, j, rest, us, v)
  {
    if actions[j].results.Some? {
      var places := [(i, j)] + rest;
      assert ActionRuns(actions, j);
      forall m: nat | m >= j && ActionRuns(actions, m)
        ensures (i, m) in places
      {
        if m == j { assert places[0] == (i, m); } else { assert (i, m) in rest; }
      }
    }
  }

  ghost predicate Places(b: Block, n: nat, places: seq<(nat, nat)>)
    requires n <= |b.envelopes|
  {
    && |places| == |UnitsUpTo(b, n)| && InOrder(places)
    && (forall k | 0 <= k < |places| ::
          places[k].0 < n && Runs(b, places[k].0, places[k].1) &&
          UnitsUpTo(b, n)[k] == UnitAt(b, places[k].0, places[k].1))
    && forall i: nat, j: nat | i < n && Runs(b, i, j) :: (i, j) in places
  }

  lemma {:induction false} PlacesUpTo(b: Block, n: nat) returns (places: seq<(nat, nat)>)
    requires n <= |b.envelopes|
    ensures Places(b, n, places)
  {
    hide Places;
    hide OwnPlaces;
    places := [];
    if n == 0 {
      NoPlaces(b);
    } else {
      var front := PlacesUpTo(b, n - 1);
      var last := EnvelopePlaces(b, n - 1);
      places := front + last;
      PlacesAppend(b, n - 1, front, last);
    }
  }

  lemma NoPlaces(b: Block)
    ensures Places(b, 0, [])
  {
    hide Runs;
  }

  /** The places of transaction n. */
  ghost predicate OwnPlaces(b: Block, n: nat, places: seq<(nat, nat)>)
    requires n < |b.envelopes|
  {
    && |places| == |EnvelopeUnits(b, n)| && InOrder(places)
    && (forall k | 0 <= k < |places| ::
          places[k].0 == n && Runs(b, n, places[k].1) && EnvelopeUnits(b, n)[k] == UnitAt(b, n, places[k].1))
    && forall j: nat | Runs(b, n, j) :: (n, j) in places
  }

  lemma EnvelopePlaces(b: Block, n: nat) returns (places: seq<(nat, nat)>)
    requires n < |b.envelopes|
    ensures OwnPlaces(b, n, places)
  {
    hide TxUnits;
    places := [];
    if !(n < |b.filter| && b.filter[n] == 1) && b.envelopes[n].Endorser? && b.envelopes[n].tx.Some? {
      var actions := b.envelopes[n].tx.value;
      places := TxPlaces(actions, n, 0, Version(b.number, n));
      assert actions[0..] == actions;
    }
  }

  lemma OrderAppend(front: seq<(nat, nat)>, last: seq<(nat, nat)>, n: nat)
    requires InOrder(front) && InOrder(last)
    requires (forall k | 0 <= k < |front| :: front[k].0 < n) && forall k | 0 <= k < |last| :: last[k].0 == n
    ensures InOrder(front + last)
  {
  }

  lemma PlacesAppend(b: Block, n: nat, front: seq<(nat, nat)>, last: seq<(nat, nat)>)
    requires n < |b.envelopes| && Places(b, n, front) && OwnPlaces(b, n, last)
    ensures Places(b, n + 1, front + last)
  {
    hide EnvelopeUnits;
    hide Runs;
    hide UnitAt;
    hide InOrder;
    var places, us := front + last, UnitsUpTo(b, n + 1);
    assert us == UnitsUpTo(b, n) + EnvelopeUnits(b, n);
    hide UnitsUpTo;
    OrderAppend(front, last, n);
    forall k | 0 <= k < |places|
      ensures places[k].0 < n + 1 && Runs(b, places[k].0, places[k].1)
      ensures us[k] == UnitAt(b, places[k].0, places[k].1)
    {
      if k < |front| {
        assert places[k] == front[k];
      } else {
        assert places[k] == last[k - |front|];
      }
    }
    forall i: nat, j: nat | i < n + 1 && Runs(b, i, j)
      ensures (i, j) in places
    {
      if i < n { assert (i, j) in front; } else { assert (i, j) in last; }
    }
  }

  /** The units of a block are its running actions, each once, in the order of transactions
      and of actions, with the number of the block and of the transaction as version. */
  lemma UnitsExact(b: Block) returns (places: seq<(nat, nat)>)
    ensures |places| == |Units(b)| && InOrder(places)
    ensures forall k | 0 <= k < |places| ::
      Runs(b, places[k].0, places[k].1) && Units(b)[k] == UnitAt(b, places[k].0, places[k].1)
    ensures forall i: nat, j: nat | Runs(b, i, j) :: (i, j) in places
  {
    hide UnitsUpTo;
    hide UnitAt;
    places := PlacesUpTo(b, |b.envelopes|);
  }

  // ----- what is stored -----

  /** Namespace n stores w: all writes of lscc, the first of ercc, and of ecc every key with
      the first value. */
  predicate Stores(n: NsRwSet, w: KvWrite) {
    || (n.ns == "lscc" && exists j | 0 <= j < |n.writes| ::
          w == KvWrite("lscc." + CString(n.writes[j].key), n.writes[j].value))
    || (n.ns == "ercc" && n.writes != [] && w == KvWrite("ercc." + CString(n.writes[0].key), n.writes[0].value))
    || (n.ns == "ecc" && exists j | 0 <= j < |n.writes| ::
          w == KvWrite(EccKey(n.writes[j].key), n.writes[0].value))
  }

  lemma {:induction false} LsccStores(ws: seq<KvWrite>, k: nat, w: KvWrite)
    requires k <= |ws|
    ensures w in LsccEffects(ws[..k]) <==>
      exists j | 0 <= j < k :: w == KvWrite("lscc." + CString(ws[j].key), ws[j].value)
  {
    hide CString;
    if k > 0 {
      LsccStores(ws, k - 1, w);
      assert ws[..k][..k - 1] == ws[..k - 1];
    }
  }

  lemma {:induction false} EccStores(ws: seq<KvWrite>, k: nat, value: string, w: KvWrite)
    requires k <= |ws|
    ensures w in EccEffects(ws[..k], value) <==> exists j | 0 <= j < k :: w == KvWrite(EccKey(ws[j].key), value)
  {
    hide EccKey;
    if k > 0 {
      EccStores(ws, k - 1, value, w);
      assert ws[..k][..k - 1] == ws[..k - 1];
    }
  }

  lemma NsStores(n: NsRwSet, w: KvWrite)
    ensures w in NsEffects(n) <==> Stores(n, w)
  {
    hide CString;
    hide EccKey;
    hide LsccEffects;
    hide EccEffects;
    LsccStores(n.writes, |n.writes|, w);
    EccStores(n.writes, |n.writes|, FirstValue(n.writes), w);
    assert n.writes[..|n.writes|] == n.writes;
  }

  lemma {:induction false} StoresUpTo(rws: seq<NsRwSet>, k: nat, w: KvWrite)
    requires k <= |rws|
    ensures w in Effects(rws[..k]) <==> exists i | 0 <= i < k :: Stores(rws[i], w)
  {
    hide NsEffects;
    hide Stores;
    if k > 0 {
      StoresUpTo(rws, k - 1, w);
      assert rws[..k][..k - 1] == rws[..k - 1];
      NsStores(rws[k - 1], w);
    }
  }

  /** The writes of a read/write set are those that its namespaces store, all of them. */
  lemma EffectsAreStored(rws: seq<NsRwSet>, w: KvWrite)
    ensures w in Effects(rws) <==> exists i | 0 <= i < |rws| :: Stores(rws[i], w)
  {
    hide Stores;
    hide Effects;
    StoresUpTo(rws, |rws|, w);
    assert rws[..|rws|] == rws;
  }

  /** Of several writes to one key the first is kept. */
  lemma {:induction false} FirstWriteKept(updates: Kvs, ws: seq<KvWrite>, v: Version, k: nat)
    requires k < |ws| && ws[k].key !in updates && forall j | 0 <= j < k :: ws[j].key != ws[k].key
    ensures ws[k].key in InsertAll(updates, ws, v) && InsertAll(updates, ws, v)[ws[k].key] == Entry(ws[k].value, v)
    decreases |ws|
  {
    var front := ws[..|ws| - 1];
    if k < |ws| - 1 {
      FirstWriteKept(updates, front, v, k);
    } else {
      InsertAllEntries(updates, front, v);
    }
  }

  // ----- the answer -----

  /** What a ledger that was sent blocks of the chain answers: by the number of the block
      against its height, and then by what decodes. */
  lemma StatusOfRun(chain: seq<Block>, ms: seq<Message>, m: Message)
    requires IsChain(chain) && FromChain(chain, m) && forall i | 0 <= i < |ms| :: FromChain(chain, ms[i])
    ensures var l := Run(START, ms); var s := StatusOf(l, m);
      && (s == InvalidBlockNumber <==> m.Decoded? && m.block.number != Height(l))
      && (s == ErrorDecoding <==> m.Garbage? || (m.block.number == Height(l) && !Readable(m.block)))
      && (s == Success <==> m.Decoded? && m.block.number == Height(l) && Readable(m.block))
  {
    hide Units;
    hide StateAfter;
    hide Run;
    DeliveryAgreement(chain, ms);
  }

  /** The metadata decode, and every transaction that is not marked 1. */
  predicate Readable(b: Block) {
    && b.metadataDecodes
    && forall i | 0 <= i < |b.envelopes| :: b.envelopes[i].BadEnvelope? ==> i < |b.filter| && b.filter[i] == 1
  }
}
