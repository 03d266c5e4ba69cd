/** Multi-version concurrency control of the trusted ledger: when every transaction was
    endorsed on an earlier committed snapshot and read what it writes, a run of the ledger
    equals running the surviving transactions one at a time. */
module Serializability {
  import opened Options
  import opened Keys
  import opened Ledger
  import opened LedgerRuns

  type Values = map<string, string>

  function ValuesOf(kvs: Kvs): Values {
    map k | k in kvs :: kvs[k].value
  }

  /** What a transaction does, apart from the ledger: it looks at the given keys and computes
      its writes from the values found there. */
  datatype Program = Program(readKeys: set<string>, body: Values -> seq<KvWrite>)
  datatype Endorsement = Endorsement(program: Program, height: nat)
  type Plan = (nat, nat) -> Endorsement

  function View(vals: Values, keys: set<string>): Values {
    map k | k in keys && k in vals :: vals[k]
  }

  function Store(vals: Values, ws: seq<KvWrite>): Values {
    if ws == [] then vals else Store(vals, ws[..|ws| - 1])[ws[|ws| - 1].key := ws[|ws| - 1].value]
  }

  function Execute(vals: Values, p: Program): Values {
    Store(vals, p.body(View(vals, p.readKeys)))
  }

  // ----- the writes a transaction asked for -----

  function PlainWrites(ns: string, ws: seq<KvWrite>): seq<KvWrite> {
    if ws == [] then []
    else
      var w := ws[|ws| - 1];
      PlainWrites(ns, ws[..|ws| - 1]) + [KvWrite(if ns == "ecc" then EccKey(w.key)
        else ns + "." + CString(w.key), w.value)]
  }

  /** Every write under its own value, for any namespace. */
  function Intended(rws: seq<NsRwSet>): seq<KvWrite> {
    if rws == [] then []
    else Intended(rws[..|rws| - 1]) + PlainWrites(rws[|rws| - 1].ns, rws[|rws| - 1].writes)
  }

  lemma {:induction false} PlainWritesAre(ns: string, ws: seq<KvWrite>, k: nat, w: KvWrite)
    requires k <= |ws|
    ensures w in PlainWrites(ns, ws[..k]) <==> exists j | 0 <= j < k ::
      w == KvWrite(if ns == "ecc" then EccKey(ws[j].key) else ns + "." + CString(ws[j].key), ws[j].value)
  {
    hide EccKey;
    hide CString;
    if k > 0 {
      PlainWritesAre(ns, ws, k - 1, w);
      assert ws[..k][..k - 1] == ws[..k - 1];
    }
  }

  /** Some namespace has that write, under its ledger key. */
  predicate Wrote(n: NsRwSet, w: KvWrite) {
    exists j | 0 <= j < |n.writes| ::
      w == KvWrite(if n.ns == "ecc" then EccKey(n.writes[j].key) else n.ns + "." + CString(n.writes[j].key),
        n.writes[j].value)
  }

  lemma {:induction false} IntendedUpTo(rws: seq<NsRwSet>, k: nat, w: KvWrite)
    requires k <= |rws|
    ensures w in Intended(rws[..k]) <==> exists i | 0 <= i < k :: Wrote(rws[i], w)
  {
    hide EccKey;
    hide CString;
    hide PlainWrites;
    if k > 0 {
      IntendedUpTo(rws, k - 1, w);
      assert rws[..k][..k - 1] == rws[..k - 1];
      var n := rws[k - 1];
      PlainWritesAre(n.ns, n.writes, |n.writes|, w);
      assert n.writes[..|n.writes|] == n.writes;
    }
  }

  /** The intended writes are all writes of all namespaces. */
  lemma IntendedAreWritten(rws: seq<NsRwSet>, w: KvWrite)
    ensures w in Intended(rws) <==> exists i | 0 <= i < |rws| :: Wrote(rws[i], w)
  {
    hide Wrote;
    hide Intended;
    IntendedUpTo(rws, |rws|, w);
    assert rws[..|rws|] == rws;
  }

  predicate SameValue(ws: seq<KvWrite>, value: string) {
    forall i | 0 <= i < |ws| :: ws[i].value == value
  }

  predicate Faithful(n: NsRwSet) {
    if n.ns == "lscc" then true
    else if n.ns == "ercc" then |n.writes| <= 1
    else if n.ns == "ecc" then SameValue(n.writes, FirstValue(n.writes))
    else n.writes == []
  }

  lemma {:induction false} PlainLength(ns: string, ws: seq<KvWrite>)
    ensures |PlainWrites(ns, ws)| == |ws|
  {
    hide EccKey;
    hide CString;
    if ws != [] { PlainLength(ns, ws[..|ws| - 1]); }
  }

  lemma {:induction false} PlainLscc(ws: seq<KvWrite>)
    ensures PlainWrites("lscc", ws) == LsccEffects(ws)
  {
    hide EccKey;
    hide CString;
    if ws != [] {
      PlainLscc(ws[..|ws| - 1]);
      assert "lscc" + "." == "lscc.";
    }
  }

  lemma {:induction false} PlainEcc(ws: seq<KvWrite>, value: string)
    ensures |EccEffects(ws, value)| == |ws|
    ensures EccEffects(ws, value) == PlainWrites("ecc", ws) <==> SameValue(ws, value)
  {
    hide EccKey;
    hide CString;
    if ws != [] {
      var front, w := ws[..|ws| - 1], ws[|ws| - 1];
      PlainEcc(front, value);
      PlainLength("ecc", front);
      assert ws == front + [w];
      var a, b := EccEffects(front, value), PlainWrites("ecc", front);
      assert (a + [KvWrite(EccKey(w.key), value)])[..|a|] == a && (b + [KvWrite(EccKey(w.key), w.value)])[..|b|] == b;
      assert (a + [KvWrite(EccKey(w.key), value)])[|a|].value == value;
      assert SameValue(ws, value) <==> SameValue(front, value) && w.value == value;
    }
  }

  lemma OnePlainErcc(w: KvWrite)
    ensures PlainWrites("ercc", [w]) == [KvWrite("ercc." + CString(w.key), w.value)]
  {
    hide EccKey;
    hide CString;
    assert [w][..0] == [];
    assert "ercc" + "." == "ercc.";
  }

  lemma PlainErcc(ws: seq<KvWrite>)
    ensures ErccEffects(ws) == PlainWrites("ercc", ws) <==> |ws| <= 1
  {
    hide PlainWrites;
    hide CString;
    PlainLength("ercc", ws);
    if |ws| == 1 {
      assert ws == [ws[0]];
      OnePlainErcc(ws[0]);
    }
  }

  /** The ledger stores what a namespace asked for exactly when it is lscc, or ercc with at
      most one write, or ecc with one value for all keys, or has no writes. */
  lemma FaithfulExact(n: NsRwSet)
    ensures NsEffects(n) == PlainWrites(n.ns, n.writes) <==> Faithful(n)
  {
    PlainLscc(n.writes);
    PlainErcc(n.writes);
    PlainEcc(n.writes, FirstValue(n.writes));
    PlainLength(n.ns, n.writes);
  }

  /** The value written under the second key of an invocation is lost. */
  lemma SecondValueLost(a: string, b: string)
    requires a != b
    ensures var n := NsRwSet("ecc", [], [], [KvWrite("x", a), KvWrite("y", b)]);
            NsEffects(n) == [KvWrite(EccKey("x"), a), KvWrite(EccKey("y"), a)] != PlainWrites("ecc", n.writes)
  {
    hide EccKey;
    var n := NsRwSet("ecc", [], [], [KvWrite("x", a), KvWrite("y", b)]);
    FaithfulExact(n);
    assert n.writes[1].value == b;
    assert n.writes[..1] == [n.writes[0]];
    assert EccEffects([n.writes[0]], a) == [KvWrite(EccKey("x"), a)];
  }

  lemma {:induction false} FaithfulEffects(rws: seq<NsRwSet>)
    requires forall i | 0 <= i < |rws| :: Faithful(rws[i])
    ensures Effects(rws) == Intended(rws)
  {
    hide NsEffects;
    hide PlainWrites;
    if rws != [] {
      FaithfulEffects(rws[..|rws| - 1]);
      FaithfulExact(rws[|rws| - 1]);
    }
  }

  // ----- endorsement -----

  function VersionAt(kvs: Kvs, key: string): Version {
    if key in kvs then kvs[key].version else ZERO
  }

  function PointKey(n: NsRwSet, j: nat): string
    requires j < |n.pointReads|
  {
    n.ns + "." + CString(n.pointReads[j].key)
  }

  function RangeKey(n: NsRwSet, q: nat, j: nat): string
    requires q < |n.rangeReads| && j < |n.rangeReads[q]|
  {
    n.ns + "." + ScanKey(n.rangeReads[q][j].key)
  }

  /** The ledger keys of all reads that the transaction recorded. */
  function CheckedKeys(u: Unit): set<string> {
    (set i: nat, j: nat | i < |u.rws| && j < |u.rws[i].pointReads| :: PointKey(u.rws[i], j))
    + (set i: nat, q: nat, j: nat | i < |u.rws| && q < |u.rws[i].rangeReads| && j < |u.rws[i].rangeReads[q]| ::
         RangeKey(u.rws[i], q, j))
  }

  /** The versions in the read set are those of the snapshot; a key that was absent is
      recorded with the zero version. */
  predicate ReadAt(u: Unit, snapshot: Kvs) {
    forall i | 0 <= i < |u.rws| :: NsReadAt(u.rws[i], snapshot)
  }

  predicate NsReadAt(n: NsRwSet, snapshot: Kvs) {
    && (forall j: nat | j < |n.pointReads| :: n.pointReads[j].version == VersionAt(snapshot, PointKey(n, j)))
    && forall q: nat, j: nat | q < |n.rangeReads| && j < |n.rangeReads[q]| ::
         n.rangeReads[q][j].version == VersionAt(snapshot, RangeKey(n, q, j))
  }

  predicate DistinctKeys(ws: seq<KvWrite>) {
    forall i, j | 0 <= i < j < |ws| :: ws[i].key != ws[j].key
  }

  predicate Endorsed(u: Unit, p: Program, snapshot: Kvs) {
    && ReadAt(u, snapshot)
    && p.readKeys == CheckedKeys(u)
    && Intended(u.rws) == p.body(View(ValuesOf(snapshot), p.readKeys))
  }

  /** A transaction reads every key it writes, writes a key once, and stays within what the
      ledger stores faithfully. */
  predicate WellBehaved(u: Unit) {
    && (forall i | 0 <= i < |u.rws| :: Faithful(u.rws[i]))
    && DistinctKeys(Intended(u.rws))
    && WriteKeys(Intended(u.rws)) <= CheckedKeys(u)
  }

  /** A key that was absent is recorded with version (0, 0), so that version must not be
      given to a write: the first envelope of the genesis block is a configuration. */
  predicate GenesisIsConfig(chain: seq<Block>) {
    chain != [] && chain[0].envelopes != [] ==> !chain[0].envelopes[0].Endorser?
  }

  /** Every read/write set of the chain was read on a snapshot of the same chain. */
  ghost predicate SnapshotReads(chain: seq<Block>, height: (nat, nat) -> nat) {
    forall n: nat, k: nat | n < |chain| && k < |Units(chain[n])| ::
      height(n, k) <= n && ReadAt(Units(chain[n])[k], StateAfter(chain, height(n, k)))
  }

  ghost predicate WellEndorsed(chain: seq<Block>, plan: Plan) {
    forall n: nat, k: nat | n < |chain| && k < |Units(chain[n])| ::
      && plan(n, k).height <= n
      && Endorsed(Units(chain[n])[k], plan(n, k).program, StateAfter(chain, plan(n, k).height))
      && WellBehaved(Units(chain[n])[k])
  }

  predicate Survives(chain: seq<Block>, n: nat, k: nat)
    requires n < |chain| && k < |Units(chain[n])|
  {
    ReadsValid(StateAfter(chain, n), Pending(StateAfter(chain, n), Units(chain[n]), k), Checks(Units(chain[n])[k].rws))
  }

  /** The state a unit finds at its place in the chain. */
  function Overlay(chain: seq<Block>, n: nat, k: nat): Kvs
    requires n < |chain| && k <= |Units(chain[n])|
  {
    StateAfter(chain, n) + Pending(StateAfter(chain, n), Units(chain[n]), k)
  }

  // ----- no stored version is zero -----

  lemma {:induction false} GenesisUnits(b: Block, n: nat)
    requires n <= |b.envelopes| && (b.envelopes != [] ==> !b.envelopes[0].Endorser?)
    ensures forall i | 0 <= i < |UnitsUpTo(b, n)| :: UnitsUpTo(b, n)[i].version.txNum > 0
  {
    if n > 0 {
      GenesisUnits(b, n - 1);
      if b.envelopes[n - 1].Endorser? && b.envelopes[n - 1].tx.Some? {
        TxUnitsVersion(b.envelopes[n - 1].tx.value, Version(b.number, n - 1));
      }
    }
  }

  predicate NonZero(kvs: Kvs) {
    forall k | k in kvs :: kvs[k].version != ZERO
  }

  lemma {:induction false} PendingNonZero(state: Kvs, us: seq<Unit>)
    requires forall i | 0 <= i < |us| :: us[i].version != ZERO
    ensures NonZero(ApplyUnits(state, map[], us))
  {
    if us != [] {
      var front, u := us[..|us| - 1], us[|us| - 1];
      PendingNonZero(state, front);
      InsertAllEntries(ApplyUnits(state, map[], front), Effects(u.rws), u.version);
    }
  }

  lemma UnitsNonZero(chain: seq<Block>, n: nat)
    requires IsChain(chain) && GenesisIsConfig(chain) && n < |chain|
    ensures forall i | 0 <= i < |Units(chain[n])| :: Units(chain[n])[i].version != ZERO
  {
    var b := chain[n];
    UnitsUpToVersions(b, |b.envelopes|);
    if n == 0 { GenesisUnits(b, |b.envelopes|); }
  }

  lemma {:induction false} StoredNonZero(chain: seq<Block>, n: nat)
    requires IsChain(chain) && GenesisIsConfig(chain) && n <= |chain|
    ensures NonZero(StateAfter(chain, n))
  {
    hide ApplyUnits;
    hide Units;
    if n > 0 {
      StoredNonZero(chain, n - 1);
      UnitsNonZero(chain, n - 1);
      PendingNonZero(StateAfter(chain, n - 1), Units(chain[n - 1]));
    }
  }

  // ----- a survivor read the values current at its place -----

  lemma CheckOfKey(u: Unit, key: string) returns (c: KvRead)
    requires key in CheckedKeys(u)
    ensures c.key == key && Recorded(u.rws, c)
  {
    hide CString;
    hide ScanKey;
    if i: nat, j: nat :| i < |u.rws| && j < |u.rws[i].pointReads| && key == PointKey(u.rws[i], j) {
      c := KvRead(key, u.rws[i].pointReads[j].version);
      assert PointRecorded(u.rws[i], c);
    } else {
      var i: nat, q: nat, j: nat :| i < |u.rws| && q < |u.rws[i].rangeReads| && j < |u.rws[i].rangeReads[q]| &&
        key == RangeKey(u.rws[i], q, j);
      c := KvRead(key, u.rws[i].rangeReads[q][j].version);
      assert RawRecorded(u.rws[i].ns, u.rws[i].rangeReads[q], c);
      assert RangeRecorded(u.rws[i], c);
    }
  }

  lemma RecordedReadAt(u: Unit, snapshot: Kvs, c: KvRead)
    requires ReadAt(u, snapshot) && Recorded(u.rws, c)
    ensures c.version == VersionAt(snapshot, c.key)
  {
    hide CString;
    hide ScanKey;
    hide VersionAt;
    var i :| 0 <= i < |u.rws| && (PointRecorded(u.rws[i], c) || RangeRecorded(u.rws[i], c));
    assert NsReadAt(u.rws[i], snapshot);
  }

  /** A passing read with the version of an older snapshot: the entry has not changed since,
      neither in a block in between nor by an earlier transaction of the same block. */
  lemma PassingReadIsCurrent(chain: seq<Block>, h: nat, n: nat, k: nat, c: KvRead)
    requires IsChain(chain) && GenesisIsConfig(chain) && h <= n < |chain| && k <= |Units(chain[n])|
    requires c.version == VersionAt(StateAfter(chain, h), c.key)
    requires Passes(StateAfter(chain, n), Pending(StateAfter(chain, n), Units(chain[n]), k), c)
    ensures c.key !in Pending(StateAfter(chain, n), Units(chain[n]), k)
    ensures c.key in StateAfter(chain, n) <==> c.key in StateAfter(chain, h)
    ensures c.key in StateAfter(chain, n) ==> StateAfter(chain, n)[c.key] == StateAfter(chain, h)[c.key]
  {
    hide ApplyUnits;
    hide Units;
    hide StateAfter;
    var old', now := StateAfter(chain, h), StateAfter(chain, n);
    var us := Units(chain[n]);
    VersionsBelowHeight(chain, h);
    StoredNonZero(chain, n);
    PendingFromChain(chain, n, k);
    UnitsNonZero(chain, n);
    PendingNonZero(now, us[..k]);
    if c.key in old' { VersionsIncrease(chain, h, n, c.key); }
  }

  lemma SurvivorReadsCurrent(chain: seq<Block>, height: (nat, nat) -> nat, n: nat, k: nat, key: string)
    requires IsChain(chain) && GenesisIsConfig(chain) && SnapshotReads(chain, height)
    requires n < |chain| && k < |Units(chain[n])| && Survives(chain, n, k)
    requires key in CheckedKeys(Units(chain[n])[k])
    ensures height(n, k) <= n
    ensures key !in Pending(StateAfter(chain, n), Units(chain[n]), k)
    ensures key in Overlay(chain, n, k) <==> key in StateAfter(chain, height(n, k))
    ensures key in Overlay(chain, n, k) ==> Overlay(chain, n, k)[key] == StateAfter(chain, height(n, k))[key]
  {
    hide Pending;
    hide Units;
    hide StateAfter;
    hide Checks;
    var u := Units(chain[n])[k];
    hide ReadAt;
    hide CheckedKeys;
    hide Recorded;
    var c := CheckOfKey(u, key);
    ChecksAreRecorded(u.rws, c);
    RecordedReadAt(u, StateAfter(chain, height(n, k)), c);
    PassingReadIsCurrent(chain, height(n, k), n, k, c);
  }

  // ----- survivors of a block write different keys -----

  lemma PendingStep(state: Kvs, us: seq<Unit>, k: nat)
    requires k < |us|
    ensures Pending(state, us, k + 1) == ApplyUnit(state, Pending(state, us, k), us[k])
  {
    assert us[..k + 1][..k] == us[..k];
  }

  lemma {:induction false} PendingKeeps(state: Kvs, us: seq<Unit>, j: nat, k: nat)
    requires j <= k <= |us|
    ensures Pending(state, us, j).Keys <= Pending(state, us, k).Keys
    decreases k
  {
    hide Pending;
    hide Checks;
    hide Effects;
    if j < k {
      PendingKeeps(state, us, j, k - 1);
      PendingStep(state, us, k - 1);
      InsertAllEntries(Pending(state, us, k - 1), Effects(us[k - 1].rws), us[k - 1].version);
    }
  }

  lemma DisjointWriters(chain: seq<Block>, plan: Plan, n: nat, j: nat, k: nat)
    requires IsChain(chain) && GenesisIsConfig(chain) && WellEndorsed(chain, plan)
    requires n < |chain| && j < k < |Units(chain[n])| && Survives(chain, n, j) && Survives(chain, n, k)
    ensures WriteKeys(Effects(Units(chain[n])[j].rws)) !! WriteKeys(Effects(Units(chain[n])[k].rws))
  {
    hide Pending;
    hide Units;
    hide StateAfter;
    hide Checks;
    hide Effects;
    hide WriteKeys;
    hide WellEndorsed;
    hide ReadsValid;
    var state, us := StateAfter(chain, n), Units(chain[n]);
    WritesArePending(state, us, j, k);
    WritesAreFresh(chain, plan, n, k);
  }

  lemma WritesArePending(state: Kvs, us: seq<Unit>, j: nat, k: nat)
    requires j < k <= |us| && ReadsValid(state, Pending(state, us, j), Checks(us[j].rws))
    ensures WriteKeys(Effects(us[j].rws)) <= Pending(state, us, k).Keys
  {
    hide Pending;
    hide Checks;
    hide Effects;
    hide WriteKeys;
    hide ReadsValid;
    PendingStep(state, us, j);
    PendingKeeps(state, us, j + 1, k);
    InsertAllEntries(Pending(state, us, j), Effects(us[j].rws), us[j].version);
  }

  lemma WritesAreFresh(chain: seq<Block>, plan: Plan, n: nat, k: nat)
    requires IsChain(chain) && GenesisIsConfig(chain) && WellEndorsed(chain, plan)
    requires n < |chain| && k < |Units(chain[n])| && Survives(chain, n, k)
    ensures Effects(Units(chain[n])[k].rws) == Intended(Units(chain[n])[k].rws)
    ensures WriteKeys(Effects(Units(chain[n])[k].rws)) !! Pending(StateAfter(chain, n), Units(chain[n]), k).Keys
  {
    hide Pending;
    hide Units;
    hide StateAfter;
    hide Checks;
    hide Effects;
    hide Intended;
    var u := Units(chain[n])[k];
    FaithfulEffects(u.rws);
    HeightsOf(chain, plan);
    forall key | key in WriteKeys(Effects(u.rws))
      ensures key !in Pending(StateAfter(chain, n), Units(chain[n]), k)
    {
      SurvivorReadsCurrent(chain, (n, k) => plan(n, k).height, n, k, key);
    }
  }

  lemma HeightsOf(chain: seq<Block>, plan: Plan)
    requires WellEndorsed(chain, plan)
    ensures SnapshotReads(chain, (n, k) => plan(n, k).height)
  {
  }

  // ----- serial execution -----

  /** The survivors among the first k units of block n, run one at a time on vals. */
  ghost function SerialBlock(chain: seq<Block>, plan: Plan, n: nat, k: nat, vals: Values): Values
    requires n < |chain| && k <= |Units(chain[n])|
  {
    if k == 0 then vals else
      var v := SerialBlock(chain, plan, n, k - 1, vals);
      if Survives(chain, n, k - 1) then Execute(v, plan(n, k - 1).program) else v
  }

  ghost function SerialRun(chain: seq<Block>, plan: Plan, n: nat): Values
    requires n <= |chain|
  {
    hide Units;
    if n == 0 then map[]
    else SerialBlock(chain, plan, n - 1, |Units(chain[n - 1])|, SerialRun(chain, plan, n - 1))
  }

  /** On fresh distinct keys, keeping the first write and overwriting are the same. */
  lemma {:induction false} InsertIsStore(state: Kvs, pending: Kvs, ws: seq<KvWrite>, v: Version)
    requires DistinctKeys(ws) && WriteKeys(ws) !! pending.Keys
    ensures ValuesOf(state + InsertAll(pending, ws, v)) == Store(ValuesOf(state + pending), ws)
  {
    hide Insert;
    hide ValuesOf;
    if ws != [] {
      var front, w := ws[..|ws| - 1], ws[|ws| - 1];
      assert ws == front + [w];
      WriteKeysSnoc(front, w);
      InsertIsStore(state, pending, front, v);
      InsertAllEntries(pending, front, v);
      assert w.key !in WriteKeys(front);
      StoreOne(state, InsertAll(pending, front, v), w, v);
    }
  }

  lemma StoreOne(state: Kvs, pending: Kvs, w: KvWrite, v: Version)
    requires w.key !in pending
    ensures ValuesOf(state + Insert(pending, w, v)) == ValuesOf(state + pending)[w.key := w.value]
  {
  }

  lemma ViewIsSame(a: Kvs, b: Kvs, keys: set<string>)
    requires forall k | k in keys :: (k in a <==> k in b) && (k in a ==> a[k] == b[k])
    ensures View(ValuesOf(a), keys) == View(ValuesOf(b), keys)
  {
  }

  /** Running the program again at its place in the order gives the writes that were endorsed. */
  lemma SurvivorReruns(chain: seq<Block>, plan: Plan, n: nat, k: nat)
    requires IsChain(chain) && GenesisIsConfig(chain) && WellEndorsed(chain, plan)
    requires n < |chain| && k < |Units(chain[n])| && Survives(chain, n, k)
    ensures var p := plan(n, k).program;
            p.body(View(ValuesOf(Overlay(chain, n, k)), p.readKeys)) == Intended(Units(chain[n])[k].rws)
  {
    hide Pending;
    hide Units;
    hide StateAfter;
    hide Checks;
    hide Intended;
    hide Survives;
    var p := plan(n, k).program;
    var snapshot := StateAfter(chain, plan(n, k).height);
    HeightsOf(chain, plan);
    forall key | key in p.readKeys
      ensures (key in Overlay(chain, n, k) <==> key in snapshot) &&
        (key in snapshot ==> Overlay(chain, n, k)[key] == snapshot[key])
    {
      SurvivorReadsCurrent(chain, (n, k) => plan(n, k).height, n, k, key);
    }
    ViewIsSame(Overlay(chain, n, k), snapshot, p.readKeys);
  }

  lemma {:induction false} SerializableBlock(chain: seq<Block>, plan: Plan, n: nat, k: nat)
    requires IsChain(chain) && GenesisIsConfig(chain) && WellEndorsed(chain, plan)
    requires n < |chain| && k <= |Units(chain[n])|
    ensures ValuesOf(Overlay(chain, n, k)) == SerialBlock(chain, plan, n, k, ValuesOf(StateAfter(chain, n)))
  {
    hide Units;
    hide StateAfter;
    hide Checks;
    hide Intended;
    hide Effects;
    hide ReadsValid;
    hide InsertAll;
    hide ApplyUnits;
    var state, us := StateAfter(chain, n), Units(chain[n]);
    if k == 0 {
      ApplyNone(state);
      assert us[..0] == [];
      assert state + map[] == state;
    } else {
      hide Pending;
      SerializableBlock(chain, plan, n, k - 1);
      PendingStep(state, us, k - 1);
      if Survives(chain, n, k - 1) {
        SurvivorReruns(chain, plan, n, k - 1);
        WritesAreFresh(chain, plan, n, k - 1);
        InsertIsStore(state, Pending(state, us, k - 1), Effects(us[k - 1].rws), us[k - 1].version);
      }
    }
  }

  /** The values committed by any chain are those of running its survivors, one at a time in
      block order, each on the values its predecessors left. */
  lemma {:induction false} Serializable(chain: seq<Block>, plan: Plan, n: nat)
    requires IsChain(chain) && GenesisIsConfig(chain) && WellEndorsed(chain, plan) && n <= |chain|
    ensures ValuesOf(StateAfter(chain, n)) == SerialRun(chain, plan, n)
  {
    hide ApplyUnits;
    hide Units;
    hide SerialBlock;
    if n > 0 {
      Serializable(chain, plan, n - 1);
      SerializableBlock(chain, plan, n - 1, |Units(chain[n - 1])|);
      PendingIsAll(StateAfter(chain, n - 1), Units(chain[n - 1]));
    }
  }

  // ----- two transactions that race for one key -----

  function Racer(value: string): NsRwSet {
    NsRwSet("ecc", [], [KvRead("k", ZERO)], [KvWrite("k", value)])
  }

  /** A transaction of one action with that read/write set. */
  function OneAction(n: NsRwSet): Envelope {
    Endorser(Some([Action("f", "ecc", "", Some([n]))]))
  }

  function Race(a: string, b: string): seq<Block> {
    [Block(0, true, [], [Config]), Block(1, true, [], [OneAction(Racer(a)), OneAction(Racer(b))])]
  }

  function RacePlan(a: string, b: string): Plan {
    (n: nat, k: nat) =>
      var value := if k == 0 then a else b;
      Endorsement(Program({"ecc.k"}, (vals: Values) => [KvWrite("ecc.k", value)]), if n == 0 then 0 else 1)
  }

  lemma RacerSets(value: string)
    ensures Checks([Racer(value)]) == [KvRead("ecc.k", ZERO)]
    ensures Effects([Racer(value)]) == Intended([Racer(value)]) == [KvWrite("ecc.k", value)]
  {
    hide CString;
    var n := Racer(value);
    CStringOfNulFree("k");
    assert "ecc" + "." + "k" == "ecc.k" && "ecc." + "k" == "ecc.k";
    OneNamespace(n);
    assert n.pointReads[..0] == [];
    assert PointChecks("ecc", n.pointReads) == [KvRead("ecc.k", ZERO)];
    assert RangeChecks("ecc", n.rangeReads) == [];
    OneEccWrite(n.writes[0], value);
    assert n.writes[..0] == [];
    assert PlainWrites("ecc", n.writes) == [KvWrite("ecc.k", value)];
    assert [n][..0] == [];
  }

  lemma OneActionUnits(b: Block, i: nat, n: NsRwSet)
    requires i < |b.envelopes| && b.filter == [] && b.envelopes[i] == OneAction(n)
    ensures EnvelopeUnits(b, i) == [Unit([n], Version(b.number, i))]
  {
    var actions := b.envelopes[i].tx.value;
    assert actions[1..] == [];
    assert TxUnits(actions, Version(b.number, i)) == ActionUnits(actions[0], Version(b.number, i)) + [];
  }

  lemma OneActionBlock(b: Block, n: NsRwSet)
    requires b.filter == [] && b.envelopes == [OneAction(n)]
    ensures Units(b) == [Unit([n], Version(b.number, 0))]
  {
    OneActionUnits(b, 0, n);
    hide EnvelopeUnits;
    assert UnitsUpTo(b, 1) == UnitsUpTo(b, 0) + EnvelopeUnits(b, 0);
  }

  lemma TwoActionBlock(b: Block, n: NsRwSet, n': NsRwSet)
    requires b.filter == [] && b.envelopes == [OneAction(n), OneAction(n')]
    ensures Units(b) == [Unit([n], Version(b.number, 0)), Unit([n'], Version(b.number, 1))]
  {
    OneActionUnits(b, 0, n);
    OneActionUnits(b, 1, n');
    hide EnvelopeUnits;
    assert UnitsUpTo(b, 1) == UnitsUpTo(b, 0) + EnvelopeUnits(b, 0);
    assert UnitsUpTo(b, 2) == UnitsUpTo(b, 1) + EnvelopeUnits(b, 1);
  }

  lemma ConfigBlock(b: Block)
    requires b.envelopes == [Config]
    ensures Units(b) == []
  {
    assert UnitsUpTo(b, 1) == UnitsUpTo(b, 0) + EnvelopeUnits(b, 0);
  }

  lemma RaceUnits(a: string, b: string)
    ensures Units(Race(a, b)[0]) == []
    ensures Units(Race(a, b)[1]) == [Unit([Racer(a)], Version(1, 0)), Unit([Racer(b)], Version(1, 1))]
  {
    ConfigBlock(Race(a, b)[0]);
    TwoActionBlock(Race(a, b)[1], Racer(a), Racer(b));
  }

  lemma RaceStates(a: string, b: string)
    ensures StateAfter(Race(a, b), 0) == StateAfter(Race(a, b), 1) == map[]
    ensures var us := Units(Race(a, b)[1]);
            |us| == 2 && Pending(map[], us, 0) == map[] &&
              Pending(map[], us, 1) == map["ecc.k" := Entry(a, Version(1, 0))]
  {
    hide Units;
    hide Checks;
    hide Effects;
    hide InsertAll;
    RaceUnits(a, b);
    RacerSets(a);
    var us := Units(Race(a, b)[1]);
    assert us[..1] == [us[0]] && us[..0] == [];
    ApplyNone(map[]);
    ApplyOne(map[], map[], us[0]);
    var w := KvWrite("ecc.k", a);
    InsertAllSnoc(map[], [], w, Version(1, 0));
    InsertNone(map[], Version(1, 0));
    assert [] + [w] == [w];
  }

  /** Both were endorsed on the empty state and both meet the conditions above; the one that
      comes first in the block survives and the other does not. */
  lemma FirstCommitterWins(a: string, b: string)
    ensures IsChain(Race(a, b)) && GenesisIsConfig(Race(a, b)) && WellEndorsed(Race(a, b), RacePlan(a, b))
    ensures |Units(Race(a, b)[1])| == 2 && Survives(Race(a, b), 1, 0) && !Survives(Race(a, b), 1, 1)
  {
    hide Units;
    hide Checks;
    hide Effects;
    hide Intended;
    hide StateAfter;
    hide Pending;
    RaceUnits(a, b);
    RaceStates(a, b);
    RacerSets(a);
    RacerSets(b);
    forall n: nat, k: nat | n < 2 && k < |Units(Race(a, b)[n])|
      ensures RacePlan(a, b)(n, k).height <= n
      ensures Endorsed(Units(Race(a, b)[n])[k], RacePlan(a, b)(n, k).program,
        StateAfter(Race(a, b), RacePlan(a, b)(n, k).height))
      ensures WellBehaved(Units(Race(a, b)[n])[k])
    {
      RacerBehaves(if k == 0 then a else b, Units(Race(a, b)[n])[k].version);
    }
    assert Checks(Units(Race(a, b)[1])[1].rws)[0] == KvRead("ecc.k", ZERO);
  }

  /** A transaction of one namespace that recorded one point read. */
  lemma OnePointRead(u: Unit, n: NsRwSet, snapshot: Kvs)
    requires u.rws == [n] && n.rangeReads == [] && |n.pointReads| == 1
    ensures CheckedKeys(u) == {PointKey(n, 0)}
    ensures ReadAt(u, snapshot) <==> n.pointReads[0].version == VersionAt(snapshot, PointKey(n, 0))
  {
    hide PointKey;
    assert PointKey(u.rws[0], 0) in CheckedKeys(u);
  }

  lemma RacerBehaves(value: string, v: Version)
    ensures var u := Unit([Racer(value)], v);
            && CheckedKeys(u) == {"ecc.k"} && ReadAt(u, map[]) && WellBehaved(u)
  {
    hide Checks;
    hide Intended;
    RacerSets(value);
    var u := Unit([Racer(value)], v);
    CStringOfNulFree("k");
    assert PointKey(Racer(value), 0) == "ecc.k";
    OnePointRead(u, Racer(value), map[]);
    assert Intended(u.rws)[0].key == "ecc.k";
    assert Faithful(u.rws[0]);
  }
}
