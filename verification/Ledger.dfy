/** The trusted ledger enclave (tlcc_enclave/enclave/ledger.cpp, ledger.h): blocks are taken
    in sequence, the versions of the keys a transaction read are compared with the committed
    state and with the pending updates of the block, and the updates of a block are committed
    in one step. Protobuf messages are given decoded; a part that does not decode has its own
    constructor. */
module Ledger {
  import opened Options
  import opened Lex
  import opened Keys

  const UINT32 := 0x1_0000_0000
  const ZERO := Version(0, 0)

  datatype Version = Version(blockNum: nat, txNum: nat)
  datatype Entry = Entry(value: string, version: Version)
  type Kvs = map<string, Entry>

  datatype KvRead = KvRead(key: string, version: Version)
  datatype KvWrite = KvWrite(key: string, value: string)
  datatype NsRwSet = NsRwSet(ns: string, rangeReads: seq<seq<KvRead>>, pointReads: seq<KvRead>, writes: seq<KvWrite>)

  datatype Action =
    | BadAction
    | Action(func: string, chaincode: string, response: string, results: Option<seq<NsRwSet>>)

  /** Endorser(None) is an endorser transaction whose payload does not decode. */
  datatype Envelope = BadEnvelope | Config | OtherType | Endorser(tx: Option<seq<Action>>)

  datatype Block = Block(number: nat, metadataDecodes: bool, filter: seq<nat>, envelopes: seq<Envelope>)
  datatype Message = Garbage | Decoded(block: Block)
  datatype Status = Success | ErrorDecoding | InvalidBlockNumber

  // ----- versions -----

  predicate Before(v: Version, w: Version) {
    v.blockNum < w.blockNum || (v.blockNum == w.blockNum && v.txNum < w.txNum)
  }

  /** cmp_version decides the lexicographic order of versions. */
  function CmpVersion(v1: Version, v2: Version): (r: int)
    ensures r == -1 <==> Before(v1, v2)
    ensures r == 1 <==> Before(v2, v1)
    ensures r == 0 <==> v1 == v2
  {
    if v1.blockNum > v2.blockNum then 1
    else if v1.blockNum < v2.blockNum then -1
    else if v1.txNum > v2.txNum then 1
    else if v1.txNum < v2.txNum then -1
    else 0
  }

  predicate HasVersionConflict(key: string, kvs: Kvs, v: Version) {
    key in kvs && CmpVersion(v, kvs[key].version) == -1
  }

  // ----- what a read/write set makes the ledger look at and store -----

  function RangeCheck(ns: string, r: KvRead): KvRead {
    KvRead(ns + "." + ScanKey(r.key), r.version)
  }

  function PointCheck(ns: string, r: KvRead): KvRead {
    KvRead(ns + "." + CString(r.key), r.version)
  }

  function RawChecks(ns: string, rs: seq<KvRead>): seq<KvRead> {
    if rs == [] then [] else RawChecks(ns, rs[..|rs| - 1]) + [RangeCheck(ns, rs[|rs| - 1])]
  }

  function RangeChecks(ns: string, queries: seq<seq<KvRead>>): seq<KvRead> {
    if queries == [] then []
    else RangeChecks(ns, queries[..|queries| - 1]) + RawChecks(ns, queries[|queries| - 1])
  }

  function PointChecks(ns: string, rs: seq<KvRead>): seq<KvRead> {
    if rs == [] then [] else PointChecks(ns, rs[..|rs| - 1]) + [PointCheck(ns, rs[|rs| - 1])]
  }

  function NsChecks(n: NsRwSet): seq<KvRead> {
    RangeChecks(n.ns, n.rangeReads) + PointChecks(n.ns, n.pointReads)
  }

  /** Every version comparison the read loops make, in order. */
  function Checks(rws: seq<NsRwSet>): seq<KvRead> {
    if rws == [] then []
    else Checks(rws[..|rws| - 1]) + NsChecks(rws[|rws| - 1])
  }

  predicate Passes(state: Kvs, updates: Kvs, c: KvRead) {
    !HasVersionConflict(c.key, state, c.version) && !HasVersionConflict(c.key, updates, c.version)
  }

  predicate ReadsValid(state: Kvs, updates: Kvs, checks: seq<KvRead>) {
    forall i | 0 <= i < |checks| :: Passes(state, updates, checks[i])
  }

  // ----- the recorded reads themselves -----

  predicate PointRecorded(n: NsRwSet, c: KvRead) {
    exists j | 0 <= j < |n.pointReads| ::
      c == KvRead(n.ns + "." + CString(n.pointReads[j].key), n.pointReads[j].version)
  }

  predicate RawRecorded(ns: string, raw: seq<KvRead>, c: KvRead) {
    exists j | 0 <= j < |raw| :: c == KvRead(ns + "." + ScanKey(raw[j].key), raw[j].version)
  }

  predicate RangeRecorded(n: NsRwSet, c: KvRead) {
    exists q | 0 <= q < |n.rangeReads| :: RawRecorded(n.ns, n.rangeReads[q], c)
  }

  /** Some namespace recorded a point read, or a read of a range query, of c's ledger key at
      c's version. */
  predicate Recorded(rws: seq<NsRwSet>, c: KvRead) {
    exists i | 0 <= i < |rws| :: PointRecorded(rws[i], c) || RangeRecorded(rws[i], c)
  }

  /** No entry under the key is later than the version. */
  predicate NoneLater(kvs: Kvs, key: string, v: Version) {
    key in kvs ==> !Before(v, kvs[key].version)
  }

  predicate Current(state: Kvs, updates: Kvs, key: string, v: Version) {
    NoneLater(state, key, v) && NoneLater(updates, key, v)
  }

  /** Every point read and every read of every range query of every namespace is current. */
  predicate AllCurrent(state: Kvs, updates: Kvs, rws: seq<NsRwSet>) {
    forall i | 0 <= i < |rws| :: NsCurrent(state, updates, rws[i])
  }

  predicate NsCurrent(state: Kvs, updates: Kvs, n: NsRwSet) {
    && (forall j | 0 <= j < |n.pointReads| ::
          Current(state, updates, n.ns + "." + CString(n.pointReads[j].key), n.pointReads[j].version))
    && forall q | 0 <= q < |n.rangeReads| :: RawCurrent(state, updates, n.ns, n.rangeReads[q])
  }

  predicate RawCurrent(state: Kvs, updates: Kvs, ns: string, raw: seq<KvRead>) {
    forall j | 0 <= j < |raw| :: Current(state, updates, ns + "." + ScanKey(raw[j].key), raw[j].version)
  }

  lemma {:induction false} PointChecksAre(n: NsRwSet, k: nat, c: KvRead)
    requires k <= |n.pointReads|
    ensures c in PointChecks(n.ns, n.pointReads[..k]) <==>
      exists j | 0 <= j < k :: c == KvRead(n.ns + "." + CString(n.pointReads[j].key), n.pointReads[j].version)
  {
    hide CString;
    if k > 0 {
      PointChecksAre(n, k - 1, c);
      assert n.pointReads[..k][..k - 1] == n.pointReads[..k - 1];
    }
  }

  lemma {:induction false} RawChecksAre(ns: string, raw: seq<KvRead>, k: nat, c: KvRead)
    requires k <= |raw|
    ensures c in RawChecks(ns, raw[..k]) <==>
      exists j | 0 <= j < k :: c == KvRead(ns + "." + ScanKey(raw[j].key), raw[j].version)
  {
    hide ScanKey;
    if k > 0 {
      RawChecksAre(ns, raw, k - 1, c);
      assert raw[..k][..k - 1] == raw[..k - 1];
    }
  }

  lemma {:induction false} RangeChecksAre(n: NsRwSet, k: nat, c: KvRead)
    requires k <= |n.rangeReads|
    ensures c in RangeChecks(n.ns, n.rangeReads[..k]) <==>
      exists q | 0 <= q < k :: RawRecorded(n.ns, n.rangeReads[q], c)
  {
    hide ScanKey;
    hide RawChecks;
    if k > 0 {
      RangeChecksAre(n, k - 1, c);
      assert n.rangeReads[..k][..k - 1] == n.rangeReads[..k - 1];
      var raw := n.rangeReads[k - 1];
      RawChecksAre(n.ns, raw, |raw|, c);
      assert raw[..|raw|] == raw;
    }
  }

  lemma NsChecksAre(n: NsRwSet, c: KvRead)
    ensures c in NsChecks(n) <==> PointRecorded(n, c) || RangeRecorded(n, c)
  {
    hide RawRecorded;
    hide PointChecks;
    hide RangeChecks;
    hide CString;
    PointChecksAre(n, |n.pointReads|, c);
    RangeChecksAre(n, |n.rangeReads|, c);
    assert n.pointReads[..|n.pointReads|] == n.pointReads && n.rangeReads[..|n.rangeReads|] == n.rangeReads;
  }

  lemma {:induction false} ChecksUpTo(rws: seq<NsRwSet>, k: nat, c: KvRead)
    requires k <= |rws|
    ensures c in Checks(rws[..k]) <==> exists i | 0 <= i < k :: PointRecorded(rws[i], c) || RangeRecorded(rws[i], c)
  {
    hide PointRecorded;
    hide RangeRecorded;
    hide NsChecks;
    if k > 0 {
      ChecksUpTo(rws, k - 1, c);
      assert rws[..k][..k - 1] == rws[..k - 1];
      NsChecksAre(rws[k - 1], c);
    }
  }

  /** The comparisons the loops make are those of the recorded reads, all of them and no
      others. */
  lemma ChecksAreRecorded(rws: seq<NsRwSet>, c: KvRead)
    ensures c in Checks(rws) <==> Recorded(rws, c)
  {
    hide PointRecorded;
    hide RangeRecorded;
    hide Checks;
    ChecksUpTo(rws, |rws|, c);
    assert rws[..|rws|] == rws;
  }

  lemma PassesIsCurrent(state: Kvs, updates: Kvs, c: KvRead)
    ensures Passes(state, updates, c) <==> Current(state, updates, c.key, c.version)
  {
  }

  /** The version checks pass exactly when every recorded read is current. */
  lemma ValidIsCurrent(state: Kvs, updates: Kvs, rws: seq<NsRwSet>)
    ensures ReadsValid(state, updates, Checks(rws)) <==> AllCurrent(state, updates, rws)
  {
    hide Passes;
    hide Checks;
    hide CString;
    hide ScanKey;
    hide Current;
    hide PointRecorded;
    hide RangeRecorded;
    hide NsCurrent;
    if AllCurrent(state, updates, rws) {
      forall k | 0 <= k < |Checks(rws)|
        ensures Passes(state, updates, Checks(rws)[k])
      {
        var c := Checks(rws)[k];
        ChecksAreRecorded(rws, c);
        var i :| 0 <= i < |rws| && (PointRecorded(rws[i], c) || RangeRecorded(rws[i], c));
        RecordedIsCurrent(state, updates, rws[i], c);
        PassesIsCurrent(state, updates, c);
      }
    }
    if ReadsValid(state, updates, Checks(rws)) {
      forall i | 0 <= i < |rws|
        ensures NsCurrent(state, updates, rws[i])
      {
        forall c | PointRecorded(rws[i], c) || RangeRecorded(rws[i], c)
          ensures Current(state, updates, c.key, c.version)
        {
          ChecksAreRecorded(rws, c);
          PassesIsCurrent(state, updates, c);
        }
        CurrentRecords(state, updates, rws[i]);
      }
    }
  }

  lemma RecordedIsCurrent(state: Kvs, updates: Kvs, n: NsRwSet, c: KvRead)
    requires NsCurrent(state, updates, n) && (PointRecorded(n, c) || RangeRecorded(n, c))
    ensures Current(state, updates, c.key, c.version)
  {
    hide CString;
    hide ScanKey;
    hide Current;
  }

  lemma CurrentRecords(state: Kvs, updates: Kvs, n: NsRwSet)
    requires forall c | PointRecorded(n, c) || RangeRecorded(n, c) :: Current(state, updates, c.key, c.version)
    ensures NsCurrent(state, updates, n)
  {
    hide CString;
    hide ScanKey;
    hide Current;
    forall j | 0 <= j < |n.pointReads|
      ensures Current(state, updates, n.ns + "." + CString(n.pointReads[j].key), n.pointReads[j].version)
    {
      var r := n.pointReads[j];
      assert PointRecorded(n, KvRead(n.ns + "." + CString(r.key), r.version));
    }
    forall q, j | 0 <= q < |n.rangeReads| && 0 <= j < |n.rangeReads[q]|
      ensures Current(state, updates, n.ns + "." + ScanKey(n.rangeReads[q][j].key), n.rangeReads[q][j].version)
    {
      var r := n.rangeReads[q][j];
      var c := KvRead(n.ns + "." + ScanKey(r.key), r.version);
      assert RawRecorded(n.ns, n.rangeReads[q], c);
      assert RangeRecorded(n, c);
    }
  }

  /** The key under which the ecc branch stores a write. */
  function EccKey(key: string): string {
    "ecc." + if key != "" && key[0] == NUL then ScanKey(key) else CString(key)
  }

  function LsccEffects(ws: seq<KvWrite>): seq<KvWrite> {
    if ws == [] then []
    else LsccEffects(ws[..|ws| - 1]) + [KvWrite("lscc." + CString(ws[|ws| - 1].key), ws[|ws| - 1].value)]
  }

  function ErccEffects(ws: seq<KvWrite>): seq<KvWrite> {
    if ws == [] then [] else [KvWrite("ercc." + CString(ws[0].key), ws[0].value)]
  }

  function EccEffects(ws: seq<KvWrite>, value: string): seq<KvWrite> {
    if ws == [] then []
    else EccEffects(ws[..|ws| - 1], value) + [KvWrite(EccKey(ws[|ws| - 1].key), value)]
  }

  /** The value the ecc branch stores for every key. */
  function FirstValue(ws: seq<KvWrite>): string {
    if ws == [] then "" else ws[0].value
  }

  /** The writes a namespace stores: lscc all of them, ercc the first one only, ecc all keys
      with the first value, any other namespace none. */
  function NsEffects(n: NsRwSet): seq<KvWrite> {
    if n.ns == "lscc" then LsccEffects(n.writes)
    else if n.ns == "ercc" then ErccEffects(n.writes)
    else if n.ns == "ecc" then EccEffects(n.writes, FirstValue(n.writes))
    else []
  }

  function Effects(rws: seq<NsRwSet>): seq<KvWrite> {
    if rws == [] then [] else Effects(rws[..|rws| - 1]) + NsEffects(rws[|rws| - 1])
  }

  /** std::map::insert: an entry that is there already stays. */
  function Insert(updates: Kvs, w: KvWrite, v: Version): Kvs {
    if w.key in updates then updates else updates[w.key := Entry(w.value, v)]
  }

  function InsertAll(updates: Kvs, ws: seq<KvWrite>, v: Version): Kvs {
    if ws == [] then updates
    else Insert(InsertAll(updates, ws[..|ws| - 1], v), ws[|ws| - 1], v)
  }

  // ----- a block as the list of read/write sets it runs through the checks -----

  datatype Unit = Unit(rws: seq<NsRwSet>, version: Version)

  /** An action that does not decode ends the transaction; earlier actions stay. */
  function TxUnits(actions: seq<Action>, v: Version): seq<Unit> {
    if actions == [] || actions[0].BadAction? then [] else ActionUnits(actions[0], v) + TxUnits(actions[1..], v)
  }

  function ActionUnits(a: Action, v: Version): seq<Unit>
    requires a.Action?
  {
    if a.results.Some? then [Unit(a.results.value, v)] else []
  }

  predicate Skipped(b: Block, i: nat) {
    i < |b.filter| && b.filter[i] == 1
  }

  function EnvelopeUnits(b: Block, i: nat): seq<Unit>
    requires i < |b.envelopes|
  {
    if !Skipped(b, i) && b.envelopes[i].Endorser? && b.envelopes[i].tx.Some?
    then TxUnits(b.envelopes[i].tx.value, Version(b.number, i))
    else []
  }

  predicate Decodes(b: Block) {
    forall i | 0 <= i < |b.envelopes| :: b.envelopes[i].BadEnvelope? ==> Skipped(b, i)
  }

  function UnitsUpTo(b: Block, n: nat): seq<Unit>
    requires n <= |b.envelopes|
  {
    if n == 0 then [] else UnitsUpTo(b, n - 1) + EnvelopeUnits(b, n - 1)
  }

  function Units(b: Block): seq<Unit> {
    UnitsUpTo(b, |b.envelopes|)
  }

  function ApplyUnit(state: Kvs, updates: Kvs, u: Unit): Kvs {
    if ReadsValid(state, updates, Checks(u.rws)) then InsertAll(updates, Effects(u.rws), u.version) else updates
  }

  function ApplyUnits(state: Kvs, updates: Kvs, us: seq<Unit>): Kvs {
    if us == [] then updates
    else ApplyUnit(state, ApplyUnits(state, updates, us[..|us| - 1]), us[|us| - 1])
  }

  /** The update map after the first k units. */
  function Pending(state: Kvs, us: seq<Unit>, k: nat): Kvs
    requires k <= |us|
  {
    ApplyUnits(state, map[], us[..k])
  }

  datatype LedgerState = LedgerState(state: Kvs, seqNo: nat)

  /** The counter starts at -1 in an unsigned 32-bit variable. */
  const START := LedgerState(map[], UINT32 - 1)

  predicate Accepts(l: LedgerState, m: Message) {
    && m.Decoded?
    && m.block.number % UINT32 == (l.seqNo + 1) % UINT32
    && m.block.metadataDecodes
    && Decodes(m.block)
  }

  function Deliver(l: LedgerState, m: Message): LedgerState {
    if Accepts(l, m) then
      LedgerState(l.state + ApplyUnits(l.state, map[], Units(m.block)), m.block.number % UINT32)
    else l
  }

  function StatusOf(l: LedgerState, m: Message): Status {
    if m.Garbage? then ErrorDecoding
    else if m.block.number % UINT32 != (l.seqNo + 1) % UINT32 then InvalidBlockNumber
    else if !m.block.metadataDecodes || !Decodes(m.block) then ErrorDecoding
    else Success
  }

  // ----- what the enclave hashes to verify an endorsement -----

  function RawNames(rs: seq<KvRead>): set<string> {
    if rs == [] then {} else RawNames(rs[..|rs| - 1]) + {"." + ScanKey(rs[|rs| - 1].key)}
  }

  function RangeNames(queries: seq<seq<KvRead>>): set<string> {
    if queries == [] then {} else RangeNames(queries[..|queries| - 1]) + RawNames(queries[|queries| - 1])
  }

  function PointNames(rs: seq<KvRead>): set<string> {
    if rs == [] then {} else PointNames(rs[..|rs| - 1]) + {CString(rs[|rs| - 1].key)}
  }

  function NsEccReads(n: NsRwSet): set<string> {
    if n.ns == "ecc" then RangeNames(n.rangeReads) + PointNames(n.pointReads) else {}
  }

  function EccReads(rws: seq<NsRwSet>): set<string> {
    if rws == [] then {} else EccReads(rws[..|rws| - 1]) + NsEccReads(rws[|rws| - 1])
  }

  /** The enclave's name of a written key: the ledger key without "ecc", and without the
      dot when the key is not composite. */
  function EccWriteName(key: string): string {
    if key != "" && key[0] == NUL then "." + ScanKey(key) else CString(key)
  }

  function InsertString(m: map<string, string>, k: string, v: string): map<string, string> {
    if k in m then m else m[k := v]
  }

  function NameWrites(m: map<string, string>, ws: seq<KvWrite>, value: string): map<string, string> {
    if ws == [] then m
    else InsertString(NameWrites(m, ws[..|ws| - 1], value), EccWriteName(ws[|ws| - 1].key), value)
  }

  function NsEccWrites(m: map<string, string>, n: NsRwSet): map<string, string> {
    if n.ns == "ecc" then NameWrites(m, n.writes, FirstValue(n.writes)) else m
  }

  function EccWrites(rws: seq<NsRwSet>): map<string, string> {
    if rws == [] then map[]
    else NsEccWrites(EccWrites(rws[..|rws| - 1]), rws[|rws| - 1])
  }

  function PairBytes(keys: seq<string>, m: map<string, string>): string
    requires forall i | 0 <= i < |keys| :: keys[i] in m
  {
    if keys == [] then ""
    else PairBytes(keys[..|keys| - 1], m) + keys[|keys| - 1] + m[keys[|keys| - 1]]
  }

  function OrderedPairBytes(m: map<string, string>): string {
    OrderedKeysIn(m);
    PairBytes(Ordered(m.Keys), m)
  }

  lemma OrderedKeysIn<V>(m: map<string, V>)
    ensures forall i | 0 <= i < |Ordered(m.Keys)| :: Ordered(m.Keys)[i] in m
  {
    forall i | 0 <= i < |Ordered(m.Keys)|
      ensures Ordered(m.Keys)[i] in m
    {
      assert Ordered(m.Keys)[i] in Elements(Ordered(m.Keys));
    }
  }

  function SignedBytes(a: Action): string
    requires a.Action? && a.results.Some?
  {
    a.func + a.response + Concat(Ordered(EccReads(a.results.value))) + OrderedPairBytes(EccWrites(a.results.value))
  }

  // ----- the enclave's loops -----

  lemma ReadsValidAppend(state: Kvs, updates: Kvs, a: seq<KvRead>, b: seq<KvRead>)
    ensures ReadsValid(state, updates, a + b) <==> ReadsValid(state, updates, a) && ReadsValid(state, updates, b)
  {
    assert forall i | 0 <= i < |a| :: (a + b)[i] == a[i];
    assert forall i | 0 <= i < |b| :: (a + b)[|a| + i] == b[i];
  }

  lemma NoReads(state: Kvs, updates: Kvs)
    ensures ReadsValid(state, updates, [])
  {
  }

  lemma ReadsValidSnoc(state: Kvs, updates: Kvs, a: seq<KvRead>, c: KvRead)
    ensures ReadsValid(state, updates, a + [c]) <==>
            ReadsValid(state, updates, a) && !HasVersionConflict(c.key, state, c.version) &&
              !HasVersionConflict(c.key, updates, c.version)
  {
    assert forall i | 0 <= i < |a| :: (a + [c])[i] == a[i];
    assert (a + [c])[|a|] == c;
  }

  method CheckReads(state: Kvs, updates: Kvs, rws: seq<NsRwSet>) returns (valid: bool, eccReads: set<string>)
    ensures valid <==> AllCurrent(state, updates, rws)
    ensures valid <==> ReadsValid(state, updates, Checks(rws))
    ensures eccReads == EccReads(rws)
  {
    hide AllCurrent;
    valid, eccReads := true, {};
    for i := 0 to |rws|
      invariant valid <==> ReadsValid(state, updates, Checks(rws[..i]))
      invariant eccReads == EccReads(rws[..i])
    {
      var n := rws[i];
      assert rws[..i + 1][..i] == rws[..i];
      var v, e := CheckNsReads(state, updates, n);
      ReadsValidAppend(state, updates, Checks(rws[..i]), NsChecks(n));
      valid, eccReads := valid && v, eccReads + e;
    }
    assert rws[..|rws|] == rws;
    ValidIsCurrent(state, updates, rws);
  }

  method CheckNsReads(state: Kvs, updates: Kvs, n: NsRwSet) returns (valid: bool, eccReads: set<string>)
    ensures valid <==> ReadsValid(state, updates, NsChecks(n))
    ensures eccReads == NsEccReads(n)
  {
    var v1, e1 := CheckRangeReads(state, updates, n.ns, n.rangeReads);
    var v2, e2 := CheckPointReads(state, updates, n.ns, n.pointReads);
    ReadsValidAppend(state, updates, RangeChecks(n.ns, n.rangeReads), PointChecks(n.ns, n.pointReads));
    valid := v1 && v2;
    eccReads := if n.ns == "ecc" then e1 + e2 else {};
  }

  method CheckRangeReads(state: Kvs, updates: Kvs, ns: string, queries: seq<seq<KvRead>>)
    returns (valid: bool, names: set<string>)
    ensures valid <==> ReadsValid(state, updates, RangeChecks(ns, queries))
    ensures ns == "ecc" ==> names == RangeNames(queries)
  {
    hide ReadsValid;
    hide RawChecks;
    hide RawNames;
    NoReads(state, updates);
    valid, names := true, {};
    for q := 0 to |queries|
      invariant valid <==> ReadsValid(state, updates, RangeChecks(ns, queries[..q]))
      invariant ns == "ecc" ==> names == RangeNames(queries[..q])
    {
      assert queries[..q + 1][..q] == queries[..q];
      var v, e := CheckRawReads(state, updates, ns, queries[q]);
      ReadsValidAppend(state, updates, RangeChecks(ns, queries[..q]), RawChecks(ns, queries[q]));
      valid, names := valid && v, names + e;
    }
    assert queries[..|queries|] == queries;
  }

  method CheckRawReads(state: Kvs, updates: Kvs, ns: string, raw: seq<KvRead>) returns (valid: bool, names: set<string>)
    ensures valid <==> ReadsValid(state, updates, RawChecks(ns, raw))
    ensures ns == "ecc" ==> names == RawNames(raw)
  {
    hide ScanKey;
    hide HasVersionConflict;
    valid, names := true, {};
    for j := 0 to |raw|
      invariant valid <==> ReadsValid(state, updates, RawChecks(ns, raw[..j]))
      invariant ns == "ecc" ==> names == RawNames(raw[..j])
    {
      assert raw[..j + 1][..j] == raw[..j];
      var key := ns + "." + ScanKey(raw[j].key);
      ReadsValidSnoc(state, updates, RawChecks(ns, raw[..j]), RangeCheck(ns, raw[j]));
      if ns == "ecc" {
        assert key[3..] == "." + ScanKey(raw[j].key);
        names := names + {key[3..]};
      }
      if HasVersionConflict(key, state, raw[j].version) || HasVersionConflict(key, updates, raw[j].version) {
        valid := false;
      }
    }
    assert raw[..|raw|] == raw;
  }

  method CheckPointReads(state: Kvs, updates: Kvs, ns: string, rs: seq<KvRead>)
    returns (valid: bool, names: set<string>)
    ensures valid <==> ReadsValid(state, updates, PointChecks(ns, rs))
    ensures ns == "ecc" ==> names == PointNames(rs)
  {
    hide CString;
    hide HasVersionConflict;
    valid, names := true, {};
    for i := 0 to |rs|
      invariant valid <==> ReadsValid(state, updates, PointChecks(ns, rs[..i]))
      invariant ns == "ecc" ==> names == PointNames(rs[..i])
    {
      assert rs[..i + 1][..i] == rs[..i];
      var key := ns + "." + CString(rs[i].key);
      ReadsValidSnoc(state, updates, PointChecks(ns, rs[..i]), PointCheck(ns, rs[i]));
      if ns == "ecc" {
        assert key[4..] == CString(rs[i].key);
        names := names + {key[4..]};
      }
      if HasVersionConflict(key, state, rs[i].version) || HasVersionConflict(key, updates, rs[i].version) {
        valid := false;
      }
    }
    assert rs[..|rs|] == rs;
  }

  lemma {:induction false} InsertAllAppend(updates: Kvs, a: seq<KvWrite>, b: seq<KvWrite>, v: Version)
    ensures InsertAll(updates, a + b, v) == InsertAll(InsertAll(updates, a, v), b, v)
  {
    if b == [] {
      assert a + b == a;
    } else {
      assert (a + b)[..|a + b| - 1] == a + b[..|b| - 1];
      InsertAllAppend(updates, a, b[..|b| - 1], v);
    }
  }

  method CollectWrites(updates: Kvs, rws: seq<NsRwSet>, v: Version)
    returns (updates': Kvs, eccWrites: map<string, string>)
    ensures updates' == InsertAll(updates, Effects(rws), v)
    ensures eccWrites == EccWrites(rws)
  {
    updates', eccWrites := updates, map[];
    for i := 0 to |rws|
      invariant updates' == InsertAll(updates, Effects(rws[..i]), v)
      invariant eccWrites == EccWrites(rws[..i])
    {
      var n := rws[i];
      assert rws[..i + 1][..i] == rws[..i] && rws[..i + 1][i] == n;
      InsertAllAppend(updates, Effects(rws[..i]), NsEffects(n), v);
      updates', eccWrites := CollectNsWrites(updates', eccWrites, n, v);
    }
    assert rws[..|rws|] == rws;
  }

  method CollectNsWrites(updates: Kvs, writes: map<string, string>, n: NsRwSet, v: Version)
    returns (updates': Kvs, eccWrites: map<string, string>)
    ensures updates' == InsertAll(updates, NsEffects(n), v)
    ensures eccWrites == NsEccWrites(writes, n)
  {
    updates', eccWrites := updates, writes;
    if n.ns == "lscc" {
      updates' := CollectLsccWrites(updates, n.writes, v);
    } else if n.ns == "ercc" {
      updates' := CollectErccWrite(updates, n.writes, v);
    } else if n.ns == "ecc" {
      updates', eccWrites := CollectEccWrites(updates, writes, n.writes, v);
    }
  }

  method CollectLsccWrites(updates: Kvs, ws: seq<KvWrite>, v: Version) returns (updates': Kvs)
    ensures updates' == InsertAll(updates, LsccEffects(ws), v)
  {
    updates' := updates;
    for i := 0 to |ws|
      invariant updates' == InsertAll(updates, LsccEffects(ws[..i]), v)
    {
      assert ws[..i + 1][..i] == ws[..i];
      var w := KvWrite("lscc." + CString(ws[i].key), ws[i].value);
      InsertAllSnoc(updates, LsccEffects(ws[..i]), w, v);
      updates' := Insert(updates', w, v);
    }
    assert ws[..|ws|] == ws;
  }

  method CollectErccWrite(updates: Kvs, ws: seq<KvWrite>, v: Version) returns (updates': Kvs)
    ensures updates' == InsertAll(updates, ErccEffects(ws), v)
  {
    updates' := updates;
    if ws != [] {
      var w := KvWrite("ercc." + CString(ws[0].key), ws[0].value);
      InsertAllSnoc(updates, [], w, v);
      assert [] + [w] == [w];
      updates' := Insert(updates', w, v);
    }
  }

  method CollectEccWrites(updates: Kvs, writes: map<string, string>, ws: seq<KvWrite>, v: Version)
    returns (updates': Kvs, eccWrites: map<string, string>)
    ensures updates' == InsertAll(updates, EccEffects(ws, FirstValue(ws)), v)
    ensures eccWrites == NameWrites(writes, ws, FirstValue(ws))
  {
    hide EccKey;
    hide EccWriteName;
    hide InsertAll;
    hide Insert;
    hide InsertString;
    assert InsertAll(updates, [], v) == updates by { InsertNone(updates, v); }
    updates', eccWrites := updates, writes;
    for i := 0 to |ws|
      invariant updates' == InsertAll(updates, EccEffects(ws[..i], FirstValue(ws)), v)
      invariant eccWrites == NameWrites(writes, ws[..i], FirstValue(ws))
    {
      assert ws[..i + 1][..i] == ws[..i];
      var val := ws[0].value;
      var key, kkey := EccLedgerKey(ws[i].key);
      InsertAllSnoc(updates, EccEffects(ws[..i], val), KvWrite(key, val), v);
      updates' := Insert(updates', KvWrite(key, val), v);
      eccWrites := InsertString(eccWrites, kkey, val);
    }
    assert ws[..|ws|] == ws;
  }

  method EccLedgerKey(raw: string) returns (key: string, kkey: string)
    ensures key == EccKey(raw) && kkey == EccWriteName(raw)
  {
    key, kkey := "ecc.", "";
    if raw != "" && raw[0] == NUL {
      key := key + ScanKey(raw);
      assert key[3..] == "." + ScanKey(raw);
      kkey := kkey + key[3..];
    } else {
      key := key + CString(raw);
      kkey := kkey + CString(raw);
    }
  }

  lemma InsertNone(updates: Kvs, v: Version)
    ensures InsertAll(updates, [], v) == updates
  {
  }

  lemma InsertAllSnoc(updates: Kvs, ws: seq<KvWrite>, w: KvWrite, v: Version)
    ensures InsertAll(updates, ws + [w], v) == Insert(InsertAll(updates, ws, v), w, v)
  {
    assert (ws + [w])[..|ws|] == ws;
  }

  /** The streaming hash of the enclave, as the bytes it is fed. */
  method DigestInput(a: Action, readSet: set<string>, writes: map<string, string>) returns (bytes: string)
    requires a.Action?
    ensures bytes == a.func + a.response + Concat(Ordered(readSet)) + OrderedPairBytes(writes)
  {
    bytes := a.func + a.response;
    bytes := FeedKeys(bytes, Ordered(readSet));
    OrderedKeysIn(writes);
    bytes := FeedPairs(bytes, Ordered(writes.Keys), writes);
  }

  method FeedKeys(start: string, keys: seq<string>) returns (bytes: string)
    ensures bytes == start + Concat(keys)
  {
    bytes := start;
    for i := 0 to |keys|
      invariant bytes == start + Concat(keys[..i])
    {
      ConcatAppend(keys[..i], [keys[i]]);
      assert keys[..i + 1] == keys[..i] + [keys[i]] && Concat([keys[i]]) == keys[i];
      bytes := bytes + keys[i];
    }
    assert keys[..|keys|] == keys;
  }

  method FeedPairs(start: string, keys: seq<string>, m: map<string, string>) returns (bytes: string)
    requires forall i | 0 <= i < |keys| :: keys[i] in m
    ensures bytes == start + PairBytes(keys, m)
  {
    bytes := start;
    for i := 0 to |keys|
      invariant bytes == start + PairBytes(keys[..i], m)
    {
      assert keys[..i + 1][..i] == keys[..i];
      bytes := bytes + keys[i] + m[keys[i]];
    }
    assert keys[..|keys|] == keys;
  }

  lemma {:induction false} ApplyUnitsAppend(state: Kvs, updates: Kvs, a: seq<Unit>, b: seq<Unit>)
    ensures ApplyUnits(state, updates, a + b) == ApplyUnits(state, ApplyUnits(state, updates, a), b)
  {
    if b == [] {
      assert a + b == a;
    } else {
      assert (a + b)[..|a + b| - 1] == a + b[..|b| - 1];
      ApplyUnitsAppend(state, updates, a, b[..|b| - 1]);
    }
  }

  /** The read, write and signature part of one action; digest is the byte string whose
      signature it verifies. */
  method ParseAction(state: Kvs, updates: Kvs, a: Action, v: Version)
    returns (updates': Kvs, digest: Option<string>)
    requires a.Action?
    ensures updates' == ApplyUnits(state, updates, ActionUnits(a, v))
    ensures digest.Some? <==>
            && a.results.Some? && ReadsValid(state, updates, Checks(a.results.value))
            && a.chaincode == "ecc" && a.func != "setup"
    ensures digest.Some? ==> digest.value == SignedBytes(a)
  {
    updates', digest := updates, None;
    if a.results.Some? {
      var rws := a.results.value;
      ApplyOne(state, updates, Unit(rws, v));
      var valid, eccReads := CheckReads(state, updates, rws);
      if valid {
        var eccWrites;
        updates', eccWrites := CollectWrites(updates, rws, v);
        if a.chaincode == "ecc" && a.func != "setup" {
          var d := DigestInput(a, eccReads, eccWrites);
          digest := Some(d);
        }
      }
    }
  }

  lemma OneNamespace(n: NsRwSet)
    ensures Checks([n]) == NsChecks(n) && Effects([n]) == NsEffects(n)
  {
    assert [n][..0] == [];
  }

  lemma OneEccWrite(w: KvWrite, value: string)
    ensures EccEffects([w], value) == [KvWrite(EccKey(w.key), value)]
  {
    assert [w][..0] == [];
  }

  lemma ApplyNone(state: Kvs)
    ensures ApplyUnits(state, map[], []) == map[]
  {
  }

  lemma ApplyOne(state: Kvs, updates: Kvs, u: Unit)
    ensures ApplyUnits(state, updates, [u]) == ApplyUnit(state, updates, u)
  {
    assert [u][..0] == [];
  }

  method ParseEndorserTransaction(state: Kvs, updates: Kvs, actions: seq<Action>, v: Version) returns (updates': Kvs)
    ensures updates' == ApplyUnits(state, updates, TxUnits(actions, v))
  {
    updates' := updates;
    for i := 0 to |actions|
      invariant ApplyUnits(state, updates', TxUnits(actions[i..], v)) == ApplyUnits(state, updates, TxUnits(actions, v))
    {
      var a := actions[i];
      TxUnitsStep(actions, i, v);
      if a.BadAction? {
        return;
      }
      ApplyUnitsAppend(state, updates', ActionUnits(a, v), TxUnits(actions[i + 1..], v));
      var digest;
      updates', digest := ParseAction(state, updates', a, v);
    }
  }

  lemma TxUnitsStep(actions: seq<Action>, i: nat, v: Version)
    requires i < |actions|
    ensures TxUnits(actions[i..], v) ==
            if actions[i].BadAction? then [] else ActionUnits(actions[i], v) + TxUnits(actions[i + 1..], v)
  {
    assert actions[i..][1..] == actions[i + 1..];
  }

  /** The envelope loop of parse_block. */
  method CollectUpdates(state: Kvs, b: Block) returns (ok: bool, updates: Kvs)
    ensures ok <==> Decodes(b)
    ensures ok ==> updates == ApplyUnits(state, map[], Units(b))
  {
    hide ApplyUnits;
    hide EnvelopeUnits;
    ok, updates := true, map[];
    ApplyNone(state);
    for i := 0 to |b.envelopes|
      invariant ok && updates == ApplyUnits(state, map[], UnitsUpTo(b, i))
      invariant forall j | 0 <= j < i :: b.envelopes[j].BadEnvelope? ==> Skipped(b, j)
    {
      ApplyUnitsAppend(state, map[], UnitsUpTo(b, i), EnvelopeUnits(b, i));
      ok, updates := ParseEnvelope(state, updates, b, i);
      if !ok {
        return;
      }
    }
  }

  method ParseEnvelope(state: Kvs, updates: Kvs, b: Block, i: nat) returns (ok: bool, updates': Kvs)
    requires i < |b.envelopes|
    ensures ok <==> (b.envelopes[i].BadEnvelope? ==> Skipped(b, i))
    ensures updates' == ApplyUnits(state, updates, EnvelopeUnits(b, i))
  {
    ok, updates' := true, updates;
    if i < |b.filter| && b.filter[i] == 1 {
      return;
    }
    match b.envelopes[i]
    case BadEnvelope =>
      ok := false;
    case Config =>
    case OtherType =>
    case Endorser(tx) =>
      if tx.Some? {
        updates' := ParseEndorserTransaction(state, updates, tx.value, Version(b.number, i));
      }
  }

  class TrustedLedger {
    var state: Kvs
    var sequenceNumber: nat

    ghost predicate Valid()
      reads this
    {
      sequenceNumber < UINT32
    }

    ghost function View(): LedgerState
      reads this
    {
      LedgerState(state, sequenceNumber)
    }

    constructor ()
      ensures Valid() && View() == START
    {
      state, sequenceNumber := map[], UINT32 - 1;
    }

    /** A block that is out of sequence or does not decode leaves state and counter alone;
        any other block commits all its updates at once. */
    method ParseBlock(m: Message) returns (status: Status)
      requires Valid()
      modifies this
      ensures Valid()
      ensures View() == Deliver(old(View()), m)
      ensures status == StatusOf(old(View()), m)
    {
      hide ApplyUnits;
      hide Units;
      hide Decodes;
      if m.Garbage? {
        return ErrorDecoding;
      }
      var b := m.block;
      if b.number % UINT32 != (sequenceNumber + 1) % UINT32 {
        return InvalidBlockNumber;
      }
      if !b.metadataDecodes {
        return ErrorDecoding;
      }
      var ok, updates := CollectUpdates(state, b);
      if !ok {
        return ErrorDecoding;
      }
      CommitStateUpdates(updates, b.number % UINT32);
      return Success;
    }

    method CommitStateUpdates(updates: Kvs, blockSequenceNumber: nat)
      requires Valid()
      requires blockSequenceNumber == (sequenceNumber + 1) % UINT32
      modifies this
      ensures Valid()
      ensures state == old(state) + updates
      ensures sequenceNumber == blockSequenceNumber
    {
      sequenceNumber := blockSequenceNumber;
      var ks := Ordered(updates.Keys);
      OrderedKeysIn(updates);
      for i := 0 to |ks|
        invariant state == old(state) + Restrict(updates, ks[..i])
        invariant sequenceNumber == blockSequenceNumber
      {
        RestrictSnoc(old(state), updates, ks, i);
        state := state[ks[i] := updates[ks[i]]];
      }
      RestrictAll(updates, ks);
    }
  }

  ghost function Restrict(m: Kvs, keys: seq<string>): Kvs
    requires forall i | 0 <= i < |keys| :: keys[i] in m
  {
    map k | k in keys :: m[k]
  }

  lemma RestrictSnoc(state: Kvs, m: Kvs, keys: seq<string>, i: nat)
    requires i < |keys| && forall i | 0 <= i < |keys| :: keys[i] in m
    ensures state + Restrict(m, keys[..i + 1]) == (state + Restrict(m, keys[..i]))[keys[i] := m[keys[i]]]
  {
    assert keys[..i + 1] == keys[..i] + [keys[i]];
  }

  lemma RestrictAll(m: Kvs, keys: seq<string>)
    requires Elements(keys) == m.Keys
    requires forall i | 0 <= i < |keys| :: keys[i] in m
    ensures Restrict(m, keys[..|keys|]) == m
  {
    assert keys[..|keys|] == keys;
    assert forall k | k in m :: k in Elements(keys);
  }
}
