/** Runs of auction invocations, each committed before the next: the flat key-value state
    holds, for every auction, exactly what a separate abstract auction would hold. */
module AuctionRuns {
  import opened Options
  import opened Lex
  import opened Keys
  import opened Auction

  // ----- the abstract auction -----

  datatype Phase = Absent | Opened | Closed
  datatype AuctionState = AuctionState(phase: Phase, book: map<string, int>)

  /** Creation, bidding while open with the last bid of a bidder standing, closing. */
  function Step(s: AuctionState, a: string, op: Op): AuctionState {
    if op.auction != a then s
    else match op
      case Create(_) => if s.phase == Absent then s.(phase := Opened) else s
      case Submit(_, b, v) => if s.phase == Opened then s.(book := s.book[b := v]) else s
      case Close(_) => if s.phase == Opened then s.(phase := Closed) else s
      case Eval(_) => s
  }

  function Spec(ops: seq<Op>, a: string): AuctionState {
    if ops == [] then AuctionState(Absent, map[]) else Step(Spec(ops[..|ops| - 1], a), a, ops[|ops| - 1])
  }

  // ----- the chaincode's runs -----

  function Commit(w: World, ws: map<string, Record>): World
    decreases |ws|
  {
    if ws.Keys == {} then w else
      var k := Least(ws.Keys);
      Commit(w[FabricKey(k) := ws[k]], ws - {k})
  }

  lemma CommitOne(w: World, k: string, r: Record)
    ensures Commit(w, map[k := r]) == w[FabricKey(k) := r]
  {
    var ws := map[k := r];
    assert ws.Keys == {k} && Least(ws.Keys) == k;
    assert ws - {k} == map[];
  }

  function Apply(w: World, op: Op): World {
    if op.Eval? then w else Commit(w, Update(w, op).writeSet)
  }

  function Run(ops: seq<Op>): World {
    if ops == [] then map[] else Apply(Run(ops[..|ops| - 1]), ops[|ops| - 1])
  }

  // ----- keys of good names do not collide -----

  function BidFabricKey(a: string, b: string): string {
    [NUL] + Marked(BidComponents(a, b), NUL)
  }

  lemma GoodComponents(a: string, b: string)
    requires GoodName(a) && GoodName(b)
    ensures AllFree(BidComponents(a, b), NUL) && AllFree(BidComponents(a, b), SEP) && AllNonEmpty(BidComponents(a, b))
    ensures AllFree([PREFIX, a], NUL) && AllFree([PREFIX, a], SEP)
  {
  }

  lemma MarkedTwo(x: string, y: string, mark: char)
    ensures Marked([x, y], mark) == x + [mark] + y + [mark]
  {
    assert [x, y][1..] == [y] && [y][1..] == [];
    assert Marked([y], mark) == y + [mark];
  }

  lemma MarkedThree(x: string, y: string, z: string, mark: char)
    ensures Marked([x, y, z], mark) == x + [mark] + y + [mark] + z + [mark]
  {
    assert [x, y, z][1..] == [y, z];
    MarkedTwo(y, z, mark);
  }

  lemma BidKeys(a: string, b: string)
    requires GoodName(a) && GoodName(b)
    ensures BidKey(a, b) == [SEP] + Marked(BidComponents(a, b), SEP)
    ensures FabricKey(BidKey(a, b)) == BidFabricKey(a, b)
    ensures TransformToSgx(BidFabricKey(a, b)) == BidKey(a, b)
    ensures FabricKey(BidsPrefix(a)) == [NUL] + Marked([PREFIX, a], NUL)
    ensures FabricKey(a) == a
  {
    hide IsSgxCompositeKey;
    GoodComponents(a, b);
    MarkedThree(PREFIX, a, b, SEP);
    MarkedTwo(PREFIX, a, SEP);
    assert BidKey(a, b) == [SEP] + Marked(BidComponents(a, b), SEP);
    assert BidsPrefix(a) == [SEP] + Marked([PREFIX, a], SEP);
    FabricKeyOf(BidComponents(a, b));
    FabricKeyOf([PREFIX, a]);
    SgxOfMarked(BidComponents(a, b));
    assert BidFabricKey(a, b)[1..] == Marked(BidComponents(a, b), NUL);
    PlainKey(a);
  }

  lemma PlainKey(a: string)
    requires GoodName(a)
    ensures FabricKey(a) == a && a[0] != NUL
  {
    assert a[0] in a;
  }

  lemma BidKeysDiffer(a: string, b: string, a': string, b': string)
    requires GoodName(a) && GoodName(b) && GoodName(a') && GoodName(b')
    ensures BidFabricKey(a, b) == BidFabricKey(a', b') <==> a == a' && b == b'
    ensures HasPrefix(BidFabricKey(a', b'), [NUL] + Marked([PREFIX, a], NUL)) <==> a == a'
  {
    GoodComponents(a, b);
    GoodComponents(a', b');
    var c, c', p := BidComponents(a, b), BidComponents(a', b'), [PREFIX, a];
    PrefixOfComponents(c, c', NUL);
    PrefixOfComponents(p, c', NUL);
    var x, x', y := Marked(c, NUL), Marked(c', NUL), Marked(p, NUL);
    assert ([NUL] + x)[1..] == x && ([NUL] + x')[1..] == x';
    assert p <= c' <==> a == a' by {
      assert c'[..2] == [PREFIX, a'];
      assert p[1] == a && [PREFIX, a'][1] == a';
    }
    assert c <= c' <==> a == a' && b == b' by {
      assert c'[..3] == c';
      assert c[1] == a && c'[1] == a' && c[2] == b && c'[2] == b';
    }
    if x == x' { assert HasPrefix(x', x); }
    assert HasPrefix([NUL] + x', [NUL] + y) <==> HasPrefix(x', y) by {
      if |y| <= |x'| {
        assert ([NUL] + x')[..|y| + 1] == [NUL] + x'[..|y|];
        assert ([NUL] + x'[..|y|])[1..] == x'[..|y|] && ([NUL] + y)[1..] == y;
      }
    }
  }

  // ----- refinement -----

  /** Every entry is an auction record under its name or a bid under its composite key. */
  ghost predicate Shaped(w: World) {
    forall f | f in w ::
      || (GoodName(f) && w[f].AuctionRecord? && w[f].name == f)
      || exists a, b :: GoodName(a) && GoodName(b) && f == BidFabricKey(a, b) && w[f].BidRecord? && w[f].bidder == b
  }

  ghost predicate Holds(w: World, a: string, s: AuctionState) {
    && (a in w <==> s.phase != Absent)
    && (a in w ==> w[a] == AuctionRecord(a, s.phase == Opened))
    && (forall b | b in s.book :: GoodName(b))
    && (forall b | GoodName(b) :: BidFabricKey(a, b) in w <==> b in s.book)
    && (forall b | b in s.book :: w[BidFabricKey(a, b)] == BidRecord(b, s.book[b]))
  }

  lemma NameIsNoBidKey(a: string, x: string, y: string)
    requires GoodName(a)
    ensures a != BidFabricKey(x, y)
  {
    PlainKey(a);
  }

  lemma PutAuction(w: World, a: string, open: bool, a': string, s: AuctionState)
    requires GoodName(a) && GoodName(a') && Shaped(w) && Holds(w, a', s)
    ensures Shaped(w[a := AuctionRecord(a, open)])
    ensures a' != a ==> Holds(w[a := AuctionRecord(a, open)], a', s)
    ensures a' == a && (s.phase == Absent || s.phase == Opened) ==>
              Holds(w[a := AuctionRecord(a, open)], a', s.(phase := if open then Opened else Closed))
  {
    hide BidFabricKey;
    forall x, y
      ensures a != BidFabricKey(x, y)
    {
      NameIsNoBidKey(a, x, y);
    }
  }

  lemma PutBid(w: World, a: string, b: string, v: int, a': string, s: AuctionState)
    requires GoodName(a) && GoodName(b) && GoodName(a') && Shaped(w) && Holds(w, a', s)
    ensures Shaped(w[BidFabricKey(a, b) := BidRecord(b, v)])
    ensures Holds(w[BidFabricKey(a, b) := BidRecord(b, v)], a', if a' == a then s.(book := s.book[b := v]) else s)
  {
    hide BidFabricKey;
    var w' := w[BidFabricKey(a, b) := BidRecord(b, v)];
    NameIsNoBidKey(a', a, b);
    forall c | GoodName(c)
      ensures BidFabricKey(a', c) == BidFabricKey(a, b) <==> a' == a && c == b
    {
      BidKeysDiffer(a', c, a, b);
    }
  }

  lemma ApplyHolds(w: World, op: Op, a: string, s: AuctionState, own: AuctionState)
    requires GoodOp(op) && GoodName(a) && Shaped(w) && Holds(w, a, s) && Holds(w, op.auction, own)
    ensures Shaped(Apply(w, op)) && Holds(Apply(w, op), a, Step(s, a, op))
  {
    hide BidFabricKey;
    hide Commit;
    hide Shaped;
    hide FabricKey;
    PlainKey(op.auction);
    if op.auction == a { HoldsUnique(w, a, s, own); }
    match op
    case Create(x) =>
      if own.phase == Absent {
        CommitOne(w, x, AuctionRecord(x, true));
        PutAuction(w, x, true, a, s);
      } else {
        assert Commit(w, map[]) == w by { CommitNone(w); }
      }
    case Submit(x, b, v) =>
      if own.phase == Opened {
        CommitOne(w, BidKey(x, b), BidRecord(b, v));
        BidKeys(x, b);
        PutBid(w, x, b, v, a, s);
      } else {
        assert Commit(w, map[]) == w by { CommitNone(w); }
      }
    case Close(x) =>
      if own.phase == Opened {
        CommitOne(w, x, AuctionRecord(x, false));
        PutAuction(w, x, false, a, s);
      } else {
        assert Commit(w, map[]) == w by { CommitNone(w); }
      }
    case Eval(_) =>
  }

  lemma CommitNone(w: World)
    ensures Commit(w, map[]) == w
  {
  }

  lemma HoldsUnique(w: World, a: string, s: AuctionState, s': AuctionState)
    requires Holds(w, a, s) && Holds(w, a, s')
    ensures s.phase == s'.phase || (s.phase != Absent && s'.phase != Absent)
    ensures s.phase == Opened <==> s'.phase == Opened
  {
  }

  /** After any run with good names, the state holds for every auction what the abstract
      auction holds after the same operations. */
  lemma {:induction false} Refines(ops: seq<Op>, a: string)
    requires GoodName(a) && forall i | 0 <= i < |ops| :: GoodOp(ops[i])
    ensures Shaped(Run(ops)) && Holds(Run(ops), a, Spec(ops, a))
  {
    hide BidFabricKey;
    hide Apply;
    hide Step;
    if ops != [] {
      var front, op := ops[..|ops| - 1], ops[|ops| - 1];
      Refines(front, a);
      Refines(front, op.auction);
      ApplyHolds(Run(front), op, a, Spec(front, a), Spec(front, op.auction));
    }
  }

  /** The range query of an evaluation sees each bidder's standing bid and nothing else. */
  lemma RangeIsBook(w: World, a: string, s: AuctionState)
    requires GoodName(a) && Shaped(w) && Holds(w, a, s)
    ensures forall b | b in s.book ::
              BidKey(a, b) in RangeQuery(w, BidsPrefix(a)) &&
                RangeQuery(w, BidsPrefix(a))[BidKey(a, b)] == BidRecord(b, s.book[b])
    ensures forall k | k in RangeQuery(w, BidsPrefix(a)) :: exists b :: b in s.book && k == BidKey(a, b)
  {
    hide BidFabricKey;
    hide BidKey;
    hide FabricKey;
    var p := BidsPrefix(a);
    forall b | b in s.book
      ensures BidKey(a, b) in RangeQuery(w, p) && RangeQuery(w, p)[BidKey(a, b)] == BidRecord(b, s.book[b])
    {
      BidKeys(a, b);
      BidKeysDiffer(a, b, a, b);
      var f := BidFabricKey(a, b);
      assert f in w && HasPrefix(f, FabricKey(p)) && TransformToSgx(f) == BidKey(a, b);
      assert BidKey(a, b) in RangeKeys(w, p);
      var g := FabricOf(w, p, BidKey(a, b));
      var c := BidderBehind(w, a, s, g);
      BidKeys(a, c);
      assert c == b by { SameBidKey(a, b, c); }
    }
    forall k | k in RangeQuery(w, p)
      ensures exists b :: b in s.book && k == BidKey(a, b)
    {
      var c := BidderBehind(w, a, s, FabricOf(w, p, k));
      BidKeys(a, c);
    }
  }

  lemma BidderBehind(w: World, a: string, s: AuctionState, f: string) returns (b: string)
    requires GoodName(a) && Shaped(w) && Holds(w, a, s) && f in w && HasPrefix(f, FabricKey(BidsPrefix(a)))
    ensures b in s.book && f == BidFabricKey(a, b)
  {
    hide BidFabricKey;
    hide FabricKey;
    hide Marked;
    BidKeys(a, a);
    assert f[0] == f[..|FabricKey(BidsPrefix(a))|][0] == NUL;
    if GoodName(f) {
      PlainKey(f);
      assert false;
    }
    var x, y :| GoodName(x) && GoodName(y) && f == BidFabricKey(x, y);
    BidKeysDiffer(a, y, x, y);
    b := y;
  }

  lemma SameBidKey(a: string, b: string, c: string)
    requires BidKey(a, b) == BidKey(a, c)
    ensures b == c
  {
    var p := BidsPrefix(a);
    assert BidKey(a, b) == p + b + [SEP] && BidKey(a, c) == p + c + [SEP];
    assert (p + b + [SEP])[|p|..|p| + |b|] == b;
    assert (p + c + [SEP])[|p|..|p| + |c|] == c;
  }

  // ----- closed auctions -----

  lemma {:induction false} ClosedSpec(ops: seq<Op>, more: seq<Op>, a: string)
    requires Spec(ops, a).phase == Closed
    ensures Spec(ops + more, a) == Spec(ops, a)
  {
    if more == [] {
      assert ops + more == ops;
    } else {
      var front := more[..|more| - 1];
      ClosedSpec(ops, front, a);
      assert (ops + more)[..|ops + more| - 1] == ops + front;
    }
  }

  /** Once an auction is closed, no further run changes its record or its bids. */
  lemma ClosedIsFinal(ops: seq<Op>, more: seq<Op>, a: string)
    requires GoodName(a) && Spec(ops, a).phase == Closed
    requires (forall i | 0 <= i < |ops| :: GoodOp(ops[i])) && forall i | 0 <= i < |more| :: GoodOp(more[i])
    ensures Lookup(Run(ops + more), a) == Lookup(Run(ops), a) == Some(AuctionRecord(a, false))
    ensures RangeQuery(Run(ops + more), BidsPrefix(a)) == RangeQuery(Run(ops), BidsPrefix(a))
  {
    hide RangeQuery;
    hide FabricKey;
    hide Run;
    hide Spec;
    hide BidFabricKey;
    hide BidKey;
    ClosedSpec(ops, more, a);
    Refines(ops, a);
    Refines(ops + more, a);
    PlainKey(a);
    RangeIsBook(Run(ops), a, Spec(ops, a));
    RangeIsBook(Run(ops + more), a, Spec(ops, a));
    var q, q' := RangeQuery(Run(ops), BidsPrefix(a)), RangeQuery(Run(ops + more), BidsPrefix(a));
    assert forall k | k in q :: k in q' && q'[k] == q[k];
    assert forall k | k in q' :: k in q;
  }

  // ----- the outcome -----

  predicate BeatsAll(book: map<string, int>, b: string)
    requires b in book
  {
    forall c | c in book && c != b :: book[c] < book[b]
  }

  /** The winner of a book: the only highest bidder, or a draw. */
  ghost predicate RightForBook(book: map<string, int>, r: Response) {
    && (forall b | b in book && BeatsAll(book, b) :: r == Winner(BidRecord(b, book[b])))
    && ((forall b | b in book :: !BeatsAll(book, b)) ==> r == Draw)
  }

  /** The bids of q, one per key, in key order. */
  lemma ValuesAreBook(q: map<string, Record>, a: string, book: map<string, int>)
    requires forall b | b in book :: BidKey(a, b) in q && q[BidKey(a, b)] == BidRecord(b, book[b])
    requires forall k | k in q :: exists b :: b in book && k == BidKey(a, b)
    ensures AllBids(OrderedValues(q))
    ensures forall i | 0 <= i < |OrderedValues(q)| ::
              var r := OrderedValues(q)[i]; r.BidRecord? && r.bidder in book && book[r.bidder] == r.value
    ensures forall b | b in book :: BidRecord(b, book[b]) in OrderedValues(q)
    ensures forall i, j | 0 <= i < j < |OrderedValues(q)| :: OrderedValues(q)[i] != OrderedValues(q)[j]
  {
    hide BidKey;
    var vs, ks := OrderedValues(q), Ordered(q.Keys);
    OrderedValuesIn(q);
    AscendingIsDistinct(ks);
    forall i | 0 <= i < |vs|
      ensures ks[i] in q && vs[i] == q[ks[i]] && vs[i].BidRecord? && ks[i] == BidKey(a, vs[i].bidder) &&
        vs[i].bidder in book && book[vs[i].bidder] == vs[i].value
    {
      assert ks[i] in Elements(ks);
      var b :| b in book && ks[i] == BidKey(a, b);
    }
  }

  lemma {:induction false} CountUnique(bids: seq<Record>, m: int, i: nat)
    requires AllBids(bids) && i < |bids| && bids[i].value == m
    ensures Count(bids, m) == 1 <==> forall j | 0 <= j < |bids| && j != i :: bids[j].value != m
    ensures Count(bids, m) >= 1
  {
    var front, last := bids[..|bids| - 1], bids[|bids| - 1];
    CountZero(front, m);
    if i == |bids| - 1 {
    } else {
      CountUnique(front, m, i);
      assert front[i] == bids[i];
    }
  }

  /** An evaluation of a closed auction with at least one bid answers rightly for the
      standing bids exactly when one of them is at least 0, or two bidders share the highest
      bid of -1. */
  lemma EvaluationOfRun(ops: seq<Op>, a: string, t: Tally, top: string)
    requires GoodName(a) && forall i | 0 <= i < |ops| :: GoodOp(ops[i])
    requires var book := Spec(ops, a).book; top in book && forall b | b in book :: book[b] <= book[top]
    ensures var bids := OrderedValues(RangeQuery(Run(ops), BidsPrefix(a)));
            var book := Spec(ops, a).book;
            AllBids(bids) &&
            (Tallied(bids, t) ==>
              (RightForBook(book, Announce(t)) <==> book[top] >= 0 || (book[top] == -1 && !BeatsAll(book, top))))
  {
    hide RangeQuery;
    hide Run;
    hide Spec;
    hide BidKey;
    hide OrderedValues;
    hide Holds;
    hide Tallied;
    hide Count;
    var book, q := Spec(ops, a).book, RangeQuery(Run(ops), BidsPrefix(a));
    Refines(ops, a);
    RangeIsBook(Run(ops), a, Spec(ops, a));
    ValuesAreBook(q, a, book);
    var bids := OrderedValues(q);
    var i :| 0 <= i < |bids| && bids[i] == BidRecord(top, book[top]);
    if Tallied(bids, t) {
      AnswerForBook(bids, book, top, i, t);
    }
  }

  lemma AnswerForBook(bids: seq<Record>, book: map<string, int>, top: string, i: nat, t: Tally)
    requires AllBids(bids) && Tallied(bids, t)
    requires top in book && (forall b | b in book :: book[b] <= book[top]) && i < |bids| &&
      bids[i] == BidRecord(top, book[top])
    requires forall i | 0 <= i < |bids| ::
               var r := bids[i]; r.BidRecord? && r.bidder in book && book[r.bidder] == r.value
    requires forall b | b in book :: BidRecord(b, book[b]) in bids
    requires forall i, j | 0 <= i < j < |bids| :: bids[i] != bids[j]
    ensures RightForBook(book, Announce(t)) <==> book[top] >= 0 || (book[top] == -1 && !BeatsAll(book, top))
  {
    hide Tallied;
    hide Count;
    hide Announce;
    var m := book[top];
    assert IsMax(bids, m);
    EvaluationExact(bids, m, t);
    CountUnique(bids, m, i);
    if BeatsAll(book, top) {
      assert forall j | 0 <= j < |bids| && j != i :: bids[j].value != m by {
        forall j | 0 <= j < |bids| && j != i
          ensures bids[j].value != m
        {
          assert bids[j] != bids[i];
        }
      }
    } else {
      var c :| c in book && c != top && book[c] == m;
      var j :| 0 <= j < |bids| && bids[j] == BidRecord(c, book[c]);
      assert j != i && bids[j].value == m;
    }
    assert forall m' | IsMax(bids, m') :: m' == m;
    assert forall b | b in book && BeatsAll(book, b) :: b == top;
  }

  // ----- the answers over a run -----

  lemma LookupOfRun(ops: seq<Op>, a: string)
    requires GoodName(a) && forall i | 0 <= i < |ops| :: GoodOp(ops[i])
    ensures var phase := Spec(ops, a).phase;
      Lookup(Run(ops), a) == if phase == Absent then None else Some(AuctionRecord(a, phase == Opened))
  {
    hide Run;
    hide Spec;
    hide Shaped;
    hide BidFabricKey;
    Refines(ops, a);
    PlainKey(a);
  }

  /** What create, submit and close answer after any run: an auction is created once, bids and
      the closing need an open one, and a missing auction is answered like an existing one. */
  lemma AnswersOfRun(ops: seq<Op>, op: Op)
    requires GoodOp(op) && !op.Eval? && forall i | 0 <= i < |ops| :: GoodOp(ops[i])
    ensures var r := Update(Run(ops), op).response;
      match Spec(ops, op.auction).phase
      case Absent => r == (if op.Create? then Ok else AlreadyExists)
      case Opened => r == (if op.Create? then AlreadyExists else Ok)
      case Closed => r == (if op.Create? then AlreadyExists else AlreadyClosed)
  {
    hide Run;
    hide Spec;
    hide Lookup;
    LookupOfRun(ops, op.auction);
  }

  lemma NoValues(q: map<string, Record>)
    ensures OrderedValues(q) == [] <==> q.Keys == {}
  {
    OrderedValuesIn(q);
    if q.Keys != {} {
      var k :| k in q;
      assert q[k] in OrderedValues(q);
    }
  }

  /** What eval answers after any run: it wants a closed auction, tells an empty one, and
      otherwise announces a winner, a draw, or the bidder it never assigned. */
  lemma EvalOfRun(ops: seq<Op>, a: string, r: Response)
    requires GoodName(a) && (forall i | 0 <= i < |ops| :: GoodOp(ops[i])) && Evaluates(Run(ops), a, r)
    ensures var s := Spec(ops, a);
      match s.phase
      case Absent => r == AlreadyExists
      case Opened => r == AlreadyClosed
      case Closed => if s.book == map[] then r == NoBids else r.Winner? || r == Draw || r == Undefined
    ensures var s := Spec(ops, a);
      s.phase == Closed ==> forall top | top in s.book && (forall b | b in s.book :: s.book[b] <= s.book[top]) ::
        RightForBook(s.book, r) <==> s.book[top] >= 0 || (s.book[top] == -1 && !BeatsAll(s.book, top))
  {
    hide Run;
    hide Spec;
    hide Lookup;
    hide RangeQuery;
    hide OrderedValues;
    hide BidKey;
    hide Tallied;
    hide RightForBook;
    hide Holds;
    hide Shaped;
    var s, q := Spec(ops, a), RangeQuery(Run(ops), BidsPrefix(a));
    LookupOfRun(ops, a);
    Refines(ops, a);
    RangeIsBook(Run(ops), a, s);
    NoValues(q);
    if s.phase == Closed {
      if s.book == map[] {
        assert q.Keys == {};
      } else {
        var b :| b in s.book;
        assert BidKey(a, b) in q;
        ValuesAreBook(q, a, s.book);
        var t :| Tallied(OrderedValues(q), t) && r == Announce(t);
        forall top | top in s.book && forall b | b in s.book :: s.book[b] <= s.book[top]
          ensures RightForBook(s.book, r) <==> s.book[top] >= 0 || (s.book[top] == -1 && !BeatsAll(s.book, top))
        {
          EvaluationOfRun(ops, a, t, top);
        }
      }
    }
  }
}
