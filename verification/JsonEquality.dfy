/** json_value_equals and json_value_deep_copy. */
module JsonEquality {
  import opened Options
  import opened Bytes
  import opened JsonValue
  import opened JsonPaths
  import JsonPrint

  /** json_value_equals: for objects it only walks the names of the first. */
  predicate Equals(a: Json, b: Json)
    decreases a, 1, 0
  {
    match (a, b)
    case (Null, Null) => true
    case (Bool(x), Bool(y)) => x == y
    case (Number(x), Number(y)) => -0.000001 < (x - y) as real < 0.000001
    case (String(x), String(y)) => x == y
    case (Array(xs), Array(ys)) => |xs| == |ys| && ItemsEqual(a, b, |xs|)
    case (Object(xs), Object(ys)) => |xs| == |ys| && MembersEqual(a, b, |xs|)
    case _ => false
  }

  predicate ItemsEqual(a: Json, b: Json, n: nat)
    requires a.Array? && b.Array? && |a.items| == |b.items| && n <= |a.items|
    decreases a, 0, n
  {
    n == 0 || (ItemsEqual(a, b, n - 1) && Equals(a.items[n - 1], b.items[n - 1]))
  }

  /** The first n names of a have equal values in a and b. */
  predicate MembersEqual(a: Json, b: Json, n: nat)
    requires a.Object? && b.Object? && n <= |a.members|
    decreases a, 0, n
  {
    n == 0 || (
      && MembersEqual(a, b, n - 1)
      && var other := Get(b.members, a.members[n - 1].name);
         other.Some? && Equals(JsonPrint.Named(a, n - 1), other.value))
  }

  // ----- what it should mean -----

  /** A tree in which the order of members does not exist. */
  datatype Canon =
    | CNull | CBool(b: bool) | CNumber(n: int) | CText(s: CString)
    | CArray(items: seq<Canon>) | CObject(members: map<CString, Canon>)

  function Canonical(v: Json): Canon
    decreases v, 1, 0
  {
    match v
    case Null => CNull
    case Bool(b) => CBool(b)
    case Number(n) => CNumber(n)
    case String(s) => CText(s)
    case Array(items) => CArray(CanonItems(v, |items|))
    case Object(ms) => CObject(CanonMembers(v, |ms|))
  }

  function CanonItems(v: Json, n: nat): seq<Canon>
    requires v.Array? && n <= |v.items|
    decreases v, 0, n
  {
    if n == 0 then [] else CanonItems(v, n - 1) + [Canonical(v.items[n - 1])]
  }

  function CanonMembers(v: Json, n: nat): map<CString, Canon>
    requires v.Object? && n <= |v.members|
    decreases v, 0, n
  {
    if n == 0 then map[] else CanonMembers(v, n - 1)[v.members[n - 1].name := Canonical(v.members[n - 1].value)]
  }

  lemma {:induction false} CanonItemAt(v: Json, n: nat)
    requires v.Array? && n <= |v.items|
    ensures |CanonItems(v, n)| == n
    ensures forall k | 0 <= k < n :: CanonItems(v, n)[k] == Canonical(v.items[k])
    decreases n
  {
    if n > 0 { CanonItemAt(v, n - 1); }
  }

  function NamesTo(ms: seq<Member>, n: nat): set<CString>
    requires n <= |ms|
  {
    if n == 0 then {} else NamesTo(ms, n - 1) + {ms[n - 1].name}
  }

  predicate NamedBefore(ms: seq<Member>, n: nat, name: CString) {
    exists k :: 0 <= k < n <= |ms| && ms[k].name == name
  }

  lemma {:induction false} NamesAre(ms: seq<Member>, n: nat, name: CString)
    requires n <= |ms|
    ensures name in NamesTo(ms, n) <==> NamedBefore(ms, n, name)
  {
    if n > 0 {
      NamesAre(ms, n - 1, name);
      if NamedBefore(ms, n - 1, name) {
        var k :| 0 <= k < n - 1 && ms[k].name == name;
        assert ms[k].name == name;
      }
    }
  }

  /** Distinct names, counted. */
  lemma {:induction false} NamesCount(ms: seq<Member>, n: nat)
    requires n <= |ms| && DistinctNames(ms)
    ensures |NamesTo(ms, n)| == n
  {
    if n > 0 {
      NamesCount(ms, n - 1);
      NamesAre(ms, n - 1, ms[n - 1].name);
    }
  }

  lemma {:induction false} CanonKeys(v: Json, n: nat)
    requires v.Object? && n <= |v.members|
    ensures CanonMembers(v, n).Keys == NamesTo(v.members, n)
    decreases n
  {
    hide Canonical;
    if n > 0 { CanonKeys(v, n - 1); }
  }

  lemma {:induction false} CanonValue(v: Json, n: nat, k: nat)
    requires v.Object? && k < n <= |v.members| && DistinctNames(v.members)
    ensures v.members[k].name in CanonMembers(v, n)
    ensures CanonMembers(v, n)[v.members[k].name] == Canonical(v.members[k].value)
    decreases n
  {
    hide Canonical;
    if k < n - 1 { CanonValue(v, n - 1, k); }
  }

  lemma NamedSelf(v: Json, i: nat)
    requires v.Object? && DistinctNames(v.members) && i < |v.members|
    ensures JsonPrint.Named(v, i) == v.members[i].value
  {
    FindOwn(v.members, i);
  }

  lemma CloseIsEqual(x: int, y: int)
    ensures -0.000001 < (x - y) as real < 0.000001 <==> x == y
  {
  }

  /** On trees with distinct member names, equality is equality up to the order of members. */
  lemma {:induction false} EqualsExact(a: Json, b: Json)
    requires Unique(a) && Unique(b)
    ensures Equals(a, b) <==> Canonical(a) == Canonical(b)
    decreases a, 1, 0
  {
    match (a, b)
    case (Number(x), Number(y)) => CloseIsEqual(x, y);
    case (Array(xs), Array(ys)) =>
      CanonItemAt(a, |xs|);
      CanonItemAt(b, |ys|);
      if |xs| == |ys| { ItemsExact(a, b, |xs|); }
    case (Object(xs), Object(ys)) => ObjectsExact(a, b);
    case _ =>
  }

  lemma {:induction false} ItemsExact(a: Json, b: Json, n: nat)
    requires a.Array? && b.Array? && |a.items| == |b.items| && n <= |a.items| && Unique(a) && Unique(b)
    ensures ItemsEqual(a, b, n) <==> forall k | 0 <= k < n :: Canonical(a.items[k]) == Canonical(b.items[k])
    decreases a, 0, n
  {
    hide Canonical;
    if n > 0 {
      ItemsExact(a, b, n - 1);
      EqualsExact(a.items[n - 1], b.items[n - 1]);
    }
  }

  /** Member k of a has a counterpart in b. */
  predicate Matched(a: Json, b: Json, k: nat)
    requires a.Object? && b.Object? && k < |a.members|
  {
    var other := Get(b.members, a.members[k].name);
    other.Some? && Canonical(a.members[k].value) == Canonical(other.value)
  }

  lemma GetUnique(ms: seq<Member>, name: CString)
    requires Unique(Object(ms)) && Get(ms, name).Some?
    ensures Unique(Get(ms, name).value)
  {
  }

  lemma {:induction false} MembersExact(a: Json, b: Json, n: nat)
    requires a.Object? && b.Object? && n <= |a.members| && Unique(a) && Unique(b)
    ensures MembersEqual(a, b, n) <==> forall k | 0 <= k < n :: Matched(a, b, k)
    decreases a, 0, n
  {
    hide Canonical;
    hide Get;
    if n > 0 {
      MembersExact(a, b, n - 1);
      NamedSelf(a, n - 1);
      if Get(b.members, a.members[n - 1].name).Some? {
        GetUnique(b.members, a.members[n - 1].name);
        EqualsExact(a.members[n - 1].value, Get(b.members, a.members[n - 1].name).value);
      }
      assert MembersEqual(a, b, n) <==> MembersEqual(a, b, n - 1) && Matched(a, b, n - 1);
    }
  }

  lemma ObjectsExact(a: Json, b: Json)
    requires a.Object? && b.Object? && Unique(a) && Unique(b)
    ensures Equals(a, b) <==> Canonical(a) == Canonical(b)
    decreases a, 0, |a.members| + 1
  {
    hide CanonMembers;
    hide Matched;
    hide MembersEqual;
    var n := |a.members|;
    MembersExact(a, b, n);
    if Equals(a, b) {
      AllMatched(a, b);
    }
    if CanonMembers(a, n) == CanonMembers(b, |b.members|) {
      CanonKeys(a, n);
      CanonKeys(b, |b.members|);
      NamesCount(a.members, n);
      NamesCount(b.members, |b.members|);
      forall k | 0 <= k < n ensures Matched(a, b, k) {
        MapsMatch(a, b, k);
      }
    }
  }

  /** The names of a are names of b, and there are equally many: so they have the same names. */
  lemma AllMatched(a: Json, b: Json)
    requires a.Object? && b.Object? && Unique(a) && Unique(b) && |a.members| == |b.members|
    requires forall k | 0 <= k < |a.members| :: Matched(a, b, k)
    ensures CanonMembers(a, |a.members|) == CanonMembers(b, |b.members|)
  {
    hide CanonMembers;
    hide Canonical;
    var n := |a.members|;
    var ca, cb := CanonMembers(a, n), CanonMembers(b, n);
    CanonKeys(a, n);
    CanonKeys(b, n);
    forall name | name in ca ensures name in cb && ca[name] == cb[name] {
      NamesAre(a.members, n, name);
      var k :| 0 <= k < n && a.members[k].name == name;
      CanonValue(a, n, k);
      MatchedValue(a, b, k);
    }
    NamesCount(a.members, n);
    NamesCount(b.members, n);
    SubsetOfSameSize(ca.Keys, cb.Keys);
    assert ca.Keys == cb.Keys;
  }

  lemma MatchedValue(a: Json, b: Json, k: nat)
    requires a.Object? && b.Object? && Unique(b) && k < |a.members| && Matched(a, b, k)
    ensures var cb := CanonMembers(b, |b.members|);
      a.members[k].name in cb && cb[a.members[k].name] == Canonical(a.members[k].value)
  {
    hide Canonical;
    CanonValue(b, |b.members|, Find(b.members, a.members[k].name, 0).value);
  }

  lemma SubsetOfSameSize(x: set<CString>, y: set<CString>)
    requires x <= y && |x| == |y|
    ensures x == y
  {
    if x != y {
      assert !(y <= x);
      var e :| e in y && e !in x;
      assert |x + {e}| == |x| + 1;
      SmallerSubset(x + {e}, y);
    }
  }

  lemma {:induction false} SmallerSubset(x: set<CString>, y: set<CString>)
    requires x <= y
    ensures |x| <= |y|
  {
    if x != {} {
      var e :| e in x;
      SmallerSubset(x - {e}, y - {e});
    }
  }

  lemma MapsMatch(a: Json, b: Json, k: nat)
    requires a.Object? && b.Object? && Unique(a) && Unique(b) && k < |a.members|
    requires CanonMembers(a, |a.members|) == CanonMembers(b, |b.members|)
    ensures Matched(a, b, k)
  {
    hide CanonMembers;
    hide Canonical;
    var name := a.members[k].name;
    CanonValue(a, |a.members|, k);
    CanonKeys(b, |b.members|);
    NamesAre(b.members, |b.members|, name);
    var j :| 0 <= j < |b.members| && b.members[j].name == name;
    CanonValue(b, |b.members|, j);
    FindOwn(b.members, j);
  }

  /** Hence equality is an equivalence, although it only walks its first argument. */
  lemma EqualsIsEquivalence(a: Json, b: Json, c: Json)
    requires Unique(a) && Unique(b) && Unique(c)
    ensures Equals(a, a)
    ensures Equals(a, b) ==> Equals(b, a)
    ensures Equals(a, b) && Equals(b, c) ==> Equals(a, c)
  {
    EqualsExact(a, a);
    EqualsExact(a, b);
    EqualsExact(b, a);
    EqualsExact(b, c);
    EqualsExact(a, c);
  }

  // ----- deep copy -----

  function DeepCopy(v: Json): Option<Json>
    decreases v, 1, 0
  {
    match v
    case Array(_) => CopyItems(v, 0, [])
    case Object(_) => CopyMembers(v, 0, [])
    case _ => Some(v)
  }

  function CopyItems(v: Json, i: nat, done: seq<Json>): Option<Json>
    requires v.Array? && i <= |v.items|
    decreases v, 0, |v.items| - i
  {
    if i == |v.items| then Some(Array(done))
    else match DeepCopy(v.items[i])
      case None => None
      case Some(item) => CopyItems(v, i + 1, done + [item])
  }

  /** Copies what is found under each name in turn; adding a name twice fails. */
  function CopyMembers(v: Json, i: nat, done: seq<Member>): Option<Json>
    requires v.Object? && i <= |v.members|
    decreases v, 0, |v.members| - i
  {
    if i == |v.members| then Some(Object(done))
    else match DeepCopy(JsonPrint.Named(v, i))
      case None => None
      case Some(value) =>
        if Find(done, v.members[i].name, 0).Some? then None
        else CopyMembers(v, i + 1, done + [Member(v.members[i].name, value)])
  }

  /** json_value_deep_copy, with its loops. */
  method CopyValue(v: Json) returns (r: Option<Json>)
    ensures r == DeepCopy(v)
    decreases v
  {
    match v
    case Array(items) =>
      var done: seq<Json> := [];
      for i := 0 to |items|
        invariant CopyItems(v, i, done) == DeepCopy(v)
      {
        var copy := CopyValue(items[i]);
        if copy.None? {
          return None;
        }
        done := done + [copy.value];
      }
      return Some(Array(done));
    case Object(ms) =>
      var done: seq<Member> := [];
      for i := 0 to |ms|
        invariant CopyMembers(v, i, done) == DeepCopy(v)
      {
        var copy := CopyValue(JsonPrint.Named(v, i));
        if copy.None? || Find(done, ms[i].name, 0).Some? {
          return None;
        }
        done := done + [Member(ms[i].name, copy.value)];
      }
      return Some(Object(done));
    case _ =>
      return Some(v);
  }

  /** A copy succeeds exactly when no object has two members of the same name, and then it
      is the same tree. */
  lemma {:induction false} CopyExact(v: Json)
    ensures DeepCopy(v) == if Unique(v) then Some(v) else None
    decreases v, 1, 0
  {
    match v
    case Array(items) =>
      CopyItemsExact(v, 0);
      assert items[..0] == [];
    case Object(ms) =>
      CopyMembersExact(v, 0);
      assert ms[..0] == [];
    case _ =>
  }

  lemma {:induction false} CopyItemsExact(v: Json, i: nat)
    requires v.Array? && i <= |v.items|
    ensures CopyItems(v, i, v.items[..i]) ==
      if forall k | i <= k < |v.items| :: Unique(v.items[k]) then Some(v) else None
    decreases v, 0, |v.items| - i
  {
    hide DeepCopy;
    if i == |v.items| {
      assert v.items[..i] == v.items;
    } else {
      CopyExact(v.items[i]);
      CopyItemsExact(v, i + 1);
      assert v.items[..i] + [v.items[i]] == v.items[..i + 1];
    }
  }

  lemma {:induction false} CopyMembersExact(v: Json, i: nat)
    requires v.Object? && i <= |v.members| && DistinctNames(v.members[..i])
    ensures CopyMembers(v, i, v.members[..i]) ==
      if DistinctNames(v.members) && forall k | i <= k < |v.members| :: Unique(v.members[k].value)
      then Some(v) else None
    decreases v, 0, |v.members| - i
  {
    hide DeepCopy;
    var ms := v.members;
    if i == |ms| {
      assert ms[..i] == ms;
    } else {
      var name := ms[i].name;
      var taken := Find(ms[..i], name, 0);
      if taken.Some? {
        assert ms[taken.value].name == name;
      } else {
        FirstOfName(v, i);
        CopyExact(ms[i].value);
        assert ms[..i] + [ms[i]] == ms[..i + 1];
        CopyMembersExact(v, i + 1);
      }
    }
  }

  lemma FirstOfName(v: Json, i: nat)
    requires v.Object? && i < |v.members| && Find(v.members[..i], v.members[i].name, 0).None?
    ensures JsonPrint.Named(v, i) == v.members[i].value
  {
    assert forall k | 0 <= k < i :: v.members[..i][k] == v.members[k];
  }

  /** Every copy equals its source. */
  lemma CopyEquals(v: Json)
    requires DeepCopy(v).Some?
    ensures Equals(v, DeepCopy(v).value) && Equals(DeepCopy(v).value, v)
  {
    CopyExact(v);
    EqualsIsEquivalence(v, v, v);
  }
}
