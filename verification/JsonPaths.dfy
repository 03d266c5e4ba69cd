/** Dotted names: "a.b.c" reaches through nested objects. Members hold values, so a nested
    object that is changed in place is a member list put back at its index. */
module JsonPaths {
  import opened Options
  import opened Bytes
  import opened JsonValue
  import opened JsonObjects

  const DOT: byte := 0x2E

  /** strchr(name, '.'). */
  function FirstDot(name: CString): (r: Option<nat>)
    ensures r.Some? ==> r.value < |name| && name[r.value] == DOT && forall k | 0 <= k < r.value :: name[k] != DOT
    ensures r.None? ==> forall k | 0 <= k < |name| :: name[k] != DOT
  {
    DotFrom(name, 0)
  }

  function DotFrom(name: CString, i: nat): (r: Option<nat>)
    requires i <= |name|
    ensures r.Some? ==> i <= r.value < |name| && name[r.value] == DOT && forall k | i <= k < r.value :: name[k] != DOT
    ensures r.None? ==> forall k | i <= k < |name| :: name[k] != DOT
    decreases |name| - i
  {
    if i == |name| then None else if name[i] == DOT then Some(i) else DotFrom(name, i + 1)
  }

  function Get(ms: seq<Member>, name: CString): Option<Json> {
    match Find(ms, name, 0)
    case None => None
    case Some(i) => Some(ms[i].value)
  }

  /** json_value_get_object: None stands for the null pointer. */
  function AsObject(v: Option<Json>): Option<seq<Member>> {
    match v
    case Some(Object(ms)) => Some(ms)
    case _ => None
  }

  function DotGet(holder: Option<seq<Member>>, name: CString): Option<Json>
    decreases |name|
  {
    match FirstDot(name)
    case None => if holder.None? then None else Get(holder.value, name)
    case Some(d) =>
      var inner := if holder.None? then None else AsObject(Get(holder.value, name[..d]));
      DotGet(inner, name[d + 1..])
  }

  /** json_object_dotset_value: the status, and the members afterwards. */
  function DotSet(ms: seq<Member>, name: CString, value: Json, detached: bool): (bool, seq<Member>)
    decreases |name|
  {
    match FirstDot(name)
    case None => if detached then (true, SetMember(ms, name, value)) else (false, ms)
    case Some(d) =>
      match Find(ms, name[..d], 0)
      case Some(i) =>
        if !ms[i].value.Object? then (false, ms)
        else
          var r := DotSet(ms[i].value.members, name[d + 1..], value, detached);
          (r.0, ms[i := Member(ms[i].name, Object(r.1))])
      case None =>
        var r := DotSet([], name[d + 1..], value, detached);
        if r.0 then (true, ms + [Member(name[..d], Object(r.1))]) else (false, ms)
  }

  /** json_object_dotremove_internal. */
  function DotRemove(ms: seq<Member>, name: CString): (bool, seq<Member>)
    decreases |name|
  {
    match FirstDot(name)
    case None => (Find(ms, name, 0).Some?, RemoveMember(ms, name))
    case Some(d) =>
      match Find(ms, name[..d], 0)
      case None => (false, ms)
      case Some(i) =>
        if !ms[i].value.Object? then (false, ms)
        else
          var r := DotRemove(ms[i].value.members, name[d + 1..]);
          (r.0, ms[i := Member(ms[i].name, Object(r.1))])
  }

  // ----- names as lists of components -----

  /** The components of a dotted name, put together. */
  function Dotted(comps: seq<CString>): seq<byte>
    requires comps != []
  {
    if |comps| == 1 then comps[0] else comps[0] + [0x2E] + Dotted(comps[1..])
  }

  predicate NoDots(comps: seq<CString>) {
    forall i | 0 <= i < |comps| :: 0x2E !in comps[i]
  }

  /** Through the object under each component to the value under the last. */
  function Walk(ms: seq<Member>, comps: seq<CString>): Option<Json>
    requires comps != []
    decreases |comps|
  {
    match Find(ms, comps[0], 0)
    case None => None
    case Some(i) =>
      if |comps| == 1 then Some(ms[i].value)
      else if ms[i].value.Object? then Walk(ms[i].value.members, comps[1..])
      else None
  }

  lemma {:induction false} NothingBelowNull(name: CString)
    ensures DotGet(None, name) == None
    decreases |name|
  {
    if FirstDot(name).Some? { NothingBelowNull(name[FirstDot(name).value + 1..]); }
  }

  /** A dotted get follows the components of the name. */
  lemma {:induction false} GetWalks(ms: seq<Member>, comps: seq<CString>, name: CString)
    requires comps != [] && NoDots(comps) && name == Dotted(comps)
    ensures DotGet(Some(ms), name) == Walk(ms, comps)
    decreases |comps|
  {
    hide Find;
    if |comps| == 1 {
      assert FirstDot(name).None?;
    } else {
      var d, rest := |comps[0]|, Dotted(comps[1..]);
      assert name[d] == DOT && name[..d] == comps[0] && name[d + 1..] == rest;
      assert FirstDot(name) == Some(d) by {
        assert forall k | 0 <= k < d :: name[k] == comps[0][k];
      }
      var inner := AsObject(Get(ms, comps[0]));
      if inner.Some? {
        GetWalks(inner.value, comps[1..], name[d + 1..]);
      } else {
        NothingBelowNull(name[d + 1..]);
      }
    }
  }

  // ----- one level -----

  lemma {:induction false} FindSameNames(ms: seq<Member>, ms': seq<Member>, name: CString, i: nat)
    requires |ms| == |ms'| && i <= |ms| && forall k | 0 <= k < |ms| :: ms[k].name == ms'[k].name
    ensures Find(ms, name, i) == Find(ms', name, i)
    decreases |ms| - i
  {
    if i < |ms| { FindSameNames(ms, ms', name, i + 1); }
  }

  /** Replacing the value at index i changes what is found under its name and nothing else. */
  lemma GetReplaced(ms: seq<Member>, i: nat, value: Json, name: CString)
    requires i < |ms| && Find(ms, ms[i].name, 0) == Some(i)
    ensures var ms' := ms[i := Member(ms[i].name, value)];
      Get(ms', name) == if name == ms[i].name then Some(value) else Get(ms, name)
  {
    FindSameNames(ms, ms[i := Member(ms[i].name, value)], name, 0);
  }

  lemma {:induction false} FindAppended(ms: seq<Member>, m: Member, name: CString, i: nat)
    requires i <= |ms|
    ensures Find(ms + [m], name, i) ==
      if Find(ms, name, i).Some? then Find(ms, name, i) else if m.name == name then Some(|ms|) else None
    decreases |ms| - i
  {
    if i < |ms| { FindAppended(ms, m, name, i + 1); }
  }

  lemma GetSet(ms: seq<Member>, key: CString, value: Json, name: CString)
    ensures Get(SetMember(ms, key, value), name) == if name == key then Some(value) else Get(ms, name)
  {
    var found := Find(ms, key, 0);
    if found.Some? {
      GetReplaced(ms, found.value, value, name);
    } else {
      FindAppended(ms, Member(key, value), name, 0);
    }
  }

  /** What a set leaves under the first component of the name. */
  lemma SetStep(ms: seq<Member>, name: CString, value: Json, detached: bool, key: CString)
    requires FirstDot(name).Some?
    ensures var d := FirstDot(name).value; var r := DotSet(ms, name, value, detached);
      var inner := AsObject(Get(ms, name[..d]));
      var below := DotSet(if inner.Some? then inner.value else [], name[d + 1..], value, detached);
      && r.0 == ((Get(ms, name[..d]).None? || inner.Some?) && below.0)
      && (r.0 ==> Get(r.1, key) == if key == name[..d] then Some(Object(below.1)) else Get(ms, key))
  {
    var d := FirstDot(name).value;
    match Find(ms, name[..d], 0)
    case Some(i) =>
      if ms[i].value.Object? {
        GetReplaced(ms, i, Object(DotSet(ms[i].value.members, name[d + 1..], value, detached).1), key);
      }
    case None =>
      FindAppended(ms, Member(name[..d], Object(DotSet([], name[d + 1..], value, detached).1)), key, 0);
  }

  // ----- whole paths -----

  /** A set that fails changes nothing. */
  lemma {:induction false} FailedSetChangesNothing(ms: seq<Member>, name: CString, value: Json, detached: bool)
    ensures !DotSet(ms, name, value, detached).0 ==> DotSet(ms, name, value, detached).1 == ms
    decreases |name|
  {
    match FirstDot(name)
    case None =>
    case Some(d) =>
      var found := Find(ms, name[..d], 0);
      if found.Some? && ms[found.value].value.Object? {
        FailedSetChangesNothing(ms[found.value].value.members, name[d + 1..], value, detached);
      }
  }

  lemma GetStep(ms: seq<Member>, name: CString)
    ensures FirstDot(name).None? ==> DotGet(Some(ms), name) == Get(ms, name)
    ensures FirstDot(name).Some? ==> var d := FirstDot(name).value;
      DotGet(Some(ms), name) == DotGet(AsObject(Get(ms, name[..d])), name[d + 1..])
  {
  }

  lemma SetPlain(ms: seq<Member>, name: CString, value: Json, detached: bool)
    requires FirstDot(name).None?
    ensures DotSet(ms, name, value, detached) == if detached then (true, SetMember(ms, name, value)) else (false, ms)
  {
  }

  /** A set that succeeds is read back. */
  lemma {:induction false} SetReadsBack(ms: seq<Member>, name: CString, value: Json, detached: bool)
    requires DotSet(ms, name, value, detached).0
    ensures DotGet(Some(DotSet(ms, name, value, detached).1), name) == Some(value)
    decreases |name|
  {
    hide DotSet;
    hide DotGet;
    hide Get;
    GetStep(DotSet(ms, name, value, detached).1, name);
    match FirstDot(name)
    case None =>
      SetPlain(ms, name, value, detached);
      GetSet(ms, name, value, name);
    case Some(d) =>
      SetStep(ms, name, value, detached, name[..d]);
      var inner := AsObject(Get(ms, name[..d]));
      SetReadsBack(if inner.Some? then inner.value else [], name[d + 1..], value, detached);
  }

  /** q is p or goes on below it. */
  predicate Extends(q: seq<byte>, p: seq<byte>) {
    q == p || (|p| < |q| && q[..|p|] == p && q[|p|] == DOT)
  }

  lemma {:induction false} NoObjectNoValue(name: CString)
    ensures DotGet(None, name) == None
    decreases |name|
  {
    var d := FirstDot(name);
    if d.Some? { NoObjectNoValue(name[d.value + 1..]); }
  }

  lemma {:induction false} EmptyHasNothing(name: CString)
    ensures DotGet(Some([]), name) == None
  {
    var d := FirstDot(name);
    if d.Some? { NoObjectNoValue(name[d.value + 1..]); }
  }

  /** Both names go through the same first component, or one of them ends before the other. */
  lemma SameHead(p: CString, q: CString)
    requires FirstDot(p).Some? && FirstDot(q).Some? && p[..FirstDot(p).value] == q[..FirstDot(q).value]
    requires !Extends(q, p) && !Extends(p, q)
    ensures !Extends(q[FirstDot(q).value + 1..], p[FirstDot(p).value + 1..])
    ensures !Extends(p[FirstDot(p).value + 1..], q[FirstDot(q).value + 1..])
  {
    var d := FirstDot(p).value;
    assert |p[..d]| == |q[..FirstDot(q).value]|;
    var p', q' := p[d + 1..], q[d + 1..];
    assert p == p[..d] + [DOT] + p' && q == q[..d] + [DOT] + q';
  }

  lemma NoDotHead(p: CString, q: CString)
    requires FirstDot(p).None? && FirstDot(q).Some?
    ensures q[..FirstDot(q).value] == p ==> Extends(q, p)
  {
  }

  /** A set leaves every name alone that is neither the name set, nor above nor below it. */
  lemma {:induction false} SetKeepsOthers(ms: seq<Member>, p: CString, value: Json, detached: bool, q: CString)
    requires DotSet(ms, p, value, detached).0 && !Extends(q, p) && !Extends(p, q)
    ensures DotGet(Some(DotSet(ms, p, value, detached).1), q) == DotGet(Some(ms), q)
    decreases |p|
  {
    hide DotSet;
    hide DotGet;
    hide Get;
    var ms' := DotSet(ms, p, value, detached).1;
    GetStep(ms, q);
    GetStep(ms', q);
    var head: CString := if FirstDot(q).Some? then q[..FirstDot(q).value] else q;
    match FirstDot(p)
    case None =>
      SetPlain(ms, p, value, detached);
      GetSet(ms, p, value, head);
      if FirstDot(q).Some? { NoDotHead(p, q); }
    case Some(d) =>
      SetStep(ms, p, value, detached, head);
      if FirstDot(q).None? {
        NoDotHead(q, p);
      } else if head == p[..d] {
        var inner := AsObject(Get(ms, head));
        SameHead(p, q);
        SetKeepsOthers(if inner.Some? then inner.value else [], p[d + 1..], value, detached, q[d + 1..]);
        EmptyHasNothing(q[d + 1..]);
        NoObjectNoValue(q[d + 1..]);
      }
  }

  lemma DotInside(p: CString, r: CString)
    ensures NulFree(p + [DOT] + r)
    ensures var q: CString := p + [DOT] + r;
      && FirstDot(q) == (if FirstDot(p).Some? then FirstDot(p) else Some(|p|))
      && (FirstDot(p).Some? ==> var d := FirstDot(p).value; q[..d] == p[..d] && q[d + 1..] == p[d + 1..] + [DOT] + r)
      && (FirstDot(p).None? ==> q[..|p|] == p && q[|p| + 1..] == r)
  {
    var q: CString := p + [DOT] + r;
    assert q[|p|] == DOT;
    assert forall k | 0 <= k < |p| :: q[k] == p[k];
    if FirstDot(p).Some? {
      assert q[FirstDot(p).value] == DOT;
    }
  }

  /** Below the name set, the members of the new value are seen. */
  lemma {:induction false} SetSeenBelow(ms: seq<Member>, p: CString, value: Json, detached: bool, r: CString)
    requires DotSet(ms, p, value, detached).0
    ensures NulFree(p + [DOT] + r)
    ensures DotGet(Some(DotSet(ms, p, value, detached).1), p + [DOT] + r) == DotGet(AsObject(Some(value)), r)
    decreases |p|
  {
    hide DotSet;
    hide DotGet;
    hide Get;
    DotInside(p, r);
    var q: CString := p + [DOT] + r;
    GetStep(DotSet(ms, p, value, detached).1, q);
    match FirstDot(p)
    case None =>
      SetPlain(ms, p, value, detached);
      GetSet(ms, p, value, p);
    case Some(d) =>
      SetStep(ms, p, value, detached, p[..d]);
      var inner := AsObject(Get(ms, p[..d]));
      SetSeenBelow(if inner.Some? then inner.value else [], p[d + 1..], value, detached, r);
  }

  /** A component above the last names something that is not an object. */
  predicate BlockedAt(ms: seq<Member>, name: CString, k: nat) {
    && k < |name| && name[k] == DOT
    && var above := DotGet(Some(ms), name[..k]); above.Some? && !above.value.Object?
  }

  predicate Blocked(ms: seq<Member>, name: CString) {
    exists k: nat | k < |name| :: BlockedAt(ms, name, k)
  }

  lemma BlockedStep(ms: seq<Member>, name: CString)
    requires FirstDot(name).Some?
    ensures var d := FirstDot(name).value; var got := Get(ms, name[..d]);
      Blocked(ms, name) <==> got.Some? && (got.value.Object? ==> Blocked(got.value.members, name[d + 1..]))
  {
    hide DotGet;
    hide Get;
    var d := FirstDot(name).value;
    var rest, got := name[d + 1..], Get(ms, name[..d]);
    assert BlockedAt(ms, name, d) <==> got.Some? && !got.value.Object? by { GetStep(ms, name[..d]); }
    forall k: nat | d < k < |name|
      ensures BlockedAt(ms, name, k) <==>
        got.Some? && got.value.Object? && BlockedAt(got.value.members, rest, k - d - 1)
    {
      HeadOfPrefix(name, k);
      GetStep(ms, name[..k]);
      NoObjectNoValue(rest[..k - d - 1]);
    }
    if got.Some? && got.value.Object? && Blocked(got.value.members, rest) {
      var j: nat :| j < |rest| && BlockedAt(got.value.members, rest, j);
      assert BlockedAt(ms, name, d + 1 + j);
    }
    if Blocked(ms, name) {
      var k: nat :| k < |name| && BlockedAt(ms, name, k);
      if k > d { assert BlockedAt(got.value.members, rest, k - d - 1); }
    }
  }

  lemma HeadOfPrefix(name: CString, k: nat)
    requires FirstDot(name).Some? && FirstDot(name).value < k <= |name|
    ensures FirstDot(name[..k]) == FirstDot(name)
    ensures var d := FirstDot(name).value;
      name[..k][..d] == name[..d] && name[..k][d + 1..] == name[d + 1..][..k - d - 1]
  {
    assert name[..k][FirstDot(name).value] == DOT;
  }

  lemma EmptyNotBlocked(name: CString)
    ensures !Blocked([], name)
  {
    forall k: nat | k < |name| ensures !BlockedAt([], name, k) {
      EmptyHasNothing(name[..k]);
    }
  }

  /** A set succeeds exactly when the value belongs nowhere yet and no component above the
      last one names something that is not an object. */
  lemma {:induction false} SetSucceedsExactly(ms: seq<Member>, name: CString, value: Json, detached: bool)
    ensures DotSet(ms, name, value, detached).0 <==> detached && !Blocked(ms, name)
    decreases |name|
  {
    hide DotSet;
    hide Get;
    hide DotGet;
    match FirstDot(name)
    case None => SetPlain(ms, name, value, detached);
    case Some(d) =>
      SetStep(ms, name, value, detached, name);
      BlockedStep(ms, name);
      EmptyNotBlocked(name[d + 1..]);
      var inner := AsObject(Get(ms, name[..d]));
      SetSucceedsExactly(if inner.Some? then inner.value else [], name[d + 1..], value, detached);
  }

  // ----- member names stay distinct -----

  lemma UniqueReplaced(ms: seq<Member>, i: nat, value: Json)
    requires Unique(Object(ms)) && i < |ms| && Unique(value)
    ensures Unique(Object(ms[i := Member(ms[i].name, value)]))
  {
    var ms' := ms[i := Member(ms[i].name, value)];
    assert forall k | 0 <= k < |ms'| :: ms'[k].name == ms[k].name;
  }

  lemma UniqueAppended(ms: seq<Member>, name: CString, value: Json)
    requires Unique(Object(ms)) && Unique(value) && Find(ms, name, 0).None?
    ensures Unique(Object(ms + [Member(name, value)]))
  {
  }

  lemma UniqueValue(ms: seq<Member>, i: nat)
    requires Unique(Object(ms)) && i < |ms|
    ensures Unique(ms[i].value)
  {
  }

  lemma {:induction false} SetKeepsUnique(ms: seq<Member>, name: CString, value: Json, detached: bool)
    requires Unique(Object(ms)) && Unique(value)
    ensures Unique(Object(DotSet(ms, name, value, detached).1))
    decreases |name|
  {
    hide Find;
    hide Unique;
    var d := FirstDot(name);
    var key: CString := if d.Some? then name[..d.value] else name;
    match Find(ms, key, 0)
    case Some(i) =>
      if d.None? {
        UniqueReplaced(ms, i, value);
      } else if ms[i].value.Object? {
        UniqueValue(ms, i);
        SetKeepsUnique(ms[i].value.members, name[d.value + 1..], value, detached);
        UniqueReplaced(ms, i, Object(DotSet(ms[i].value.members, name[d.value + 1..], value, detached).1));
      }
    case None =>
      if d.None? {
        UniqueAppended(ms, name, value);
      } else {
        EmptyUnique();
        SetKeepsUnique([], name[d.value + 1..], value, detached);
        UniqueAppended(ms, key, Object(DotSet([], name[d.value + 1..], value, detached).1));
      }
  }

  lemma EmptyUnique()
    ensures Unique(Object([]))
  {
  }

  // ----- removal -----

  lemma GetRemoved(ms: seq<Member>, key: CString, name: CString)
    requires DistinctNames(ms)
    ensures DistinctNames(RemoveMember(ms, key))
    ensures Get(RemoveMember(ms, key), name) == if name == key then None else Get(ms, name)
  {
    RemoveIsDelete(ms, key);
    FindIsLookup(ms, name);
    FindIsLookup(RemoveMember(ms, key), name);
  }

  lemma RemoveStep(ms: seq<Member>, name: CString, key: CString)
    requires FirstDot(name).Some?
    ensures var d := FirstDot(name).value; var r := DotRemove(ms, name);
      var inner := AsObject(Get(ms, name[..d]));
      && (inner.None? ==> r == (false, ms))
      && (inner.Some? ==> var below := DotRemove(inner.value, name[d + 1..]);
            && r.0 == below.0
            && Get(r.1, key) == if key == name[..d] then Some(Object(below.1)) else Get(ms, key))
  {
    var d := FirstDot(name).value;
    match Find(ms, name[..d], 0)
    case Some(i) =>
      if ms[i].value.Object? {
        GetReplaced(ms, i, Object(DotRemove(ms[i].value.members, name[d + 1..]).1), key);
      }
    case None =>
  }

  lemma RemovePlain(ms: seq<Member>, name: CString)
    requires FirstDot(name).None?
    ensures DotRemove(ms, name) == (Get(ms, name).Some?, RemoveMember(ms, name))
  {
  }

  lemma InnerUnique(ms: seq<Member>, name: CString)
    requires Unique(Object(ms)) && AsObject(Get(ms, name)).Some?
    ensures Unique(Object(AsObject(Get(ms, name)).value))
  {
  }

  /** A removal succeeds exactly when the name has a value, and afterwards it has none. */
  lemma {:induction false} RemoveExact(ms: seq<Member>, name: CString)
    requires Unique(Object(ms))
    ensures DotRemove(ms, name).0 <==> DotGet(Some(ms), name).Some?
    ensures DotGet(Some(DotRemove(ms, name).1), name) == None
    ensures !DotRemove(ms, name).0 ==> DotRemove(ms, name).1 == ms
    decreases |name|
  {
    hide DotRemove;
    hide DotGet;
    hide Get;
    hide Unique;
    GetStep(ms, name);
    GetStep(DotRemove(ms, name).1, name);
    match FirstDot(name)
    case None =>
      RemovePlain(ms, name);
      UniqueNames(ms);
      GetRemoved(ms, name, name);
      RemoveAbsent(ms, name);
    case Some(d) =>
      RemoveStep(ms, name, name[..d]);
      NoObjectNoValue(name[d + 1..]);
      var inner := AsObject(Get(ms, name[..d]));
      if inner.Some? {
        InnerUnique(ms, name[..d]);
        RemoveExact(inner.value, name[d + 1..]);
        RemoveUnchanged(ms, name);
      }
  }

  lemma UniqueNames(ms: seq<Member>)
    requires Unique(Object(ms))
    ensures DistinctNames(ms)
  {
  }

  lemma RemoveAbsent(ms: seq<Member>, name: CString)
    ensures Get(ms, name).None? ==> RemoveMember(ms, name) == ms
  {
  }

  lemma RemoveUnchanged(ms: seq<Member>, name: CString)
    requires FirstDot(name).Some?
    ensures var d := FirstDot(name).value; var inner := AsObject(Get(ms, name[..d]));
      inner.Some? && DotRemove(inner.value, name[d + 1..]).1 == inner.value ==> DotRemove(ms, name).1 == ms
  {
  }

  /** A removal leaves every name alone that is neither removed, nor above nor below it. */
  lemma {:induction false} RemoveKeepsOthers(ms: seq<Member>, p: CString, q: CString)
    requires Unique(Object(ms)) && !Extends(q, p) && !Extends(p, q)
    ensures DotGet(Some(DotRemove(ms, p).1), q) == DotGet(Some(ms), q)
    decreases |p|
  {
    hide DotRemove;
    hide DotGet;
    hide Get;
    hide Unique;
    GetStep(ms, q);
    GetStep(DotRemove(ms, p).1, q);
    var head: CString := if FirstDot(q).Some? then q[..FirstDot(q).value] else q;
    match FirstDot(p)
    case None =>
      RemovePlain(ms, p);
      UniqueNames(ms);
      GetRemoved(ms, p, head);
      if FirstDot(q).Some? { NoDotHead(p, q); }
    case Some(d) =>
      RemoveStep(ms, p, head);
      if FirstDot(q).None? {
        NoDotHead(q, p);
      } else if head == p[..d] {
        var inner := AsObject(Get(ms, head));
        SameHead(p, q);
        if inner.Some? {
          InnerUnique(ms, head);
          RemoveKeepsOthers(inner.value, p[d + 1..], q[d + 1..]);
        }
      }
  }
}
