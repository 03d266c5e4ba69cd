/** JSON objects in parson.c: two parallel arrays that grow by doubling and lose members by
    moving the last one, kept as a finite map from names to values. */
module JsonObjects {
  import opened Options
  import opened Bytes
  import opened JsonValue

  const STARTING_CAPACITY: nat := 16

  // ----- what the operations do to the list of members -----

  function SetMember(ms: seq<Member>, name: CString, value: Json): seq<Member> {
    match Find(ms, name, 0)
    case Some(i) => ms[i := Member(name, value)]
    case None => ms + [Member(name, value)]
  }

  /** The last member takes the place of the removed one. */
  function RemoveMember(ms: seq<Member>, name: CString): seq<Member> {
    match Find(ms, name, 0)
    case Some(i) => ms[i := ms[|ms| - 1]][..|ms| - 1]
    case None => ms
  }

  // ----- the map they stand for -----

  function Assoc(ms: seq<Member>): map<CString, Json> {
    if ms == [] then map[] else Assoc(ms[..|ms| - 1])[ms[|ms| - 1].name := ms[|ms| - 1].value]
  }

  predicate HasName(ms: seq<Member>, name: CString) {
    exists i :: 0 <= i < |ms| && ms[i].name == name
  }

  lemma {:induction false} AssocHas(ms: seq<Member>, name: CString)
    ensures name in Assoc(ms) <==> HasName(ms, name)
  {
    if ms != [] {
      var front := ms[..|ms| - 1];
      AssocHas(front, name);
      if name in Assoc(front) {
        var i :| 0 <= i < |front| && front[i].name == name;
        assert ms[i].name == name;
      }
    }
  }

  lemma {:induction false} AssocAt(ms: seq<Member>, i: nat)
    requires DistinctNames(ms) && i < |ms|
    ensures ms[i].name in Assoc(ms) && Assoc(ms)[ms[i].name] == ms[i].value
  {
    var front := ms[..|ms| - 1];
    if i < |front| {
      assert front[i] == ms[i];
      AssocAt(front, i);
    }
  }

  /** Looking a name up in the list is looking it up in the map. */
  lemma FindIsLookup(ms: seq<Member>, name: CString)
    requires DistinctNames(ms)
    ensures Find(ms, name, 0).Some? <==> name in Assoc(ms)
    ensures Find(ms, name, 0).Some? ==> ms[Find(ms, name, 0).value].value == Assoc(ms)[name]
  {
    AssocHas(ms, name);
    var r := Find(ms, name, 0);
    if r.Some? { AssocAt(ms, r.value); }
  }

  /** A list with distinct names that holds exactly the pairs of m stands for m. */
  lemma AssocIs(ms: seq<Member>, m: map<CString, Json>)
    requires DistinctNames(ms)
    requires forall i | 0 <= i < |ms| :: ms[i].name in m && m[ms[i].name] == ms[i].value
    requires forall name | name in m :: HasName(ms, name)
    ensures Assoc(ms) == m
  {
    hide Assoc;
    forall name ensures name in Assoc(ms) <==> name in m {
      AssocHas(ms, name);
    }
    forall name | name in m ensures Assoc(ms)[name] == m[name] {
      var i :| 0 <= i < |ms| && ms[i].name == name;
      AssocAt(ms, i);
    }
  }

  lemma SetIsUpdate(ms: seq<Member>, name: CString, value: Json)
    requires DistinctNames(ms)
    ensures DistinctNames(SetMember(ms, name, value))
    ensures Assoc(SetMember(ms, name, value)) == Assoc(ms)[name := value]
  {
    var ms', m := SetMember(ms, name, value), Assoc(ms)[name := value];
    forall i | 0 <= i < |ms'| ensures ms'[i].name in m && m[ms'[i].name] == ms'[i].value {
      if i < |ms| && ms[i].name != name { AssocAt(ms, i); }
    }
    forall key | key in m ensures HasName(ms', key) {
      if key != name {
        AssocHas(ms, key);
        var i :| 0 <= i < |ms| && ms[i].name == key;
        assert ms'[i].name == key;
      } else {
        var r := Find(ms, name, 0);
        assert ms'[if r.Some? then r.value else |ms|].name == name;
      }
    }
    AssocIs(ms', m);
  }

  lemma RemoveIsDelete(ms: seq<Member>, name: CString)
    requires DistinctNames(ms)
    ensures DistinctNames(RemoveMember(ms, name))
    ensures Assoc(RemoveMember(ms, name)) == Assoc(ms) - {name}
  {
    var ms', m := RemoveMember(ms, name), Assoc(ms) - {name};
    var r, last := Find(ms, name, 0), |ms| - 1;
    forall i | 0 <= i < |ms'| ensures ms'[i].name in m && m[ms'[i].name] == ms'[i].value {
      AssocAt(ms, if r.Some? && i == r.value then last else i);
    }
    forall key | key in m ensures HasName(ms', key) {
      AssocHas(ms, key);
      var i :| 0 <= i < |ms| && ms[i].name == key;
      assert r.Some? && i == last ==> ms'[r.value].name == key;
      assert !(r.Some? && i == last) ==> ms'[i].name == key;
    }
    AssocIs(ms', m);
  }

  /** The order of the members: a new one comes last, and the last one takes the place of a
      removed one. */
  lemma OrderOfMembers(ms: seq<Member>, name: CString, value: Json)
    requires DistinctNames(ms)
    ensures var set' := SetMember(ms, name, value);
      && |set'| == (if HasName(ms, name) then |ms| else |ms| + 1)
      && forall i | 0 <= i < |ms| :: set'[i] == if ms[i].name == name then Member(name, value) else ms[i]
    ensures var rest := RemoveMember(ms, name);
      && |rest| == (if HasName(ms, name) then |ms| - 1 else |ms|)
      && forall i | 0 <= i < |rest| && i < |ms| :: rest[i] == if ms[i].name == name then ms[|ms| - 1] else ms[i]
  {
  }

  function Zip(names: seq<CString>, values: seq<Json>): seq<Member>
    requires |names| == |values|
  {
    seq(|names|, i requires 0 <= i < |names| => Member(names[i], values[i]))
  }

  class JsonObject {
    var names: array?<CString>
    var values: array?<Json>
    var count: nat
    var capacity: nat

    ghost predicate Valid()
      reads this, names, values
    {
      && (names == null <==> values == null)
      && (names == null ==> capacity == 0)
      && (names != null ==> names.Length == capacity && values.Length == capacity)
      && count <= capacity
      && DistinctNames(Members())
    }

    /** The members in the order in which they are kept. */
    ghost function Members(): seq<Member>
      reads this, names, values
    {
      if names == null || values == null || count > names.Length || count > values.Length then []
      else Zip(names[..count], values[..count])
    }

    constructor ()
      ensures Valid() && Members() == [] && capacity == 0
      ensures names == null && values == null
    {
      names, values, count, capacity := null, null, 0, 0;
    }

    /** json_object_getn_value. */
    method GetN(name: CString) returns (r: Option<nat>)
      requires Valid()
      ensures r == Find(Members(), name, 0)
    {
      for i := 0 to count
        invariant Find(Members(), name, i) == Find(Members(), name, 0)
      {
        if names[i] == name {
          return Some(i);
        }
      }
      return None;
    }

    /** json_object_resize: new arrays with the same members. */
    method Resize(newCapacity: nat) returns (ok: bool)
      requires Valid() && count <= newCapacity
      modifies this
      ensures ok <==> newCapacity > 0
      ensures Valid() && Members() == old(Members())
      ensures ok ==> capacity == newCapacity && names != null && fresh(names) && fresh(values)
      ensures !ok ==> names == old(names) && values == old(values) && capacity == old(capacity)
      ensures count == old(count)
    {
      ghost var before := Members();
      if newCapacity == 0 {
        return false;
      }
      var newNames := new CString[newCapacity];
      var newValues := new Json[newCapacity];
      if names != null && values != null {
        forall i | 0 <= i < count {
          newNames[i] := names[i];
        }
        forall i | 0 <= i < count {
          newValues[i] := values[i];
        }
        assert newNames[..count] == names[..count] && newValues[..count] == values[..count];
      }
      names, values, capacity := newNames, newValues, newCapacity;
      assert Members() == before;
      return true;
    }

    /** json_object_addn: fails, and changes nothing, exactly when the name is taken. */
    method AddN(name: CString, value: Json) returns (ok: bool)
      requires Valid()
      modifies this, names, values
      ensures Valid()
      ensures ok <==> Find(old(Members()), name, 0).None?
      ensures Members() == if ok then old(Members()) + [Member(name, value)] else old(Members())
      ensures names == old(names) || fresh(names)
      ensures values == old(values) || fresh(values)
      ensures ok && old(count == capacity) ==>
        capacity == if 2 * old(capacity) > STARTING_CAPACITY then 2 * old(capacity) else STARTING_CAPACITY
      ensures !ok || old(count < capacity) ==> capacity == old(capacity)
    {
      hide Find;
      hide Zip;
      var found := GetN(name);
      if found.Some? {
        return false;
      }
      if count >= capacity {
        var newCapacity := if capacity * 2 > STARTING_CAPACITY then capacity * 2 else STARTING_CAPACITY;
        var resized := Resize(newCapacity);
      }
      Place(name, value);
      return true;
    }

    method Place(name: CString, value: Json)
      requires Valid() && count < capacity && Find(Members(), name, 0).None?
      modifies this`count, names, values
      ensures Valid() && Members() == old(Members()) + [Member(name, value)]
    {
      ghost var before := Members();
      names[count] := name;
      values[count] := value;
      count := count + 1;
      assert Members() == before + [Member(name, value)];
    }

    /** json_object_set_value: overwrites the member of that name or adds one. A value that
        already belongs somewhere is refused. */
    method SetValue(name: CString, value: Json, detached: bool) returns (ok: bool)
      requires Valid()
      modifies this, names, values
      ensures Valid()
      ensures ok <==> detached
      ensures Members() == if ok then SetMember(old(Members()), name, value) else old(Members())
      ensures Assoc(Members()) == if ok then old(Assoc(Members()))[name := value] else old(Assoc(Members()))
      ensures names == old(names) || fresh(names)
      ensures values == old(values) || fresh(values)
    {
      hide Assoc;
      ghost var before := Members();
      if !detached {
        return false;
      }
      SetIsUpdate(before, name, value);
      var found := GetN(name);
      if found.Some? {
        values[found.value] := value;
        assert Members() == before[found.value := Member(name, value)];
        return true;
      }
      ok := AddN(name, value);
    }

    /** json_object_remove_internal: the last member takes the place of the removed one. */
    method Remove(name: CString) returns (ok: bool)
      requires Valid()
      modifies this, names, values
      ensures Valid()
      ensures ok <==> name in old(Assoc(Members()))
      ensures Members() == RemoveMember(old(Members()), name)
      ensures Assoc(Members()) == old(Assoc(Members())) - {name}
      ensures names == old(names) && values == old(values)
    {
      hide Assoc;
      ghost var before := Members();
      RemoveIsDelete(before, name);
      FindIsLookup(before, name);
      var found := GetN(name);
      if found.None? {
        return false;
      }
      var i, last := found.value, count - 1;
      if i != last {
        names[i] := names[last];
        values[i] := values[last];
      }
      count := count - 1;
      assert Members() == before[i := before[last]][..last];
      return true;
    }
  }
}
