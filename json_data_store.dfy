/**
 * The record lookup of the JSON data store: a document's "users" array is
 * scanned for the first record whose identifying attribute equals a filter
 * value, and the requested attributes of that record are projected into a
 * name-keyed result (`retrieveValues`, `attributesFromMap`). Schema discovery
 * lists the sorted attribute names of the first record (`getAvailableFields`,
 * `sortList`).
 *
 * The JSON file is read and parsed outside this model: its outcome is the
 * `Source` each operation receives.
 */
module JsonDataStore {
  import opened StringOrder

  datatype Option<T> = None | Some(value: T)

  /** A field of a user record: a JSON string or a JSON array of strings. */
  datatype Value = Str(s: string) | Lst(xs: seq<string>)

  /** One element of the "users" array: a JSON object. */
  type Record = map<string, Value>

  /**
   * What reading the configured file yields: an `IOException` (which the
   * store swallows), or the parsed document's "users" array in document order.
   */
  datatype Source = Unreadable | Users(users: seq<Record>)

  /**
   * What one requested attribute name maps to in the result of a lookup:
   * the record's value wrapped as an attribute value, `null` when the found
   * record lacks the attribute, or the string "null" when no record was found.
   */
  datatype Outcome = Present(value: Value) | Absent | NotFoundMarker

  // ---------------------------------------------------------------------
  // Record matcher
  // ---------------------------------------------------------------------

  /**
   * The record holds the identifying attribute and its value is exactly the
   * string `filter` (`String.equals`: exact and case-sensitive).
   */
  predicate IsMatch(rec: Record, idAttribute: string, filter: string)
    ensures idAttribute !in rec ==> !IsMatch(rec, idAttribute, filter)
    ensures idAttribute in rec && rec[idAttribute].Lst? ==> !IsMatch(rec, idAttribute, filter)
    ensures idAttribute in rec && rec[idAttribute].Str? ==>
      (IsMatch(rec, idAttribute, filter) <==> rec[idAttribute].s == filter)
  {
    idAttribute in rec && rec[idAttribute] == Str(filter)
  }

  /** The index of the first matching record of `users`, if any. */
  function FirstMatch(users: seq<Record>, idAttribute: string, filter: string): (r: Option<nat>)
    ensures r.Some? ==> r.value < |users| && IsMatch(users[r.value], idAttribute, filter)
    ensures r.Some? ==> forall j :: 0 <= j < r.value ==> !IsMatch(users[j], idAttribute, filter)
    ensures r.None? ==> forall j :: 0 <= j < |users| ==> !IsMatch(users[j], idAttribute, filter)
  {
    if users == [] then None
    else if IsMatch(users[0], idAttribute, filter) then Some(0)
    else match FirstMatch(users[1..], idAttribute, filter)
      case None => None
      case Some(k) => Some(k + 1)
  }

  /**
   * The casts the scan performs cannot fail: every record the scan reaches
   * (all of them up to the first match) that holds the identifying attribute
   * holds a string there.
   */
  predicate ScanCastsSucceed(users: seq<Record>, idAttribute: string, filter: string)
  {
    forall i :: 0 <= i < |users| && idAttribute in users[i] && users[i][idAttribute].Lst? ==>
      exists j :: 0 <= j < i && IsMatch(users[j], idAttribute, filter)
  }

  /**
   * The record a lookup selects, if any: none when the file is unreadable,
   * otherwise the first matching record, and none only when no record matches.
   */
  function Lookup(src: Source, idAttribute: string, filter: string): (r: Option<Record>)
    ensures src.Unreadable? ==> r.None?
    ensures r.Some? ==>
      src.Users? &&
      exists k ::
        0 <= k < |src.users| && r.value == src.users[k] &&
        IsMatch(src.users[k], idAttribute, filter) &&
        forall j :: 0 <= j < k ==> !IsMatch(src.users[j], idAttribute, filter)
    ensures src.Users? && r.None? ==> forall j :: 0 <= j < |src.users| ==> !IsMatch(src.users[j], idAttribute, filter)
  {
    match src
    case Unreadable => None
    case Users(users) =>
      match FirstMatch(users, idAttribute, filter)
      case None => None
      case Some(k) => Some(users[k])
  }

  // ---------------------------------------------------------------------
  // Attribute projector
  // ---------------------------------------------------------------------

  function NameSet(names: seq<string>): (r: set<string>)
  {
    set n | n in names
  }

  /** What the name `n` maps to, given the record found (if any). */
  function OutcomeOf(found: Option<Record>, n: string): (r: Outcome)
  {
    match found
    case None => NotFoundMarker
    case Some(rec) => if n in rec then Present(rec[n]) else Absent
  }

  /**
   * The result of a lookup for the requested `names`: exactly those keys, and
   * a key carries the not-found marker exactly when no record was selected.
   */
  function Answer(src: Source, idAttribute: string, filter: string, names: seq<string>): (r: map<string, Outcome>)
    ensures r.Keys == NameSet(names)
    ensures forall n :: n in r ==> (r[n] == NotFoundMarker <==> Lookup(src, idAttribute, filter).None?)
  {
    var found := Lookup(src, idAttribute, filter);
    map n | n in names :: OutcomeOf(found, n)
  }

  /**
   * Projects the requested names of a found record: each requested name is
   * a key of the result, mapped to the record's value when the record holds
   * it and to `Absent` otherwise; no other key appears.
   */
  method AttributesFromMap(element: Record, names: seq<string>) returns (result: map<string, Outcome>)
    ensures result.Keys == NameSet(names)
    ensures forall n :: n in result && n in element ==> result[n] == Present(element[n])
    ensures forall n :: n in result && n !in element ==> result[n] == Absent
  {
    result := map[];
    for i := 0 to |names|
      invariant result.Keys == NameSet(names[..i])
      invariant forall n :: n in result && n in element ==> result[n] == Present(element[n])
      invariant forall n :: n in result && n !in element ==> result[n] == Absent
    {
      var attribute := names[i];
      assert names[..i + 1] == names[..i] + [attribute];
      if attribute in element {
        result := result[attribute := Present(element[attribute])];
      } else {
        result := result[attribute := Absent];
      }
    }
    assert names[..|names|] == names;
  }

  /**
   * Answers a query: scans the users for the first record whose identifying
   * attribute equals `filter`, and projects `names` from it; when the file
   * is unreadable or nothing matches, every requested name maps to the
   * not-found marker. The case-sensitivity setting is accepted and has no
   * effect on the result.
   */
  method RetrieveValues(src: Source, idAttribute: string, caseSensitive: bool, filter: string,
                        names: seq<string>)
    returns (result: map<string, Outcome>)
    requires src.Users? ==> ScanCastsSucceed(src.users, idAttribute, filter)
    ensures result.Keys == NameSet(names)
    ensures result == Answer(src, idAttribute, filter, names)
  {
    if src.Users? {
      var usersArray := src.users;
      if |usersArray| != 0 {
        for i := 0 to |usersArray|
          invariant forall j :: 0 <= j < i ==> !IsMatch(usersArray[j], idAttribute, filter)
        {
          var thisElement := usersArray[i];
          if idAttribute in thisElement {
            match thisElement[idAttribute]
            case Lst(_) =>
              assert false;
            case Str(valueToCheck) =>
              if valueToCheck == filter {
                assert FirstMatch(usersArray, idAttribute, filter) == Some(i);
                result := AttributesFromMap(thisElement, names);
                return;
              }
          }
        }
      }
      assert FirstMatch(usersArray, idAttribute, filter) == None;
    }
    result := map[];
    for i := 0 to |names|
      invariant result.Keys == NameSet(names[..i])
      invariant forall n :: n in result ==> result[n] == NotFoundMarker
    {
      assert names[..i + 1] == names[..i] + [names[i]];
      result := result[names[i] := NotFoundMarker];
    }
    assert names[..|names|] == names;
  }

  // ---------------------------------------------------------------------
  // Properties of a lookup
  // ---------------------------------------------------------------------

  /** A found record is the first one whose identifying value is exactly the filter. */
  lemma LookupSelectsFirstExactMatch(users: seq<Record>, idAttribute: string, filter: string, k: nat)
    requires k < |users| && IsMatch(users[k], idAttribute, filter)
    requires forall j :: 0 <= j < k ==> !IsMatch(users[j], idAttribute, filter)
    ensures Lookup(Users(users), idAttribute, filter) == Some(users[k])
    ensures users[k][idAttribute] == Str(filter)
  {
  }

  /**
   * A record that lacks the identifying attribute, wherever it stands,
   * is never selected and does not stop the scan: removing it does not
   * change any lookup.
   */
  lemma {:induction false} RecordsWithoutIdAreSkipped(
    before: seq<Record>, rec: Record, after: seq<Record>, idAttribute: string, filter: string)
    requires idAttribute !in rec
    ensures Lookup(Users(before + [rec] + after), idAttribute, filter)
         == Lookup(Users(before + after), idAttribute, filter)
  {
    if before == [] {
      assert before + [rec] + after == [rec] + after;
      assert ([rec] + after)[1..] == after;
      assert before + after == after;
    } else {
      var head := before[0];
      RecordsWithoutIdAreSkipped(before[1..], rec, after, idAttribute, filter);
      assert (before + [rec] + after)[0] == head && (before + [rec] + after)[1..] == before[1..] + [rec] + after;
      assert (before + after)[0] == head && (before + after)[1..] == before[1..] + after;
      FirstMatchStep(before + [rec] + after, idAttribute, filter);
      FirstMatchStep(before + after, idAttribute, filter);
    }
  }

  /** One step of the scan: the first match of a non-empty sequence in terms of its tail. */
  lemma FirstMatchStep(users: seq<Record>, idAttribute: string, filter: string)
    requires users != []
    ensures Lookup(Users(users), idAttribute, filter)
         == if IsMatch(users[0], idAttribute, filter) then Some(users[0])
            else Lookup(Users(users[1..]), idAttribute, filter)
  {
  }

  /** Records after the first match are never consulted. */
  lemma {:induction false} LaterRecordsAreIgnored(
    users: seq<Record>, more: seq<Record>, idAttribute: string, filter: string)
    requires Lookup(Users(users), idAttribute, filter).Some?
    ensures Lookup(Users(users + more), idAttribute, filter) == Lookup(Users(users), idAttribute, filter)
  {
    assert users != [];
    assert (users + more)[0] == users[0];
    assert (users + more)[1..] == users[1..] + more;
    FirstMatchStep(users + more, idAttribute, filter);
    FirstMatchStep(users, idAttribute, filter);
    if !IsMatch(users[0], idAttribute, filter) {
      LaterRecordsAreIgnored(users[1..], more, idAttribute, filter);
    }
  }

  /**
   * When a record is found, every requested name is a key of the answer
   * and no other; a name the record holds maps to its value verbatim and a
   * name it lacks maps to `Absent`, never to the not-found marker.
   */
  lemma FoundRecordIsProjected(src: Source, idAttribute: string, filter: string, names: seq<string>)
    requires Lookup(src, idAttribute, filter).Some?
    ensures Answer(src, idAttribute, filter, names).Keys == NameSet(names)
    ensures forall n :: n in names ==>
      var rec := Lookup(src, idAttribute, filter).value;
      Answer(src, idAttribute, filter, names)[n] == (if n in rec then Present(rec[n]) else Absent)
    ensures NotFoundMarker !in Answer(src, idAttribute, filter, names).Values
  {
  }

  /**
   * When the file is unreadable, the array is empty or no record matches,
   * every requested name (and no other) maps to the not-found marker.
   */
  lemma MissFloodsNotFoundMarker(src: Source, idAttribute: string, filter: string, names: seq<string>)
    requires src.Unreadable? || forall j :: 0 <= j < |src.users| ==> !IsMatch(src.users[j], idAttribute, filter)
    ensures Answer(src, idAttribute, filter, names).Keys == NameSet(names)
    ensures forall n :: n in names ==> Answer(src, idAttribute, filter, names)[n] == NotFoundMarker
  {
  }

  /** An empty "users" array never yields a record. */
  lemma EmptyUsersNeverMatch(idAttribute: string, filter: string, names: seq<string>)
    ensures Lookup(Users([]), idAttribute, filter) == None
    ensures Answer(Users([]), idAttribute, filter, names).Keys == NameSet(names)
    ensures forall n :: n in names ==> Answer(Users([]), idAttribute, filter, names)[n] == NotFoundMarker
  {
  }

  // ---------------------------------------------------------------------
  // Schema discovery
  // ---------------------------------------------------------------------

  /** `s` is in non-decreasing order. */
  predicate IsSorted(s: seq<string>)
  {
    forall i, j :: 0 <= i < j < |s| ==> LessEq(s[i], s[j])
  }

  predicate NoDuplicates(s: seq<string>)
  {
    forall i, j :: 0 <= i < j < |s| ==> s[i] != s[j]
  }

  /** Inserts `x` into the sorted `s`, before the first element it sorts no later than. */
  function Insert(x: string, s: seq<string>): (r: seq<string>)
    requires IsSorted(s)
    ensures IsSorted(r)
    ensures multiset(r) == multiset(s) + multiset{x}
  {
    if s == [] then [x]
    else if LessEq(x, s[0]) then
      assert forall j :: 0 <= j < |s| ==> LessEq(x, s[j]) by {
        forall j | 0 <= j < |s| ensures LessEq(x, s[j]) {
          if j > 0 { LessEqTransitive(x, s[0], s[j]); }
        }
      }
      [x] + s
    else
      var rest := Insert(x, s[1..]);
      assert s == [s[0]] + s[1..];
      assert forall j :: 0 <= j < |rest| ==> LessEq(s[0], rest[j]) by {
        forall j | 0 <= j < |rest| ensures LessEq(s[0], rest[j]) {
          assert rest[j] in multiset(rest);
          if rest[j] == x {
            LessEqTotal(x, s[0]);
          } else {
            assert rest[j] in s[1..];
          }
        }
      }
      [s[0]] + rest
  }

  /** `sortList`: the elements of `c` in non-decreasing order. */
  function SortList(c: seq<string>): (r: seq<string>)
    ensures IsSorted(r)
    ensures multiset(r) == multiset(c)
  {
    if c == [] then []
    else
      assert c == [c[0]] + c[1..];
      Insert(c[0], SortList(c[1..]))
  }

  /** Two non-empty sorted lists with the same elements start with the same element. */
  lemma SortedHeadsAgree(a: seq<string>, b: seq<string>)
    requires a != [] && b != []
    requires IsSorted(a) && IsSorted(b)
    requires multiset(a) == multiset(b)
    ensures a[0] == b[0]
  {
    assert a[0] in multiset(b);
    assert b[0] in multiset(a);
    var i :| 0 <= i < |b| && b[i] == a[0];
    var j :| 0 <= j < |a| && a[j] == b[0];
    if i > 0 && j > 0 {
      assert LessEq(b[0], b[i]) && LessEq(a[0], a[j]);
      LessEqAntisymmetric(a[0], b[0]);
    }
  }

  /**
   * A sorted arrangement of a collection is unique, so every correct sort
   * (the library's included) yields the same list.
   */
  lemma {:induction false} SortedPermutationIsUnique(a: seq<string>, b: seq<string>)
    requires IsSorted(a) && IsSorted(b)
    requires multiset(a) == multiset(b)
    ensures a == b
  {
    assert |a| == |multiset(a)| == |multiset(b)| == |b|;
    if a != [] {
      SortedHeadsAgree(a, b);
      assert a == [a[0]] + a[1..];
      assert b == [b[0]] + b[1..];
      assert multiset(a[1..]) == multiset(a) - multiset{a[0]};
      assert multiset(b[1..]) == multiset(b) - multiset{b[0]};
      SortedPermutationIsUnique(a[1..], b[1..]);
    }
  }

  /** The sorted list depends only on the collection's contents, not on its order. */
  lemma SortListIgnoresInputOrder(c1: seq<string>, c2: seq<string>)
    requires multiset(c1) == multiset(c2)
    ensures SortList(c1) == SortList(c2)
  {
    SortedPermutationIsUnique(SortList(c1), SortList(c2));
  }

  /** Each element of a duplicate-free sequence occurs once. */
  lemma {:induction false} NoDuplicatesCount(s: seq<string>, x: string)
    requires NoDuplicates(s)
    ensures multiset(s)[x] == if x in s then 1 else 0
  {
    if s != [] {
      assert s == [s[0]] + s[1..];
      NoDuplicatesCount(s[1..], x);
    }
  }

  /** An element that occurs at most once differs from every later element. */
  lemma CountedOnceIsDistinct(b: seq<string>, i: nat, j: nat)
    requires i < j < |b| && multiset(b)[b[i]] <= 1
    ensures b[i] != b[j]
  {
    assert b == b[..j] + b[j..];
    assert b[i] in b[..j];
    assert b[j] in b[j..];
    assert multiset(b)[b[i]] == multiset(b[..j])[b[i]] + multiset(b[j..])[b[i]];
  }

  /** A permutation of a duplicate-free sequence is duplicate-free. */
  lemma PermutationKeepsNoDuplicates(a: seq<string>, b: seq<string>)
    requires NoDuplicates(a) && multiset(a) == multiset(b)
    ensures NoDuplicates(b)
  {
    forall i, j | 0 <= i < j < |b| ensures b[i] != b[j] {
      NoDuplicatesCount(a, b[i]);
      CountedOnceIsDistinct(b, i, j);
    }
  }

  /**
   * The key set of a JSON object in the order its iteration happens to
   * produce: some enumeration of `keys`, each key once.
   */
  ghost function KeyList(keys: set<string>): (r: seq<string>)
    ensures forall k :: k in r <==> k in keys
    ensures NoDuplicates(r)
  {
    if keys == {} then []
    else
      var k :| k in keys;
      [k] + KeyList(keys - {k})
  }

  /**
   * `getAvailableFields`: the attribute names of the first user record,
   * sorted and each once, or nothing when the file is unreadable or the
   * array is empty.
   */
  ghost function AvailableFields(src: Source): (r: Option<seq<string>>)
    ensures r.Some? <==> src.Users? && |src.users| > 0
    ensures r.Some? ==> IsSorted(r.value) && NoDuplicates(r.value)
    ensures r.Some? ==> forall k :: k in r.value <==> k in src.users[0]
  {
    if src.Users? && |src.users| > 0 then
      var keys := KeyList(src.users[0].Keys);
      var sorted := SortList(keys);
      PermutationKeepsNoDuplicates(keys, sorted);
      assert forall k :: k in sorted <==> k in multiset(keys);
      Some(sorted)
    else None
  }

  /**
   * Whatever order the first record's keys are enumerated in, the fields
   * reported are the sorted list of that enumeration.
   */
  lemma AvailableFieldsIgnoreKeyOrder(src: Source, order: seq<string>)
    requires src.Users? && |src.users| > 0
    requires NoDuplicates(order) && forall k :: k in order <==> k in src.users[0]
    ensures AvailableFields(src) == Some(SortList(order))
  {
    var keys := KeyList(src.users[0].Keys);
    forall x ensures multiset(keys)[x] == multiset(order)[x] {
      NoDuplicatesCount(keys, x);
      NoDuplicatesCount(order, x);
    }
    assert multiset(keys) == multiset(order);
    SortListIgnoresInputOrder(keys, order);
  }

  /** Only the first record is sampled: later records never affect the fields reported. */
  lemma AvailableFieldsSampleFirstRecord(first: Record, rest1: seq<Record>, rest2: seq<Record>)
    ensures AvailableFields(Users([first] + rest1)) == AvailableFields(Users([first] + rest2))
  {
  }
}
