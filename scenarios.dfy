/**
 * Concrete lookups against a two-user document, and the observation that the
 * case-sensitivity setting does not change what a lookup returns.
 */
module JsonDataStoreScenarios {
  import opened JsonDataStore

  const Alice: Record := map["id" := Str("Alice"), "role" := Str("admin")]
  const Bob: Record := map["id" := Str("bob"), "role" := Str("user")]
  const Document: Source := Users([Alice, Bob])

  /** Matching is exact: a filter that differs from "Alice" only in case finds nothing. */
  lemma MixedCaseFilterFindsNothing()
    ensures Answer(Document, "id", "ALICE", ["role"]) == map["role" := NotFoundMarker]
  {
  }

  lemma ExactFilterFindsFirstRecord()
    ensures Answer(Document, "id", "Alice", ["role"]) == map["role" := Present(Str("admin"))]
  {
  }

  lemma UnknownFilterFloodsMarker()
    ensures Answer(Document, "id", "carol", ["role"]) == map["role" := NotFoundMarker]
  {
  }

  /** A requested attribute the found record lacks is `Absent`, not the not-found marker. */
  lemma MissingAttributeOfFoundRecord()
    ensures Answer(Document, "id", "bob", ["role", "dept"])
         == map["role" := Present(Str("user")), "dept" := Absent]
  {
    assert !IsMatch(Alice, "id", "bob");
    assert IsMatch(Bob, "id", "bob");
    assert FirstMatch([Alice, Bob], "id", "bob") == Some(1);
    assert Lookup(Document, "id", "bob") == Some(Bob);
  }

  /** The same query answered with either case-sensitivity setting gives the same result. */
  method CaseSettingIsIgnored(src: Source, idAttribute: string, filter: string, names: seq<string>)
    returns (sensitive: map<string, Outcome>, insensitive: map<string, Outcome>)
    requires src.Users? ==> ScanCastsSucceed(src.users, idAttribute, filter)
    ensures sensitive == insensitive
  {
    sensitive := RetrieveValues(src, idAttribute, true, filter, names);
    insensitive := RetrieveValues(src, idAttribute, false, filter, names);
  }
}
