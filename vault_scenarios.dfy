/**
  The scenarios of tests/vault_test.py, replayed on the model: each method builds a
  vault the way the test does and its postcondition states what the test asserts.
 */
module VaultScenarios {
  import opened Results
  import opened Text
  import opened VaultStore

  /** tests/vault_test.py:11-18: names set as b, a, c are listed as a, b, c. */
  method ListIsSorted(now: string) returns (names: seq<string>)
    ensures names == ["a", "b", "c"]
  {
    var v := new Vault();
    v.Set("b", map["username" := "Bob"], now);
    v.Set("a", map["username" := "Andy"], now);
    v.Set("c", map["username" := "Cathy"], now);
    assert v.entries.Keys == {"a", "b", "c"};
    names := v.List();
    AbcListing(v.entries);
  }

  /** A vault holding exactly the names a, b and c lists them in that order. */
  lemma AbcListing(e: Entries)
    requires e.Keys == {"a", "b", "c"}
    ensures Listing(e) == ["a", "b", "c"]
  {
    assert Less("a", "b") && Less("b", "c") && Less("a", "c");
    ListingIsSorted(e, ["a", "b", "c"]);
  }

  /**
    tests/vault_test.py:20-38: a new entry has `created == modified`; after both are
    backdated through the record `get` returns, setting the entry again keeps the
    backdated `created` and moves `modified` to the new time.
   */
  method BackdatedCreatedSurvives(t0: string, t1: string) returns (first: Record, created: string, modified: string)
    requires t1 != "1982-03-28 13:00:00"
    ensures Created in first && Modified in first && first[Created] == first[Modified]
    ensures created == "1982-03-28 13:00:00"
    ensures modified != "1982-03-28 13:00:00"
  {
    var v := new Vault();
    v.Set("d", map["username" := "David"], t0);
    first := v.Get("d").value;
    var hack := "1982-03-28 13:00:00";
    var ok := v.SetField("d", Created, hack);
    ok := v.SetField("d", Modified, hack);
    v.Set("d", map["username" := "Edward"], t1);
    var d := v.Get("d").value;
    created, modified := d[Created], d[Modified];
  }

  /**
    tests/vault_test.py:40-52: a record set with two fields has four (the two plus the
    timestamps), and getting an absent name raises KeyError.
   */
  method GetScenario(now: string) returns (e: Record, missing: Result<Record, VaultError>)
    ensures e.Keys == {"username", "extra", Created, Modified} && |e| == 4
    ensures e["username"] == "Edward" && e["extra"] == "potato"
    ensures missing == Err(KeyError("nonexistent cred"))
  {
    var v := new Vault();
    v.Set("e", map["username" := "Edward", "extra" := "potato"], now);
    e := v.Get("e").value;
    missing := v.Get("nonexistent cred");
  }

  /** tests/vault_test.py:70-79: after `remove`, `get` raises KeyError. */
  method RemoveScenario(now: string) returns (before: string, after: Result<Record, VaultError>)
    ensures before == "John"
    ensures after == Err(KeyError("j"))
  {
    var v := new Vault();
    v.Set("j", map["username" := "John"], now);
    before := v.Get("j").value["username"];
    var removed := v.Remove("j");
    after := v.Get("j");
  }

  /** `Lower` leaves a name that has no upper-case letter as it is. */
  lemma LowerOfLowerCase(s: string)
    requires forall i :: 0 <= i < |s| ==> !('A' <= s[i] <= 'Z')
    ensures Lower(s) == s
  {
  }

  /** A string holding some character that `s` lacks is not a substring of `s`. */
  lemma NotSubstringOfMissingChar(sub: string, s: string, j: nat)
    requires j < |sub|
    requires forall i :: 0 <= i < |s| ==> s[i] != sub[j]
    ensures !IsSubstring(sub, s)
  {
    IsSubstringIffOccurs(sub, s);
    forall i | 0 <= i <= |s| - |sub|
      ensures !OccursAt(sub, s, i)
    {
      assert s[i..i + |sub|][j] == s[i + j];
    }
  }

  /** The four names of the search test. */
  predicate HasCatNames(e: Entries)
  {
    e.Keys == {"meowmeow", "meowmix", "purrito", "meowpurr"}
  }

  lemma PurrInPurrito()
    ensures IsSubstring(Lower("purr"), Lower("purrito"))
  {
  }

  lemma PurrInMeowpurr()
    ensures IsSubstring(Lower("purr"), Lower("meowpurr"))
  {
    LowerOfLowerCase("purr");
    LowerOfLowerCase("meowpurr");
    assert OccursAt("purr", "meowpurr", 4);
    IsSubstringIffOccurs("purr", "meowpurr");
  }

  lemma NoPurrInMeows()
    ensures !IsSubstring(Lower("purr"), Lower("meowmeow"))
    ensures !IsSubstring(Lower("purr"), Lower("meowmix"))
  {
    LowerOfLowerCase("purr");
    LowerOfLowerCase("meowmeow");
    LowerOfLowerCase("meowmix");
    NotSubstringOfMissingChar("purr", "meowmeow", 0);
    NotSubstringOfMissingChar("purr", "meowmix", 0);
  }

  /** Which of the four names contain "purr" once lower-cased. */
  lemma PurrMatchSet(e: Entries)
    requires HasCatNames(e)
    ensures (set k | k in e && IsSubstring(Lower("purr"), Lower(k))) == {"meowpurr", "purrito"}
  {
    PurrInPurrito();
    PurrInMeowpurr();
    NoPurrInMeows();
  }

  lemma PurrNamesSorted()
    ensures SortedKeys({"meowpurr", "purrito"}) == ["meowpurr", "purrito"]
  {
  }

  /** "purr" matches meowpurr and purrito and nothing else, in that order. */
  lemma PurrMatches(e: Entries)
    requires HasCatNames(e)
    ensures Matches(e, "purr") == ["meowpurr", "purrito"]
  {
    var found := set k | k in e && IsSubstring(Lower("purr"), Lower(k));
    assert Matches(e, "purr") == SortedKeys(found);
    assert found == {"meowpurr", "purrito"} by {
      PurrMatchSet(e);
    }
    PurrNamesSorted();
  }

  /** The four names in ascending order. */
  lemma CatNamesSorted()
    ensures StrictlySorted(["meowmeow", "meowmix", "meowpurr", "purrito"])
  {
  }

  /** The empty query matches all four names, in ascending order. */
  lemma EmptyMatchesAll(e: Entries)
    requires HasCatNames(e)
    ensures Matches(e, "") == ["meowmeow", "meowmix", "meowpurr", "purrito"]
  {
    SearchEmptyIsListing(e);
    CatNamesSorted();
    assert forall n :: n in ["meowmeow", "meowmix", "meowpurr", "purrito"] <==> n in e;
    ListingIsSorted(e, ["meowmeow", "meowmix", "meowpurr", "purrito"]);
  }

  /** "oink" matches none of the four names: none of them has a `k`. */
  lemma OinkMatchesNothing(e: Entries)
    requires HasCatNames(e)
    ensures Matches(e, "oink") == []
  {
    LowerOfLowerCase("oink");
    forall k | k in e
      ensures !IsSubstring(Lower("oink"), Lower(k))
    {
      LowerOfLowerCase(k);
      NotSubstringOfMissingChar("oink", k, 3);
    }
    assert (set k | k in e && IsSubstring(Lower("oink"), Lower(k))) == {};
  }

  lemma UpperPurr()
    ensures Upper("purr") == "PURR"
  {
  }

  /** The four queries of the search test, on any vault holding exactly the four names. */
  lemma CatSearches(e: Entries)
    requires HasCatNames(e)
    ensures Matches(e, "purr") == ["meowpurr", "purrito"]
    ensures Matches(e, "PURR") == ["meowpurr", "purrito"]
    ensures Matches(e, "oink") == []
    ensures Matches(e, "") == ["meowmeow", "meowmix", "meowpurr", "purrito"]
  {
    PurrMatches(e);
    UpperPurr();
    SearchIgnoresCase(e, "purr");
    OinkMatchesNothing(e);
    EmptyMatchesAll(e);
  }

  /**
    tests/vault_test.py:54-68: "purr" and "PURR" both find meowpurr and purrito, in
    that order, "oink" finds nothing, and the empty query finds all four names in
    ascending order.
   */
  method SearchScenario(now: string) returns (lower: seq<string>, upper: seq<string>, miss: seq<string>, all: seq<string>)
    ensures lower == ["meowpurr", "purrito"]
    ensures upper == ["meowpurr", "purrito"]
    ensures miss == []
    ensures all == ["meowmeow", "meowmix", "meowpurr", "purrito"]
  {
    var v := new Vault();
    v.Set("meowmeow", map["username" := "Frederico"], now);
    v.Set("meowmix", map["username" := "Gregory"], now);
    v.Set("purrito", map["username" := "Howard"], now);
    v.Set("meowpurr", map["username" := "Ingrid"], now);
    assert HasCatNames(v.entries);
    lower := v.Search("purr");
    upper := v.Search("PURR");
    miss := v.Search("oink");
    all := v.Search("");
    CatSearches(v.entries);
  }
}
