/**
  The scenario of tests/util_test.py:26-52 replayed on the model: save a vault into an
  in-memory stream, then load it back with a wrong password, with the right one, and
  after overwriting the salt at the start of the stream.
 */
module ContainerScenarios {
  import opened Results
  import opened VaultStore
  import opened Container
  import Text

  /** The 18 bytes `b'a' * 18` the test writes over the salt. */
  function Letters(): (bad: Bytes)
    ensures |bad| == SaltLength
  {
    seq(SaltLength, _ => 97 as byte)
  }

  /**
    tests/util_test.py:26-52: a wrong password fails with the decryption error; the right
    one gives back the salt and the same entries; a salt overwritten with other bytes
    fails again. The two key inequalities are what the test relies on PBKDF2 for.
   */
  method SaveLoadScenario(p: Primitives, entropy: Bytes, password: Bytes, wrong: Bytes, now: string)
    returns (wrongKey: Option<LoadError>, salt: Bytes, loadedSalt: Bytes, saved: Entries, loaded: Entries, corrupt: Option<LoadError>)
    requires FernetRoundTrips(p) && FernetRejectsOtherKeys(p) && JsonRoundTrips(p)
    requires |entropy| >= SaltLength
    requires p.deriveKey(wrong, MakeSalt(entropy)) != p.deriveKey(password, MakeSalt(entropy))
    requires p.deriveKey(password, Letters()) != p.deriveKey(password, MakeSalt(entropy))
    ensures wrongKey == Some(IncorrectKey)
    ensures loadedSalt == salt && loaded == saved  // so `dumps` of the two vaults agree, as the test compares
    ensures corrupt == Some(IncorrectKey)
  {
    var v := new Vault();
    v.Set("email", map["username" := "Niek Sanders", "password" := "secret"], now);
    saved := v.entries;

    var fp := new ByteStream([]);
    salt := MakeSalt(entropy);
    SaveVault(fp, p, password, salt, v);
    assert fp.data == SavedBytes(p, password, salt, saved);

    fp.Seek(0);
    var first := LoadVault(fp, p, wrong);
    LoadWithWrongPassword(p, password, wrong, salt, saved);
    wrongKey := if first.Err? then Some(first.error) else None;

    fp.Seek(0);
    var second := LoadVault(fp, p, password);
    SaveThenLoad(p, password, salt, saved);
    loaded, loadedSalt := second.value.0.entries, second.value.1;

    fp.Seek(0);
    fp.Write(Letters());
    fp.Seek(0);
    var third := LoadVault(fp, p, password);
    LoadWithCorruptSalt(p, password, salt, Letters(), saved);
    corrupt := if third.Err? then Some(third.error) else None;
  }

  /** A vault holding exactly the names k and l lists them in that order. */
  lemma KlListing(e: Entries)
    requires e.Keys == {"k", "l"}
    ensures Listing(e) == ["k", "l"]
  {
  }

  /**
    tests/vault_test.py:81-95: a vault dumped to JSON and loaded into a new vault lists
    the same names and holds the same usernames.
   */
  method DumpLoadScenario(p: Primitives, now: string) returns (names: seq<string>, k: string, l: string)
    requires JsonRoundTrips(p)
    ensures names == ["k", "l"]
    ensures k == "Kyle" && l == "Linda"
  {
    var v1 := new Vault();
    v1.Set("k", map["username" := "Kyle"], now);
    v1.Set("l", map["username" := "Linda"], now);
    var s := p.dumps(v1.entries);

    var v2 := new Vault();
    var decoded := p.loads(s);
    assert decoded == Some(v1.entries);
    v2.Loads(decoded.value);
    names := v2.List();
    KlListing(v2.entries);
    k, l := v2.Get("k").value["username"], v2.Get("l").value["username"];
  }
}
