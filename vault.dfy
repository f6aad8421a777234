/**
  The in-memory credential vault of vault.py: a dictionary from credential name to a
  record (field name to string), with the two reserved timestamp fields `created` and
  `modified` managed by `set`. The clock `current_dt()` is the parameter `now`.
 */
module VaultStore {
  import opened Results
  import opened Text

  /** One credential: field name to value. */
  type Record = map<string, string>

  /** The whole vault: credential name to record. */
  type Entries = map<string, Record>

  const Created: string := "created"
  const Modified: string := "modified"

  /** The exception `get` and `remove` raise for an absent name. */
  datatype VaultError = KeyError(name: string)

  /**
    `set(self, credname, **data)` binds `self` and `credname` positionally, so the keyword
    arguments gathered into `data` can never use those two names.
   */
  predicate IsKeywordData(data: Record)
  {
    "self" !in data && "credname" !in data
  }

  /** `self.entries.get(credname, {}).get('created', now)`: the stamp already stored for `name`, else `now`. */
  function CreatedFor(entries: Entries, name: string, now: string): (created: string)
    ensures created == now || (name in entries && Created in entries[name] && created == entries[name][Created])
    ensures name in entries && Created in entries[name] ==> created == entries[name][Created]
  {
    if name in entries && Created in entries[name] then entries[name][Created] else now
  }

  /** The record `set(name, **data)` stores: `data` with `created` and `modified` written into it. */
  function SetRecord(entries: Entries, name: string, data: Record, now: string): (r: Record)
    ensures Created in r && Modified in r
    ensures r[Created] == CreatedFor(entries, name, now) && r[Modified] == now
  {
    data[Created := CreatedFor(entries, name, now)][Modified := now]
  }

  /** `sorted(entries.keys())`. */
  function Listing(entries: Entries): seq<string>
  {
    SortedKeys(entries.Keys)
  }

  /** `sorted([k for k in entries if sub.lower() in k.lower()])`. */
  function Matches(entries: Entries, sub: string): seq<string>
  {
    SortedKeys(set k | k in entries && IsSubstring(Lower(sub), Lower(k)))
  }

  class Vault {
    var entries: Entries

    /** An empty vault. */
    constructor ()
      ensures entries == map[]
    {
      entries := map[];
    }

    /** `list()`: every stored name once, in ascending order. */
    function List(): (names: seq<string>)
      reads this
      ensures StrictlySorted(names)
      ensures forall n :: n in names <==> n in entries
    {
      Listing(entries)
    }

    /** `set(name, **data)`: upsert; only `name` changes, to `data` plus the two timestamps. */
    method Set(name: string, data: Record, now: string)
      requires IsKeywordData(data)
      modifies this
      ensures entries == old(entries)[name := SetRecord(old(entries), name, data, now)]
    {
      var created := CreatedFor(entries, name, now);
      var stored := data[Created := created];
      stored := stored[Modified := now];
      entries := entries[name := stored];
    }

    /** `get(name)`: the stored record, or KeyError. */
    function Get(name: string): (r: Result<Record, VaultError>)
      reads this
      ensures r.Ok? <==> name in List()
      ensures r.Ok? ==> name in entries && r.value == entries[name]
      ensures r.Err? ==> r.error == KeyError(name)
    {
      if name in entries then Ok(entries[name]) else Err(KeyError(name))
    }

    /** `contains(name)`: whether `list()` would show `name`. */
    function Contains(name: string): (b: bool)
      reads this
      ensures b <==> name in List()
      ensures b <==> Get(name).Ok?
    {
      name in entries
    }

    /** `search(sub)`: the names containing `sub`, ignoring ASCII case, in ascending order. */
    function Search(sub: string): (names: seq<string>)
      reads this
      ensures StrictlySorted(names)
      ensures forall n :: n in names <==> n in entries && IsSubstring(Lower(sub), Lower(n))
    {
      Matches(entries, sub)
    }

    /** `remove(name)`: deletes `name`, or raises KeyError and changes nothing. */
    method Remove(name: string) returns (r: Result<(), VaultError>)
      modifies this
      ensures r.Ok? <==> name in old(entries)
      ensures r.Ok? ==> entries == old(entries) - {name}
      ensures r.Err? ==> r.error == KeyError(name) && entries == old(entries)
    {
      if name in entries {
        entries := entries - {name};
        r := Ok(());
      } else {
        r := Err(KeyError(name));
      }
    }

    /** `loads(s)` after the JSON decoding: the entries are replaced wholesale. */
    method Loads(decoded: Entries)
      modifies this
      ensures entries == decoded
    {
      entries := decoded;
    }

    /**
      `get(name)[field] = value`: `get` hands out the stored record itself, so assigning
      into it changes the vault. Raises KeyError (and changes nothing) for an absent name.
     */
    method SetField(name: string, field: string, value: string) returns (r: Result<(), VaultError>)
      modifies this
      ensures r.Ok? <==> name in old(entries)
      ensures r.Ok? ==> entries == old(entries)[name := old(entries)[name][field := value]]
      ensures r.Err? ==> r.error == KeyError(name) && entries == old(entries)
    {
      if name in entries {
        entries := entries[name := entries[name][field := value]];
        r := Ok(());
      } else {
        r := Err(KeyError(name));
      }
    }
  }

  // ---------------------------------------------------------------------------
  // What `set` stores.
  // ---------------------------------------------------------------------------

  /** A name not yet in the vault gets `created == modified == now`. */
  lemma SetNewName(entries: Entries, name: string, data: Record, now: string)
    requires name !in entries
    ensures SetRecord(entries, name, data, now)[Created] == now
    ensures SetRecord(entries, name, data, now)[Modified] == now
  {
  }

  /**
    Re-setting a name keeps its old `created` (or `now` when the old record has none),
    whatever `created` or `modified` the caller passes, and refreshes `modified`.
   */
  lemma SetExistingName(entries: Entries, name: string, data: Record, now: string)
    requires name in entries
    ensures Created in entries[name] ==> SetRecord(entries, name, data, now)[Created] == entries[name][Created]
    ensures Created !in entries[name] ==> SetRecord(entries, name, data, now)[Created] == now
    ensures SetRecord(entries, name, data, now)[Modified] == now
  {
  }

  /**
    The stored record is exactly the supplied fields plus the two timestamps: nothing of
    the previous record survives except `created`.
   */
  lemma SetReplacesFields(entries: Entries, name: string, data: Record, now: string)
    ensures SetRecord(entries, name, data, now).Keys == data.Keys + {Created, Modified}
    ensures forall f :: f in data && f != Created && f != Modified ==>
      SetRecord(entries, name, data, now)[f] == data[f]
  {
  }

  /** The stored record depends on the old vault only through the old record of `name`. */
  lemma SetRecordLocal(e: Entries, e': Entries, name: string, data: Record, now: string)
    requires name in e <==> name in e'
    requires name in e ==> e[name] == e'[name]
    ensures SetRecord(e, name, data, now) == SetRecord(e', name, data, now)
  {
  }

  // ---------------------------------------------------------------------------
  // Listing and search.
  // ---------------------------------------------------------------------------

  /** A fresh vault lists nothing. */
  lemma EmptyListing()
    ensures Listing(map[]) == []
  {
  }

  /**
    `list()` is the one ascending sequence of the stored names: any strictly ascending
    sequence holding exactly those names is it, however the names were inserted.
   */
  lemma ListingIsSorted(entries: Entries, names: seq<string>)
    requires StrictlySorted(names)
    requires forall n :: n in names <==> n in entries
    ensures Listing(entries) == names
  {
    SortedUnique(Listing(entries), names);
  }

  /** The empty substring matches every name: `search('')` equals `list()`. */
  lemma SearchEmptyIsListing(entries: Entries)
    ensures Matches(entries, "") == Listing(entries)
  {
    assert (set k | k in entries && IsSubstring(Lower(""), Lower(k))) == entries.Keys;
  }

  /** The search is case-insensitive: an upper-cased query finds the same names. */
  lemma SearchIgnoresCase(entries: Entries, sub: string)
    ensures Matches(entries, Upper(sub)) == Matches(entries, sub)
  {
    LowerOfUpper(sub);
  }
}
