# pman vault core in Dafny

pman is a command-line password manager. It keeps named credentials in one encrypted
file. Each credential is a record of string fields, for example `username` and
`password`. Every record also carries two reserved timestamp fields, `created` and
`modified`. This project models three parts of the program and proves properties of them:

- **The in-memory vault** (`vault.py`, module `VaultStore` in `vault.dfy`). A class
  `Vault` holds one field `entries`, a map from credential name to record. Its methods
  are the constructor, `List`, `Set` (insert or update; keeps `created` and refreshes
  `modified`), `Get`, `Contains`, `Search` (ASCII case-insensitive substring search),
  `Remove` and `Loads` (replaces every entry). `SetField` models assigning into the
  record that `get` returns, which changes the vault. Absent names give `KeyError`.
  The clock `current_dt()` becomes the parameter `now`.
- **The merge loop of `cmd_merge`** (`pman.py`, module `Merging` in `merge.dfy`). The
  method `Merge(v1, v2, now)` walks `v2.list()`. It updates `v1` in place and returns
  the printed lines (`Add`, `Pull`, `Skip`) plus the exception that ended the loop, if
  any. It is proved equal to a fold `Run` over the names, and the lemmas about `Run`
  state what the merge does.
- **The vault file** (`util.py`, module `Container` in `container.dfy`). The file is
  the 18-byte salt followed directly by the Fernet token of the JSON text, with no
  length field. `SaveVault` and `LoadVault` work on a `ByteStream` class with contents
  and a position, standing for a binary file or `io.BytesIO`. Key derivation, Fernet and
  JSON are library code. They are passed in as a `Primitives` value. What the format
  needs from them is stated as predicates: Fernet round-trips, Fernet rejects a token
  under another key, and JSON round-trips.

Shared pieces:

- `text.dfy` (module `Text`) models Python's string order and `sorted` on a set of
  names. It also has `str.lower()` on ASCII and the `in` substring test.
- `results.dfy` holds `Option` and `Result`.
- `vault_scenarios.dfy` and `container_scenarios.dfy` replay the unit tests on the
  model. The postcondition of each scenario is what the test asserts.

Behaviour of the code worth knowing:

- **Adding a name missing from the first vault.** The merge does not copy the entry.
  The code calls `v1.set(key, v2.get(key))`, which passes the record as a second
  positional argument. So `set` raises `TypeError` right after `add v2: ...` is printed,
  and the loop ends. The model ends the loop with `Raised(key, TypeError)`; see
  `Merging.RunAddRaises`.
- **The label of a newer remote record.** The code prints `pull v2: ...`, and the
  model's action is `Pull`.
- **A file of at most 18 bytes.** `load_vault` has no length check. `fp.read(18)`
  returns the whole short file, which is used as the salt, and the token is empty.
  Fernet refuses an empty token, so the failure is reported as the incorrect-key error.
  See `Container.Split` and `Container.LoadShortFile`.
- **`created <= modified`.** `set` always writes `modified = now` and takes `created`
  from the stored record or from `now`, whatever the caller passes. It never compares
  the two stamps, so the order can still break in three ways:
  - a clock that goes backwards (`now` is an unconstrained string);
  - assigning into the record that `get` returns (`SetField`, as
    tests/vault_test.py:31-32 does);
  - `loads` of arbitrary entries.

## Model

| member | source | states |
|---|---|---|
| VaultStore.Vault.constructor | vault.py:22-24 | a new vault has no entries |
| VaultStore.Vault.List | vault.py:26-28 | the listing is strictly ascending and holds exactly the stored names |
| VaultStore.Vault.Set | vault.py:30-36 | only `name` changes; it gets the supplied fields, `created` kept from the old record (or `now`), and `modified = now` |
| VaultStore.Vault.Get | vault.py:38-40 | succeeds exactly for a listed name and gives its stored record; otherwise KeyError for that name |
| VaultStore.Vault.Contains | vault.py:42-44 | true exactly when the name is listed, equivalently when `get` would succeed |
| VaultStore.Vault.Search | vault.py:46-49 | strictly ascending; a name is returned iff it is stored and the lower-cased query occurs in its lower-cased form |
| VaultStore.Vault.Remove | vault.py:51-53 | removes exactly that name if present; otherwise KeyError and the vault is unchanged |
| VaultStore.Vault.Loads | vault.py:59-61 | the decoded entries replace the whole vault |
| VaultStore.Vault.SetField | tests/vault_test.py:29-32 | assigning into the record `get` returned changes that field of the stored entry only; KeyError for an absent name |
| VaultStore.CreatedFor | vault.py:34 | the `created` stamp `set` uses: the one already stored for the name, otherwise `now` |
| VaultStore.SetRecord | vault.py:33-36 | the record `set` stores always holds both timestamps: `created` from `CreatedFor` and `modified = now` |
| VaultStore.SetNewName | vault.py:33-35 | a name not yet stored gets `created == modified == now` |
| VaultStore.SetExistingName | vault.py:33-35 | re-setting keeps the old `created` (or `now` if there was none) and sets `modified` to `now` |
| VaultStore.SetReplacesFields | vault.py:30-36 | the stored record has exactly the supplied fields plus the two timestamps; old fields other than `created` are dropped |
| VaultStore.SetRecordLocal | vault.py:34 | what `set` stores depends on the old vault only through the old record of that name |
| VaultStore.EmptyListing | vault.py:22-28 | a fresh vault lists nothing |
| VaultStore.ListingIsSorted | vault.py:26-28 | any strictly ascending sequence of exactly the stored names is the listing |
| VaultStore.SearchEmptyIsListing | vault.py:46-49 | searching for the empty string returns the whole listing |
| VaultStore.SearchIgnoresCase | vault.py:46-49 | an upper-cased query finds the same names as the query itself |
| Text.LessTrichotomy | pman.py:191 | string `<` is a strict total order |
| Text.SortedKeys | vault.py:28 | `sorted` of a set is strictly ascending, has each element exactly once, and has the set's size |
| Text.SortedUnique | vault.py:28 | two strictly ascending sequences with the same elements are equal |
| Text.IsSubstringIffOccurs | vault.py:49 | `sub in s` holds exactly when `sub` occurs at some offset of `s` |
| Merging.Step | pman.py:181-195 | one iteration of the loop body: it keeps the first vault's names, prints at most one line (about that name), and does nothing once an exception has been raised |
| Merging.Run | pman.py:180-195 | the loop as a fold over the names, which `Merge` is proved equal to; it prints at most one line per name |
| Merging.Merge | pman.py:180-195 | the second vault is unchanged; the first vault, the printed lines and the raised exception are those of the fold `Run` over `v2.list()` |
| Merging.RunStopsWhenRaised | pman.py:181-184 | once an exception is raised, later names change nothing and print nothing |
| Merging.RunFrame | pman.py:180-195 | the merge never adds or removes a name of the first vault and never touches a name absent from the second |
| Merging.RunIdenticalIsNoOp | pman.py:189-190 | names whose records are equal in both vaults are left alone and print nothing |
| Merging.RunAddRaises | pman.py:181-184 | reaching a name the first vault lacks, with no exception raised yet, prints its add line, raises TypeError there, and ends the loop |
| Merging.StepCompleted | pman.py:186-195 | a step that raises nothing, on a name whose record is still the original, prints the reference line and stores the reference record |
| Merging.RunIntoEmptyVault | pman.py:181-184 | merging into an empty vault prints the add line of the first name, then raises TypeError and adds nothing |
| Merging.RunLogOrdered | pman.py:180-195 | at most one line per name, in the ascending order of `v2.list()` |
| Merging.RunCompleted | pman.py:180-195 | a merge that raises nothing had every name already present; it prints exactly the reference lines, and each record is pulled (first vault's `created`, `modified = now`) when its `modified` is strictly older, otherwise kept |
| Container.MakeSalt | util.py:18-20 | the salt is 18 bytes drawn from the entropy source |
| Container.SaveVault | util.py:51-56 | the stream gets the salt followed by the token written at the current position, and the position advances past them |
| Container.LoadVault | util.py:37-49 | reads to the end; a failed decryption is IncorrectKey, bad JSON is Undecodable, otherwise a fresh vault with the decoded entries and the salt read |
| Container.SavedLayout | util.py:51-56 | a saved file is the 18-byte salt, then the token, with nothing between or after |
| Container.SplitOfSaved | util.py:39-40 | reading 18 bytes and then the rest gives back the salt and the token |
| Container.Split | util.py:39-40 | the two reads lose nothing, and the salt read is 18 bytes or the whole shorter file |
| Container.Open | util.py:37-49 | the functional form of `load_vault`: a successful load returns the salt read from the front of the file, and entries that the rest decrypts and decodes to |
| Container.LoadShortFile | util.py:39-45 | a file of at most 18 bytes fails with IncorrectKey, since no length check is made and the empty token does not decrypt |
| Container.Encrypt | util.py:27-30 | Fernet encryption under the key derived from the password and salt; `EncryptDecrypt` states its partner property |
| Container.Decrypt | util.py:32-35 | Fernet decryption under the key derived from the password and salt; `None` stands for InvalidToken |
| Container.EncryptDecrypt | util.py:27-35 | decrypting with the same password and salt gives the plaintext back |
| Container.SaveThenLoad | util.py:37-56 | loading a saved vault with its password gives back the same entries and salt |
| Container.LoadWithWrongPassword | util.py:42-45 | a password whose derived key differs fails with IncorrectKey |
| Container.LoadWithCorruptSalt | tests/util_test.py:48-52 | overwriting the salt with bytes that change the derived key makes loading fail with IncorrectKey |
| VaultScenarios.ListIsSorted | tests/vault_test.py:11-18 | names set as b, a, c are listed as a, b, c |
| VaultScenarios.BackdatedCreatedSurvives | tests/vault_test.py:20-38 | a new entry has `created == modified`; after backdating, re-setting keeps `created` and moves `modified` |
| VaultScenarios.GetScenario | tests/vault_test.py:40-52 | the record has the two fields plus the timestamps, four in all; an absent name gives KeyError |
| VaultScenarios.SearchScenario | tests/vault_test.py:54-68 | "purr" and "PURR" find meowpurr and purrito, "oink" finds nothing, and "" finds all four in order |
| VaultScenarios.RemoveScenario | tests/vault_test.py:70-79 | after `remove`, `get` gives KeyError |
| VaultScenarios.CatSearches | vault.py:46-49 | the four search results of the search test, for any vault holding exactly its four names |
| ContainerScenarios.SaveLoadScenario | tests/util_test.py:26-52 | a wrong password fails; the right one returns the same salt and entries; a corrupted salt fails |
| ContainerScenarios.DumpLoadScenario | tests/vault_test.py:81-95 | a vault dumped and loaded into a new vault lists k, l with the same usernames |

## Left out

- The command line: argument parsing, password prompts, signal and resource-limit
  setup, the `PMAN_VAULT` environment variable, and the `cmd_*` commands other than the
  merge loop. These are input and output around the core.
- Loading the second vault inside `cmd_merge` (pman.py:171-178). It is a call to
  `load_vault`, which is modelled; the model's `Merge` receives both vaults loaded.
- The write of the merged vault to the file `barfbarf` with a fixed password and salt
  (pman.py:197-198). It is file output after the loop. The merge result is never saved
  back to the user's vault file.
- `crypt.py`, PBKDF2, base64 and the Fernet construction. They are foreign cryptography.
  The model uses them only through `Primitives` and the predicates `FernetRoundTrips`,
  `FernetRejectsOtherKeys`, `FernetRejectsEmptyToken` and `JsonRoundTrips`, and the lemmas take these as
  preconditions.
- Container.Encrypt: Fernet's random IV and timestamp are not modelled. Encryption is a
  deterministic function of key and plaintext; only decryption's result matters to the
  file format.
- Container.MakeSalt: does not model the quality of `os.urandom`. The entropy source is a
  parameter, so the test's "more than 4 distinct bytes" check has no counterpart.
- The JSON encoding itself and UTF-8 decoding. `dumps` and `loads` are parameters;
  `VaultStore.Vault.Loads` receives the entries already decoded.
- VaultStore.Vault.Search: folds only the letters A-Z. Python's full Unicode
  `str.lower()` is not modelled.
- VaultStore.Vault.Set: requires that no field is named `self` or `credname`. Python
  binds those two names positionally, so a keyword argument with either name cannot
  reach `data`. Inside the merge loop such a record raises TypeError instead, as the
  code does.
- Merging.Merge: every pull gets the same `modified` stamp `now`. The code reads the
  clock once per pulled `set` (vault.py:33), so two pulls in one merge may get
  different stamps.
- Merging.Merge: a record without `modified` raises KeyError in the code; the model
  ends the loop with `Raised(key, MissingField("modified"))`. Field values are strings.
  A JSON value of another type, which `loads` could produce, is not modelled.
- `current_dt`, `parse_dt` and the age arithmetic of the listing command. Clocks become
  the `now` parameter. Timestamps are compared as strings, exactly as the merge does.
