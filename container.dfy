/**
  The vault file of util.py: the 18-byte salt followed immediately by the Fernet
  token of the JSON-encoded entries, with no length field. The key derivation, Fernet
  and the JSON codec are foreign library code; they are passed in as functions, and what
  the file format relies on them for is stated as predicates that the lemmas assume.
 */
module Container {
  import opened Results
  import opened VaultStore

  newtype byte = x: int | 0 <= x < 256

  type Bytes = seq<byte>

  /** `make_salt` draws this many bytes and `load_vault` reads this many back. */
  const SaltLength: nat := 18

  /** The library calls util.py makes, as functions. */
  datatype Primitives = Primitives(
    deriveKey: (Bytes, Bytes) -> Bytes,               // urlsafe_b64encode(pbkdf2_hmac('sha256', password, salt, 2_000_000))
    fernetEncrypt: (Bytes, Bytes) -> Bytes,           // Fernet(key).encrypt(data)
    fernetDecrypt: (Bytes, Bytes) -> Option<Bytes>,   // Fernet(key).decrypt(data); None is InvalidToken
    dumps: Entries -> Bytes,                          // json.dumps(entries).encode()
    loads: Bytes -> Option<Entries>)                  // json.loads(raw.decode('utf8')); None is a decoding error

  /** Fernet gives back what was encrypted under the same key. */
  ghost predicate FernetRoundTrips(p: Primitives)
  {
    forall key, data :: p.fernetDecrypt(key, p.fernetEncrypt(key, data)) == Some(data)
  }

  /** Fernet refuses (InvalidToken) a token presented with a different key. */
  ghost predicate FernetRejectsOtherKeys(p: Primitives)
  {
    forall key, other, data :: key != other ==> p.fernetDecrypt(other, p.fernetEncrypt(key, data)) == None
  }

  /** Fernet refuses (InvalidToken) an empty token: it lacks even the version byte. */
  ghost predicate FernetRejectsEmptyToken(p: Primitives)
  {
    forall key :: p.fernetDecrypt(key, []) == None
  }

  /** Decoding the JSON text of a vault gives back the same entries. */
  ghost predicate JsonRoundTrips(p: Primitives)
  {
    forall entries :: p.loads(p.dumps(entries)) == Some(entries)
  }

  /** What `load_vault` reports instead of a vault. */
  datatype LoadError =
    | IncorrectKey   // RuntimeError('incorrect decryption key'), raised from InvalidToken
    | Undecodable    // the plaintext is not UTF-8 JSON: the decoding error propagates

  /** `make_salt()`: `os.urandom(18)`, the operating system's bytes being the parameter `entropy`. */
  function MakeSalt(entropy: Bytes): (salt: Bytes)
    requires |entropy| >= SaltLength
    ensures |salt| == SaltLength
    ensures salt <= entropy
  {
    entropy[..SaltLength]
  }

  /** `encrypt(password, salt, data)`: Fernet under the key derived from `(password, salt)`. */
  function Encrypt(p: Primitives, password: Bytes, salt: Bytes, data: Bytes): Bytes
  {
    p.fernetEncrypt(p.deriveKey(password, salt), data)
  }

  /** `decrypt(password, salt, data)`: Fernet under the key derived from `(password, salt)`. */
  function Decrypt(p: Primitives, password: Bytes, salt: Bytes, data: Bytes): Option<Bytes>
  {
    p.fernetDecrypt(p.deriveKey(password, salt), data)
  }

  /** The file `save_vault` writes: the salt, then the token, nothing else. */
  function SavedBytes(p: Primitives, password: Bytes, salt: Bytes, entries: Entries): Bytes
  {
    salt + Encrypt(p, password, salt, p.dumps(entries))
  }

  /**
    `fp.read(18)` then `fp.read()`: the first 18 bytes (fewer if the file is shorter) and
    the rest. The two reads lose nothing, and a file of at most 18 bytes leaves no token.
   */
  function Split(file: Bytes): (r: (Bytes, Bytes))
    ensures r.0 + r.1 == file
    ensures |r.0| == if |file| < SaltLength then |file| else SaltLength
  {
    if |file| < SaltLength then (file, []) else (file[..SaltLength], file[SaltLength..])
  }

  /** The result of a successful `load_vault`: the entries and the salt read. */
  datatype Opened = Opened(entries: Entries, salt: Bytes)

  /**
    `load_vault` on the bytes from the current position to the end of the file. A
    successful load returns the salt read from the front of the file and the entries
    that the rest decrypts and decodes to.
   */
  function Open(p: Primitives, file: Bytes, password: Bytes): (r: Result<Opened, LoadError>)
    ensures r.Ok? ==> r.value.salt <= file && |r.value.salt| <= SaltLength
    ensures r.Ok? ==> exists raw :: (Decrypt(p, password, r.value.salt, file[|r.value.salt|..]) == Some(raw)
                                     && p.loads(raw) == Some(r.value.entries))
  {
    var (salt, token) := Split(file);
    match Decrypt(p, password, salt, token)
    case None => Err(IncorrectKey)
    case Some(raw) =>
      match p.loads(raw)
      case None => Err(Undecodable)
      case Some(entries) => Ok(Opened(entries, salt))
  }

  /** Writing `b` at position `pos` of `s`: the bytes before stay, `b` replaces what it covers. */
  function Overwrite(s: Bytes, pos: nat, b: Bytes): (r: Bytes)
    requires pos <= |s|
    ensures |r| == if pos + |b| < |s| then |s| else pos + |b|
  {
    s[..pos] + b + (if pos + |b| < |s| then s[pos + |b|..] else [])
  }

  /**
    A binary file object (`open(..., 'wb')`, `open(..., 'rb')` or `io.BytesIO`): its
    contents and the current position.
   */
  class ByteStream {
    var data: Bytes
    var pos: nat

    ghost predicate Valid()
      reads this
    {
      pos <= |data|
    }

    /** A stream over `initial`, positioned at its start. */
    constructor (initial: Bytes)
      ensures Valid() && data == initial && pos == 0
    {
      data, pos := initial, 0;
    }

    /** `fp.seek(offset)`. */
    method Seek(offset: nat)
      requires Valid() && offset <= |data|
      modifies this
      ensures Valid() && data == old(data) && pos == offset
    {
      pos := offset;
    }

    /** `fp.write(b)`. */
    method Write(b: Bytes)
      requires Valid()
      modifies this
      ensures Valid()
      ensures data == Overwrite(old(data), old(pos), b) && pos == old(pos) + |b|
    {
      data := Overwrite(data, pos, b);
      pos := pos + |b|;
    }

    /** `fp.read(n)`: at most `n` bytes from the current position. */
    method Read(n: nat) returns (r: Bytes)
      requires Valid()
      modifies this
      ensures Valid() && data == old(data)
      ensures r == if old(pos) + n <= |data| then data[old(pos)..old(pos) + n] else data[old(pos)..]
      ensures pos == old(pos) + |r|
    {
      r := if pos + n <= |data| then data[pos..pos + n] else data[pos..];
      pos := pos + |r|;
    }

    /** `fp.read()`: everything from the current position to the end. */
    method ReadAll() returns (r: Bytes)
      requires Valid()
      modifies this
      ensures Valid() && data == old(data)
      ensures r == data[old(pos)..] && pos == |data|
    {
      r := data[pos..];
      pos := |data|;
    }
  }

  /** `save_vault(fp, password, salt, v)`: writes the salt, then the token of `v.dumps()`. */
  method SaveVault(fp: ByteStream, p: Primitives, password: Bytes, salt: Bytes, v: Vault)
    requires fp.Valid()
    modifies fp
    ensures fp.Valid()
    ensures fp.data == Overwrite(old(fp.data), old(fp.pos), SavedBytes(p, password, salt, v.entries))
    ensures fp.pos == old(fp.pos) + |SavedBytes(p, password, salt, v.entries)|
  {
    var raw := p.dumps(v.entries);
    var token := Encrypt(p, password, salt, raw);
    ghost var start := fp.data;
    fp.Write(salt);
    fp.Write(token);
    OverwriteTwice(start, old(fp.pos), salt, token);
  }

  /**
    `load_vault(fp, password)`: reads the salt and the token, decrypts, decodes into a new
    vault and returns it with the salt; a wrong key is reported as IncorrectKey.
   */
  method LoadVault(fp: ByteStream, p: Primitives, password: Bytes) returns (r: Result<(Vault, Bytes), LoadError>)
    requires fp.Valid()
    modifies fp
    ensures fp.Valid() && fp.data == old(fp.data) && fp.pos == |fp.data|
    ensures Open(p, old(fp.data)[old(fp.pos)..], password).Err? ==>
      r == Err(Open(p, old(fp.data)[old(fp.pos)..], password).error)
    ensures Open(p, old(fp.data)[old(fp.pos)..], password).Ok? ==>
      && r.Ok? && fresh(r.value.0)
      && r.value.0.entries == Open(p, old(fp.data)[old(fp.pos)..], password).value.entries
      && r.value.1 == Open(p, old(fp.data)[old(fp.pos)..], password).value.salt
  {
    ghost var file := fp.data[fp.pos..];
    var salt := fp.Read(SaltLength);
    var token := fp.ReadAll();
    if |file| >= SaltLength {
      assert file[..SaltLength] == salt && file[SaltLength..] == token;
    }
    assert (salt, token) == Split(file);
    var raw := Decrypt(p, password, salt, token);
    if raw.None? {
      return Err(IncorrectKey);
    }
    var decoded := p.loads(raw.value);
    if decoded.None? {
      return Err(Undecodable);
    }
    var v := new Vault();
    v.Loads(decoded.value);
    r := Ok((v, salt));
  }

  // ---------------------------------------------------------------------------
  // Layout.
  // ---------------------------------------------------------------------------

  /** Two writes in a row are one write of the concatenation. */
  lemma OverwriteTwice(s: Bytes, pos: nat, a: Bytes, b: Bytes)
    requires pos <= |s|
    ensures Overwrite(Overwrite(s, pos, a), pos + |a|, b) == Overwrite(s, pos, a + b)
  {
  }

  /** A saved file is 18 bytes of salt, then the token, with nothing between or after. */
  lemma SavedLayout(p: Primitives, password: Bytes, salt: Bytes, entries: Entries)
    requires |salt| == SaltLength
    ensures SavedBytes(p, password, salt, entries)[..SaltLength] == salt
    ensures SavedBytes(p, password, salt, entries)[SaltLength..] == Encrypt(p, password, salt, p.dumps(entries))
  {
  }

  /** Reading 18 bytes and then the rest splits a saved file back into its salt and token. */
  lemma SplitOfSaved(salt: Bytes, token: Bytes)
    requires |salt| == SaltLength
    ensures Split(salt + token) == (salt, token)
  {
  }

  // ---------------------------------------------------------------------------
  // Round trips and failures, under the stated library properties.
  // ---------------------------------------------------------------------------

  /** Encryption and decryption derive the same key from `(password, salt)`, so decrypting gives the plaintext back. */
  lemma EncryptDecrypt(p: Primitives, password: Bytes, salt: Bytes, data: Bytes)
    requires FernetRoundTrips(p)
    ensures Decrypt(p, password, salt, Encrypt(p, password, salt, data)) == Some(data)
  {
  }

  /** Loading a saved vault with its password gives back the same salt and the same entries. */
  lemma SaveThenLoad(p: Primitives, password: Bytes, salt: Bytes, entries: Entries)
    requires FernetRoundTrips(p) && JsonRoundTrips(p)
    requires |salt| == SaltLength
    ensures Open(p, SavedBytes(p, password, salt, entries), password) == Ok(Opened(entries, salt))
  {
  }

  /** Loading with a password whose derived key differs fails with IncorrectKey and yields no vault. */
  lemma LoadWithWrongPassword(p: Primitives, password: Bytes, other: Bytes, salt: Bytes, entries: Entries)
    requires FernetRejectsOtherKeys(p)
    requires |salt| == SaltLength
    requires p.deriveKey(other, salt) != p.deriveKey(password, salt)
    ensures Open(p, SavedBytes(p, password, salt, entries), other) == Err(IncorrectKey)
  {
  }

  /**
    Overwriting the stored salt with other bytes (whose derived key differs) makes
    loading fail with IncorrectKey: the salt is not authenticated, but the key depends on it.
   */
  lemma LoadWithCorruptSalt(p: Primitives, password: Bytes, salt: Bytes, bad: Bytes, entries: Entries)
    requires FernetRejectsOtherKeys(p)
    requires |salt| == SaltLength && |bad| == SaltLength
    requires p.deriveKey(password, bad) != p.deriveKey(password, salt)
    ensures Open(p, Overwrite(SavedBytes(p, password, salt, entries), 0, bad), password) == Err(IncorrectKey)
  {
    var token := Encrypt(p, password, salt, p.dumps(entries));
    assert Overwrite(salt + token, 0, bad) == bad + token by {
      if SaltLength < |salt + token| {
        assert (salt + token)[SaltLength..] == token;
      }
    }
    SplitOfSaved(bad, token);
  }

  /**
    A file of at most 18 bytes has no token left after the salt read: `load_vault` does
    not check the length, and the empty token fails to decrypt, so IncorrectKey results.
   */
  lemma LoadShortFile(p: Primitives, file: Bytes, password: Bytes)
    requires FernetRejectsEmptyToken(p)
    requires |file| <= SaltLength
    ensures Open(p, file, password) == Err(IncorrectKey)
  {
    assert Split(file).1 == [];
  }
}
