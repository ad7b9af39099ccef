/** The module Puppet::Util::Encrypt of lib/puppet/util/encrypt.rb, the earlier
    draft still mixed into the catalog store. It keeps no key material in
    memory: every call reads the key-material file, and generation writes it.

    The functions take the key-material file's contents and give back the
    result together with the file's new contents. Two defects of the source are
    modelled both as written (`PrimeAsWritten`, `UpdateAsWrittenSpec`) and
    corrected (`Prime`, `UpdateSpec`); the rest of the module uses the
    corrected definitions. */
module DraftEncrypt {
  import opened Crypto

  /** The key_material hash; a missing or nil entry is None. */
  datatype DraftKeyMaterial = DraftKeyMaterial(
    catalogKey: Option<Bytes>, catalogIv: Option<Bytes>,
    transactstoreKey: Option<Bytes>, transactstoreIv: Option<Bytes>)

  /** `Hash.new`, and equally the record of nils written with secure_artifacts off. */
  const EmptyHash := DraftKeyMaterial(None, None, None, None)

  /** Contents of the key-material file: a wrapped record, or bytes that cannot
      be unwrapped (corrupt, or truncated by a failed rewrite). */
  datatype DraftFile = Wrapped(km: DraftKeyMaterial) | Unreadable

  /** The random draws of update_key_material. */
  datatype FreshPair = FreshPair(key: Bytes, iv: Bytes)

  function KeyEntry(km: DraftKeyMaterial, a: Artifact): Option<Bytes>
    requires a != Unrecognised
  {
    if a == Catalog then km.catalogKey else km.transactstoreKey
  }

  function IvEntry(km: DraftKeyMaterial, a: Artifact): Option<Bytes>
    requires a != Unrecognised
  {
    if a == Catalog then km.catalogIv else km.transactstoreIv
  }

  /** The record generate_key_material builds (encrypt.rb:25-39). */
  function Generated(secure: bool, f: FreshKeys): DraftKeyMaterial
  {
    if secure
    then DraftKeyMaterial(Some(f.catalogKey), Some(f.catalogIv), Some(f.transactstoreKey), Some(f.transactstoreIv))
    else EmptyHash
  }

  /** generate_key_material: builds the record and writes it to the file; the
      host private key is read first, so without it nothing is written. */
  function GenerateSpec(file: Option<DraftFile>, env: Env, f: FreshKeys): (Outcome<DraftKeyMaterial>, Option<DraftFile>)
  {
    var km := Generated(env.secureArtifacts, f);
    if !env.hostKeyPresent then (Fail(MissingHostKey), file)
    else (Ok(km), Some(Wrapped(km)))
  }

  /** read_key_material: nil when there is no file; otherwise the unwrapped
      record, or the exception unwrapping raises. */
  function ReadSpec(file: Option<DraftFile>, env: Env): (r: Outcome<Option<DraftKeyMaterial>>)
    ensures file.None? ==> r == Ok(None)
    ensures r.Ok? && r.value.Some? <==> file.Some? && file.value.Wrapped? && env.hostKeyPresent
    ensures r.Ok? && r.value.Some? ==> r.value.value == file.value.km
  {
    match file
    case None => Ok(None)
    case Some(Unreadable) => Fail(UnwrapFailed)
    case Some(Wrapped(k)) => if env.hostKeyPresent then Ok(Some(k)) else Fail(MissingHostKey)
  }

  /** The in-memory part of update_key_material (encrypt.rb:73-95): the new
      record and the update_km_file flag. */
  function Updated(km: DraftKeyMaterial, a: Artifact, delete: bool, p: FreshPair): (r: (DraftKeyMaterial, bool))
    ensures a == Unrecognised ==> r == (km, false)
    ensures a != Unrecognised && delete ==>
              KeyEntry(r.0, a).None? && IvEntry(r.0, a).None? && (r.1 <==> KeyEntry(km, a).Some?)
    ensures a != Unrecognised && !delete ==>
              KeyEntry(r.0, a) == Some(p.key) && IvEntry(r.0, a) == Some(p.iv) && (r.1 <==> KeyEntry(km, a).None?)
    ensures a == Catalog ==> r.0.transactstoreKey == km.transactstoreKey && r.0.transactstoreIv == km.transactstoreIv
    ensures a == TransactionStore ==> r.0.catalogKey == km.catalogKey && r.0.catalogIv == km.catalogIv
  {
    match a
    case Catalog =>
      if delete then (km.(catalogKey := None, catalogIv := None), km.catalogKey.Some?)
      else (km.(catalogKey := Some(p.key), catalogIv := Some(p.iv)), km.catalogKey.None?)
    case TransactionStore =>
      if delete then (km.(transactstoreKey := None, transactstoreIv := None), km.transactstoreKey.Some?)
      else (km.(transactstoreKey := Some(p.key), transactstoreIv := Some(p.iv)), km.transactstoreKey.None?)
    case Unrecognised => (km, false)
  }

  /** update_key_material AS WRITTEN (encrypt.rb:64-107): the rewrite at line
      102 dumps the undefined local `key_material`. File.open(km_file, 'w')
      has already truncated the file when the NameError is raised. */
  function UpdateAsWrittenSpec(file: Option<DraftFile>, env: Env, a: Artifact, delete: bool, p: FreshPair)
    : (r: (Outcome<DraftKeyMaterial>, Option<DraftFile>))
    ensures r.0.Ok? ==> r.1 == file
  {
    var read := ReadSpec(file, env);
    if read.Fail? then (Fail(read.error), file)
    else
      var km := if read.value.Some? then read.value.value else EmptyHash;
      var (km', rewrite) := Updated(km, a, delete, p);
      if !rewrite then (Ok(km'), file)
      else if !env.hostKeyPresent then (Fail(MissingHostKey), file)
      else (Fail(UndefinedLocal), Some(Unreadable))
  }

  /** update_key_material as evidently intended: the rewrite dumps `km`. */
  function UpdateSpec(file: Option<DraftFile>, env: Env, a: Artifact, delete: bool, p: FreshPair)
    : (r: (Outcome<DraftKeyMaterial>, Option<DraftFile>))
    ensures r.0.Fail? ==> r.1 == file
    ensures r.1 != file ==> r.0.Ok? && r.1 == Some(Wrapped(r.0.value))
  {
    var read := ReadSpec(file, env);
    if read.Fail? then (Fail(read.error), file)
    else
      var km := if read.value.Some? then read.value.value else EmptyHash;
      var (km', rewrite) := Updated(km, a, delete, p);
      if !rewrite then (Ok(km'), file)
      else if !env.hostKeyPresent then (Fail(MissingHostKey), file)
      else (Ok(km'), Some(Wrapped(km')))
  }

  /** Priming the cipher AS WRITTEN (encrypt.rb:153-160): for the transaction
      store the IV is set from `transactstore_key`. Indexing a nil record raises
      NoMethodError; assigning a nil key or IV raises TypeError. */
  function PrimeAsWritten(dir: Direction, km: Option<DraftKeyMaterial>, a: Artifact): (r: Outcome<CipherState>)
    ensures a == TransactionStore && r.Ok? ==>
              km.Some? && km.value.transactstoreKey.Some? &&
              r.value == Keyed(dir, km.value.transactstoreKey.value, km.value.transactstoreKey.value)
  {
    if a == Unrecognised then Ok(Unkeyed(dir))
    else if km.None? then Fail(NilKeyMaterial)
    else
      var key := KeyEntry(km.value, a);
      var iv := if a == Catalog then km.value.catalogIv else km.value.transactstoreKey;
      if key.None? || iv.None? then Fail(NilKey) else Ok(Keyed(dir, key.value, iv.value))
  }

  /** Priming the cipher as evidently intended: each artifact's own key/IV pair. */
  function Prime(dir: Direction, km: Option<DraftKeyMaterial>, a: Artifact): (r: Outcome<CipherState>)
    ensures a == Unrecognised ==> r == Ok(Unkeyed(dir))
    ensures a != Unrecognised ==>
              (r.Ok? <==> km.Some? && KeyEntry(km.value, a).Some? && IvEntry(km.value, a).Some?)
    ensures a != Unrecognised && r.Ok? ==>
              r.value == Keyed(dir, KeyEntry(km.value, a).value, IvEntry(km.value, a).value)
  {
    if a == Unrecognised then Ok(Unkeyed(dir))
    else if km.None? then Fail(NilKeyMaterial)
    else
      var key := KeyEntry(km.value, a);
      var iv := IvEntry(km.value, a);
      if key.None? || iv.None? then Fail(NilKey) else Ok(Keyed(dir, key.value, iv.value))
  }

  /** The IV get_cipher gives a recognised artifact's cipher: as written
      (line 158) the transaction store takes its key, corrected its own IV. */
  function IvUsed(asWritten: bool, km: DraftKeyMaterial, a: Artifact): Option<Bytes>
    requires a != Unrecognised
  {
    if asWritten && a == TransactionStore then KeyEntry(km, a) else IvEntry(km, a)
  }

  /** The priming of get_cipher: as written (line 158) or corrected. */
  function PrimeBy(asWritten: bool, dir: Direction, km: Option<DraftKeyMaterial>, a: Artifact): (r: Outcome<CipherState>)
    ensures a == Unrecognised ==> r == Ok(Unkeyed(dir))
    ensures a != Unrecognised ==>
              (r.Ok? <==> km.Some? && KeyEntry(km.value, a).Some? && IvUsed(asWritten, km.value, a).Some?)
    ensures a != Unrecognised && r.Ok? ==>
              r.value == Keyed(dir, KeyEntry(km.value, a).value, IvUsed(asWritten, km.value, a).value)
  {
    if asWritten then PrimeAsWritten(dir, km, a) else Prime(dir, km, a)
  }

  /** get_cipher (encrypt.rb:140-163), with the as-written or the corrected
      priming: generates (and writes) key material only for an encryption;
      never returns nil. */
  function GetCipherSpec(asWritten: bool, file: Option<DraftFile>, env: Env, toEnc: bool, a: Artifact, f: FreshKeys)
    : (r: (Outcome<CipherState>, Option<DraftFile>))
    ensures !toEnc ==> r.1 == file
    ensures r.0.Ok? ==> r.0.value.dir == DirectionOf(toEnc) && (r.0.value.Unkeyed? <==> a == Unrecognised)
    ensures r.0.Ok? && a != Unrecognised ==> r.1.Some? && r.1.value.Wrapped?
    ensures env.hostKeyPresent && file.Some? && file.value.Wrapped? ==>
              r == (PrimeBy(asWritten, DirectionOf(toEnc), Some(file.value.km), a), file)
  {
    var read := ReadSpec(file, env);
    if read.Fail? then (Fail(read.error), file)
    else if read.value.Some? || !toEnc then (PrimeBy(asWritten, DirectionOf(toEnc), read.value, a), file)
    else
      var (g, file1) := GenerateSpec(file, env, f);
      if g.Fail? then (Fail(g.error), file1)
      else (PrimeBy(asWritten, Encrypting, Some(g.value), a), file1)
  }

  /** encrypt (encrypt.rb:168-185): get_cipher never returns nil, so the cipher
      is always applied; it succeeds only for a recognised artifact, and then
      the result is the encryption under the pair in the key-material file. */
  function EncryptSpec(asWritten: bool, aes: BlockCipher, file: Option<DraftFile>, env: Env, m: Bytes, a: Artifact, f: FreshKeys)
    : (r: (Outcome<Bytes>, Option<DraftFile>))
    ensures r.0.Ok? ==>
              && a != Unrecognised && m != [] && r.1.Some? && r.1.value.Wrapped?
              && KeyEntry(r.1.value.km, a).Some? && IvUsed(asWritten, r.1.value.km, a).Some?
              && r.0.value == aes.enc(KeyEntry(r.1.value.km, a).value, IvUsed(asWritten, r.1.value.km, a).value, m)
  {
    var (c, file1) := GetCipherSpec(asWritten, file, env, true, a, f);
    if c.Fail? then (Fail(c.error), file1) else (Apply(aes, c.value, m), file1)
  }

  /** decrypt (encrypt.rb:190-205): succeeds only for a recognised artifact
      whose key material is in a readable file, and then it is the cipher
      applied with the pair in that file. */
  function DecryptSpec(asWritten: bool, aes: BlockCipher, file: Option<DraftFile>, env: Env, m: Bytes, a: Artifact)
    : (r: Outcome<Bytes>)
    ensures r.Ok? ==>
              && a != Unrecognised && file.Some? && file.value.Wrapped?
              && KeyEntry(file.value.km, a).Some? && IvUsed(asWritten, file.value.km, a).Some?
              && r == Apply(aes, Keyed(Decrypting, KeyEntry(file.value.km, a).value, IvUsed(asWritten, file.value.km, a).value), m)
  {
    var (c, _) := GetCipherSpec(asWritten, file, env, false, a, Undrawn);
    if c.Fail? then Fail(c.error) else Apply(aes, c.value, m)
  }

  // ---------------------------------------------------------------------
  // Properties
  // ---------------------------------------------------------------------

  /** generate_key_material gives fresh values to all four entries with
      secure_artifacts on and nil to all four otherwise, and writes the file. */
  lemma GenerateCases(file: Option<DraftFile>, env: Env, f: FreshKeys)
    requires env.hostKeyPresent
    ensures var (r, file') := GenerateSpec(file, env, f);
            && r.Ok?
            && file' == Some(Wrapped(r.value))
            && (env.secureArtifacts ==>
                  r.value == DraftKeyMaterial(Some(f.catalogKey), Some(f.catalogIv),
                                              Some(f.transactstoreKey), Some(f.transactstoreIv)))
            && (!env.secureArtifacts ==>
                  r.value.catalogKey.None? && r.value.catalogIv.None? &&
                  r.value.transactstoreKey.None? && r.value.transactstoreIv.None?)
  {
  }

  /** The as-written rewrite path: whenever update_key_material decides the
      file must be rewritten (and the host key is there), it raises and leaves
      the key-material file truncated. */
  lemma RewriteFailsAsWritten(file: Option<DraftFile>, env: Env, a: Artifact, delete: bool, p: FreshPair)
    requires env.hostKeyPresent
    requires ReadSpec(file, env).Ok?
    requires var read := ReadSpec(file, env);
             Updated(if read.value.Some? then read.value.value else EmptyHash, a, delete, p).1
    ensures UpdateAsWrittenSpec(file, env, a, delete, p) == (Fail(UndefinedLocal), Some(Unreadable))
  {
  }

  /** The concrete input: no key-material file yet, update the catalog keys. */
  lemma UpdateCatalogWithoutFileAsWritten(env: Env, p: FreshPair)
    requires env.hostKeyPresent
    ensures UpdateAsWrittenSpec(None, env, Catalog, false, p) == (Fail(UndefinedLocal), Some(Unreadable))
    ensures UpdateSpec(None, env, Catalog, false, p).0 == Ok(DraftKeyMaterial(Some(p.key), Some(p.iv), None, None))
  {
  }

  /** Corrected update_key_material: a missing file counts as an empty hash,
      only the named artifact's two entries change, an unrecognised artifact
      changes nothing, and the file is rewritten exactly when the key went from
      present to deleted or from nil to generated, after which reading the file
      gives back the updated record. */
  lemma UpdateCases(file: Option<DraftFile>, env: Env, a: Artifact, delete: bool, p: FreshPair)
    requires env.hostKeyPresent
    requires ReadSpec(file, env).Ok?
    ensures var read := ReadSpec(file, env);
            var km := if read.value.Some? then read.value.value else EmptyHash;
            var (r, file') := UpdateSpec(file, env, a, delete, p);
            && r.Ok?
            && (file.None? ==> km == EmptyHash)
            && (a == Unrecognised ==> r.value == km && file' == file)
            && (a != Unrecognised && delete ==>
                  KeyEntry(r.value, a).None? && IvEntry(r.value, a).None? &&
                  (file' != file <==> KeyEntry(km, a).Some?))
            && (a != Unrecognised && !delete ==>
                  KeyEntry(r.value, a) == Some(p.key) && IvEntry(r.value, a) == Some(p.iv) &&
                  (KeyEntry(km, a).None? ==> file' == Some(Wrapped(r.value))) &&
                  (KeyEntry(km, a).Some? ==> file' == file))
            && (file' != file ==> ReadSpec(file', env) == Ok(Some(r.value)))
  {
    var read := ReadSpec(file, env);
    var km := if read.value.Some? then read.value.value else EmptyHash;
    if a != Unrecognised && delete && KeyEntry(km, a).None? {
      assert UpdateSpec(file, env, a, delete, p).1 == file;
    }
  }

  /** The as-written defect: for the transaction store the cipher's IV is the
      key, not the stored IV. */
  lemma TransactionStoreIvAsWritten(dir: Direction, km: DraftKeyMaterial)
    requires km.transactstoreKey.Some? && km.transactstoreIv.Some?
    requires km.transactstoreKey != km.transactstoreIv
    ensures PrimeAsWritten(dir, Some(km), TransactionStore) == Ok(Keyed(dir, km.transactstoreKey.value, km.transactstoreKey.value))
    ensures Prime(dir, Some(km), TransactionStore) == Ok(Keyed(dir, km.transactstoreKey.value, km.transactstoreIv.value))
    ensures PrimeAsWritten(dir, Some(km), TransactionStore) != Prime(dir, Some(km), TransactionStore)
  {
  }

  /** get_cipher fabricates key material only for an encryption: a decryption
      without a file raises on the nil record (or, for an unrecognised
      artifact, on the keyless cipher), and never writes the file. */
  lemma GetCipherCases(asWritten: bool, aes: BlockCipher, file: Option<DraftFile>, env: Env, a: Artifact, f: FreshKeys, m: Bytes)
    ensures GetCipherSpec(asWritten, file, env, false, a, f).1 == file
    ensures file.None? && a != Unrecognised ==> GetCipherSpec(asWritten, file, env, false, a, f).0 == Fail(NilKeyMaterial)
    ensures file.None? ==> DecryptSpec(asWritten, aes, file, env, m, a).Fail?
    ensures file.None? && env.hostKeyPresent ==>
              GetCipherSpec(asWritten, file, env, true, a, f) ==
                (PrimeBy(asWritten, Encrypting, Some(Generated(env.secureArtifacts, f)), a),
                 Some(Wrapped(Generated(env.secureArtifacts, f))))
  {
  }

  /** The two ways encrypt fails where a pass-through might be expected: an
      unrecognised artifact leaves the cipher without a key, so OpenSSL raises,
      and with secure_artifacts off the first call writes a record of nils and
      then raises on the nil key. */
  lemma EncryptNeverPassesThrough(asWritten: bool, aes: BlockCipher, file: Option<DraftFile>, env: Env, m: Bytes, f: FreshKeys, a: Artifact)
    ensures EncryptSpec(asWritten, aes, file, env, m, Unrecognised, f).0.Fail?
    ensures file.None? && env.hostKeyPresent && !env.secureArtifacts && a != Unrecognised ==>
              EncryptSpec(asWritten, aes, file, env, m, a, f) == (Fail(NilKey), Some(Wrapped(EmptyHash)))
  {
  }

  /** Once the key-material file holds the artifact's pair, encrypt and decrypt
      apply the cipher with it whatever secure_artifacts says, and neither
      writes the file; encrypting empty data raises. */
  lemma CipherFromStoredPair(asWritten: bool, aes: BlockCipher, file: Option<DraftFile>, env: Env, m: Bytes, a: Artifact, f: FreshKeys)
    requires env.hostKeyPresent && a != Unrecognised
    requires file.Some? && file.value.Wrapped?
    requires KeyEntry(file.value.km, a).Some? && IvUsed(asWritten, file.value.km, a).Some?
    ensures var key := KeyEntry(file.value.km, a).value;
            var iv := IvUsed(asWritten, file.value.km, a).value;
            && EncryptSpec(asWritten, aes, file, env, m, a, f) ==
                 (if m == [] then Fail(EmptyData) else Ok(aes.enc(key, iv, m)), file)
            && DecryptSpec(asWritten, aes, file, env, m, a) == Apply(aes, Keyed(Decrypting, key, iv), m)
  {
  }

  /** Corrected priming, secure_artifacts on: encrypt applies the artifact's
      own key/IV pair (the first call generates and writes them), and decrypt
      then gives the plaintext back; empty data raises once the pair is on file. */
  lemma EncryptRoundTrip(aes: BlockCipher, file: Option<DraftFile>, env: Env, m: Bytes, a: Artifact, f: FreshKeys)
    requires Inverts(aes)
    requires env.hostKeyPresent && env.secureArtifacts && a != Unrecognised
    requires file.None? || (file.value.Wrapped? && KeyEntry(file.value.km, a).Some? && IvEntry(file.value.km, a).Some?)
    ensures var (c, file') := EncryptSpec(false, aes, file, env, m, a, f);
            && file'.Some? && file'.value.Wrapped?
            && var km := file'.value.km;
            && c == (if m == [] then Fail(EmptyData) else Ok(aes.enc(KeyEntry(km, a).value, IvEntry(km, a).value, m)))
            && (m != [] ==> DecryptSpec(false, aes, file', env, c.value, a) == Ok(m))
  {
    var (c, file') := EncryptSpec(false, aes, file, env, m, a, f);
    var km := file'.value.km;
    ApplyRoundTrip(aes, KeyEntry(km, a).value, IvEntry(km, a).value, m);
  }

  /** As written, encrypt and decrypt share the wrong transaction-store IV, so
      the round trip still holds: the transaction store is encrypted under the
      pair (key, key), the catalog under its own key and IV; empty data raises. */
  lemma EncryptRoundTripAsWritten(aes: BlockCipher, file: Option<DraftFile>, env: Env, m: Bytes, a: Artifact, f: FreshKeys)
    requires Inverts(aes)
    requires env.hostKeyPresent && env.secureArtifacts && a != Unrecognised
    requires file.None? ||
             (file.value.Wrapped? && KeyEntry(file.value.km, a).Some? && (a == Catalog ==> IvEntry(file.value.km, a).Some?))
    ensures var (c, file') := EncryptSpec(true, aes, file, env, m, a, f);
            && file'.Some? && file'.value.Wrapped?
            && var km := file'.value.km;
            && var iv := if a == Catalog then IvEntry(km, a) else KeyEntry(km, a);
            && iv.Some?
            && c == (if m == [] then Fail(EmptyData) else Ok(aes.enc(KeyEntry(km, a).value, iv.value, m)))
            && (m != [] ==> DecryptSpec(true, aes, file', env, c.value, a) == Ok(m))
  {
    var (c, file') := EncryptSpec(true, aes, file, env, m, a, f);
    var km := file'.value.km;
    var iv := if a == Catalog then IvEntry(km, a) else KeyEntry(km, a);
    ApplyRoundTrip(aes, KeyEntry(km, a).value, iv.value, m);
  }

  /** Holds the key-material file; generate_key_material and
      update_key_material build the record step by step and write it. */
  class KeyFile {
    var file: Option<DraftFile>

    constructor (file: Option<DraftFile>)
      ensures this.file == file
    {
      this.file := file;
    }

    method GenerateKeyMaterial(env: Env, f: FreshKeys) returns (r: Outcome<DraftKeyMaterial>)
      modifies this
      ensures (r, file) == GenerateSpec(old(file), env, f)
    {
      var keyMaterial := EmptyHash;
      if env.secureArtifacts {
        keyMaterial := keyMaterial.(catalogKey := Some(f.catalogKey));
        keyMaterial := keyMaterial.(catalogIv := Some(f.catalogIv));
        keyMaterial := keyMaterial.(transactstoreKey := Some(f.transactstoreKey));
        keyMaterial := keyMaterial.(transactstoreIv := Some(f.transactstoreIv));
      }
      if !env.hostKeyPresent {
        return Fail(MissingHostKey);
      }
      file := Some(Wrapped(keyMaterial));
      r := Ok(keyMaterial);
    }

    /** The corrected update_key_material. */
    method UpdateKeyMaterial(env: Env, artifact: int, delete: bool, p: FreshPair) returns (r: Outcome<DraftKeyMaterial>)
      modifies this
      ensures (r, file) == UpdateSpec(old(file), env, ArtifactOf(artifact), delete, p)
    {
      var updateKmFile := false;
      var read := ReadSpec(file, env);
      if read.Fail? {
        return Fail(read.error);
      }
      var km := if read.value.Some? then read.value.value else EmptyHash;
      if artifact == CatalogCode {
        if delete {
          updateKmFile := km.catalogKey.Some?;
          km := km.(catalogKey := None);
          km := km.(catalogIv := None);
        } else {
          updateKmFile := km.catalogKey.None?;
          km := km.(catalogKey := Some(p.key));
          km := km.(catalogIv := Some(p.iv));
        }
      } else if artifact == TransactionStoreCode {
        if delete {
          updateKmFile := km.transactstoreKey.Some?;
          km := km.(transactstoreKey := None);
          km := km.(transactstoreIv := None);
        } else {
          updateKmFile := km.transactstoreKey.None?;
          km := km.(transactstoreKey := Some(p.key));
          km := km.(transactstoreIv := Some(p.iv));
        }
      }
      if updateKmFile {
        if !env.hostKeyPresent {
          return Fail(MissingHostKey);
        }
        file := Some(Wrapped(km));
      }
      r := Ok(km);
    }
  }
}
