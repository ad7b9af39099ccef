/** The class Puppet::Util::Encrypt of lib/puppet/util/better_encrypt.rb: a
    process-wide key-material record (@@km) cached in memory and persisted,
    wrapped under the host key, in the key-material file; `encrypt` and
    `decrypt` of artifacts keyed by artifact kind.

    The pure `*Spec` functions over a `Keystore` value are the model of each
    Ruby method; the class `Encrypt` holds the same state in mutable fields and
    its methods, written step by step like the Ruby, are proved equal to them.
    The lemmas at the end state what the Ruby promises about these operations. */
module BetterEncrypt {
  import opened Crypto

  /** The @@km hash. */
  datatype KeyMaterial = KeyMaterial(
    catalogKey: Bytes, catalogIv: Bytes, catalogEncrypted: bool,
    transactstoreKey: Bytes, transactstoreIv: Bytes, transactstoreEncrypted: bool,
    needsToBePersisted: bool)

  /** Contents of the key-material file: a record wrapped under the host's public
      key, or bytes that Marshal.load / private_decrypt cannot turn back into one
      (a corrupt file, or one wrapped under another host key). */
  datatype KmFile = Wrapped(km: KeyMaterial) | Unreadable

  /** The class state: @@km, the key-material file (None when absent) and the
      number of times save_key_material has written the file. */
  datatype Keystore = Keystore(km: Option<KeyMaterial>, file: Option<KmFile>, saves: nat)

  /** generate_key_material: fresh keys and IVs, both artifacts marked as not
      encrypted, and the record marked as needing to be persisted. */
  function Generated(f: FreshKeys): (k: KeyMaterial)
    ensures !k.catalogEncrypted && !k.transactstoreEncrypted && k.needsToBePersisted
    ensures k.catalogKey == f.catalogKey && k.catalogIv == f.catalogIv
    ensures k.transactstoreKey == f.transactstoreKey && k.transactstoreIv == f.transactstoreIv
  {
    KeyMaterial(f.catalogKey, f.catalogIv, false, f.transactstoreKey, f.transactstoreIv, false, true)
  }

  function KeyOf(k: KeyMaterial, a: Artifact): Bytes
    requires a != Unrecognised
  {
    if a == Catalog then k.catalogKey else k.transactstoreKey
  }

  function IvOf(k: KeyMaterial, a: Artifact): Bytes
    requires a != Unrecognised
  {
    if a == Catalog then k.catalogIv else k.transactstoreIv
  }

  /** The `*_encrypted` flag of a recognised artifact. */
  function EncryptedFlag(k: KeyMaterial, a: Artifact): bool
    requires a != Unrecognised
  {
    if a == Catalog then k.catalogEncrypted else k.transactstoreEncrypted
  }

  /** The other recognised artifact. */
  function OtherArtifact(a: Artifact): Artifact
    requires a != Unrecognised
  {
    if a == Catalog then TransactionStore else Catalog
  }

  /** `@@km["<artifact>_encrypted"] = b`; an unrecognised artifact has no flag. */
  function WithFlag(k: KeyMaterial, a: Artifact, b: bool): (k': KeyMaterial)
    ensures a != Unrecognised ==> EncryptedFlag(k', a) == b
    ensures a != Unrecognised ==> EncryptedFlag(k', OtherArtifact(a)) == EncryptedFlag(k, OtherArtifact(a))
    ensures a == Unrecognised ==> k' == k
    ensures k'.catalogKey == k.catalogKey && k'.catalogIv == k.catalogIv
    ensures k'.transactstoreKey == k.transactstoreKey && k'.transactstoreIv == k.transactstoreIv
    ensures k'.needsToBePersisted == k.needsToBePersisted
  {
    match a
    case Catalog => k.(catalogEncrypted := b)
    case TransactionStore => k.(transactstoreEncrypted := b)
    case Unrecognised => k
  }

  /** The cipher primed with the key/IV pair of the artifact; an unrecognised
      artifact leaves the cipher without a key (better_encrypt.rb:141-148). */
  function Prime(dir: Direction, k: KeyMaterial, a: Artifact): (c: CipherState)
    ensures a == Unrecognised <==> c.Unkeyed?
    ensures c.dir == dir
    ensures a != Unrecognised ==> c == Keyed(dir, KeyOf(k, a), IvOf(k, a))
  {
    match a
    case Catalog => Keyed(dir, k.catalogKey, k.catalogIv)
    case TransactionStore => Keyed(dir, k.transactstoreKey, k.transactstoreIv)
    case Unrecognised => Unkeyed(dir)
  }

  /** The file holds key material this process can unwrap, or is absent. */
  predicate Readable(s: Keystore)
  {
    s.file.None? || s.file.value.Wrapped?
  }

  /** The in-memory record is the one in the file. */
  predicate Synced(s: Keystore)
  {
    s.file.Some? && s.file.value.Wrapped? && s.km == Some(s.file.value.km)
  }

  /** The key material an encryption works with: the one in the file, or, when
      there is no file, the freshly generated one. */
  function Effective(s: Keystore, f: FreshKeys): KeyMaterial
    requires Readable(s)
  {
    if s.file.Some? then s.file.value.km else Generated(f)
  }

  /** read_key_material: no file gives nil and leaves @@km alone; otherwise the
      file is unwrapped into @@km, or the unwrapping raises. */
  function ReadSpec(s: Keystore): (Outcome<Option<KeyMaterial>>, Keystore)
  {
    match s.file
    case None => (Ok(None), s)
    case Some(Unreadable) => (Fail(UnwrapFailed), s)
    case Some(Wrapped(k)) => (Ok(Some(k)), s.(km := Some(k)))
  }

  /** save_key_material: writes @@km, when there is one, to the file. */
  function SaveSpec(s: Keystore): Keystore
  {
    if s.km.Some? then s.(file := Some(Wrapped(s.km.value)), saves := s.saves + 1) else s
  }

  /** get_cipher: re-reads the file; with no file, generates key material for
      an encryption and gives nil for a decryption; otherwise a cipher primed
      from @@km for the artifact. */
  function GetCipherSpec(s: Keystore, toEnc: bool, a: Artifact, f: FreshKeys)
    : (r: (Outcome<Option<CipherState>>, Keystore))
    ensures r.0.Ok? && r.0.value.Some? ==>
              r.1.km.Some? && r.0.value.value == Prime(DirectionOf(toEnc), r.1.km.value, a)
    ensures toEnc && r.0.Ok? ==> r.0.value.Some?
  {
    var (read, s1) := ReadSpec(s);
    if read.Fail? then (Fail(read.error), s1)
    else if read.value.None? then
      if toEnc then
        var s2 := s1.(km := Some(Generated(f)));
        (Ok(Some(Prime(Encrypting, Generated(f), a))), s2)
      else (Ok(None), s1)
    else (Ok(Some(Prime(DirectionOf(toEnc), read.value.value, a))), s1)
  }

  /** encrypt (better_encrypt.rb:156-221). */
  function EncryptSpec(aes: BlockCipher, s: Keystore, env: Env, m: Bytes, a: Artifact, f: FreshKeys)
    : (Outcome<Bytes>, Keystore)
  {
    if !env.hostKeyPresent then (Ok(m), s)
    else
      var (c, s1) := GetCipherSpec(s, true, a, f);
      if c.Fail? then (Fail(c.error), s1)
      else
        var k := s1.km.value;
        var need := k.needsToBePersisted;
        if env.secureArtifacts && c.value.Some? then
          var transition := a != Unrecognised && !EncryptedFlag(k, a);
          var s2 := s1.(km := Some(WithFlag(k, a, true)));
          var out := Apply(aes, c.value.value, m);
          if out.Fail? then (out, s2)
          else (out, if need || transition then SaveSpec(s2) else s2)
        else
          var transition := a != Unrecognised && EncryptedFlag(k, a);
          var s2 := s1.(km := Some(WithFlag(k, a, false)));
          (Ok(m), if need || transition then SaveSpec(s2) else s2)
  }

  /** decrypt (better_encrypt.rb:226-276): decided by the stored flag alone. */
  function DecryptSpec(aes: BlockCipher, s: Keystore, env: Env, m: Bytes, a: Artifact)
    : (Outcome<Bytes>, Keystore)
  {
    if !env.hostKeyPresent then (Ok(m), s)
    else
      var (c, s1) := GetCipherSpec(s, false, a, Undrawn);
      if c.Fail? then (Fail(c.error), s1)
      else if c.value.None? then (Ok(m), s1)
      else if a != Unrecognised && EncryptedFlag(s1.km.value, a) then (Apply(aes, c.value.value, m), s1)
      else (Ok(m), s1)
  }

  // ---------------------------------------------------------------------
  // What the Ruby promises about get_cipher, encrypt and decrypt
  // ---------------------------------------------------------------------

  /** Without the host private key file, encrypt returns its input and reads,
      generates and saves no key material. */
  lemma EncryptWithoutHostKey(aes: BlockCipher, s: Keystore, env: Env, m: Bytes, a: Artifact, f: FreshKeys)
    requires !env.hostKeyPresent
    ensures EncryptSpec(aes, s, env, m, a, f) == (Ok(m), s)
  {
  }

  /** Without the host private key file, decrypt returns its input and reads
      no key material. */
  lemma DecryptWithoutHostKey(aes: BlockCipher, s: Keystore, env: Env, m: Bytes, a: Artifact)
    requires !env.hostKeyPresent
    ensures DecryptSpec(aes, s, env, m, a) == (Ok(m), s)
  {
  }

  /** get_cipher re-reads the file on every call (whatever @@km holds), never
      fabricates key material for a decryption, generates it (without writing
      the file) for an encryption, and primes the cipher with the requested
      artifact's key/IV pair. */
  lemma GetCipherCases(s: Keystore, toEnc: bool, a: Artifact, f: FreshKeys)
    ensures s.file == Some(Unreadable) ==> GetCipherSpec(s, toEnc, a, f) == (Fail(UnwrapFailed), s)
    ensures s.file.Some? && s.file.value.Wrapped? ==>
              var k := s.file.value.km;
              GetCipherSpec(s, toEnc, a, f) == (Ok(Some(Prime(DirectionOf(toEnc), k, a))), s.(km := Some(k)))
    ensures s.file.None? && !toEnc ==> GetCipherSpec(s, toEnc, a, f) == (Ok(None), s)
    ensures s.file.None? && toEnc ==>
              GetCipherSpec(s, toEnc, a, f) == (Ok(Some(Prime(Encrypting, Generated(f), a))), s.(km := Some(Generated(f))))
  {
  }

  /** With secure_artifacts on, encrypt returns the cipher applied to the input
      under the artifact's own key/IV pair, the artifact's flag ends true and
      the other artifact's flag, the keys and the IVs are unchanged. Empty input
      makes OpenSSL raise after the flag is set in @@km but before the save, so
      the file keeps its old record. */
  lemma EncryptSecureOn(aes: BlockCipher, s: Keystore, env: Env, m: Bytes, a: Artifact, f: FreshKeys)
    requires env.hostKeyPresent && env.secureArtifacts && Readable(s) && a != Unrecognised
    ensures var k0 := Effective(s, f);
            var r := EncryptSpec(aes, s, env, m, a, f);
            && r.0 == (if m == [] then Fail(EmptyData) else Ok(aes.enc(KeyOf(k0, a), IvOf(k0, a), m)))
            && (m == [] ==> r.1.file == s.file && r.1.saves == s.saves)
            && r.1.km.Some?
            && EncryptedFlag(r.1.km.value, a)
            && EncryptedFlag(r.1.km.value, OtherArtifact(a)) == EncryptedFlag(k0, OtherArtifact(a))
            && r.1.km.value == WithFlag(k0, a, true)
  {
  }

  /** With secure_artifacts on and an unrecognised artifact, the cipher has no
      key and OpenSSL raises before anything is saved. */
  lemma EncryptUnrecognisedSecureFails(aes: BlockCipher, s: Keystore, env: Env, m: Bytes, f: FreshKeys)
    requires env.hostKeyPresent && env.secureArtifacts && Readable(s)
    ensures var r := EncryptSpec(aes, s, env, m, Unrecognised, f);
            r.0 == Fail(KeyNotSet) && r.1.file == s.file && r.1.saves == s.saves
  {
  }

  /** With secure_artifacts off, encrypt returns the input unchanged, the
      artifact's flag ends false and nothing else in the record changes. */
  lemma EncryptSecureOff(aes: BlockCipher, s: Keystore, env: Env, m: Bytes, a: Artifact, f: FreshKeys)
    requires env.hostKeyPresent && !env.secureArtifacts && Readable(s)
    ensures var k0 := Effective(s, f);
            var r := EncryptSpec(aes, s, env, m, a, f);
            && r.0 == Ok(m)
            && r.1.km == Some(WithFlag(k0, a, false))
            && (a != Unrecognised ==> !EncryptedFlag(r.1.km.value, a))
            && (a != Unrecognised ==>
                  EncryptedFlag(r.1.km.value, OtherArtifact(a)) == EncryptedFlag(k0, OtherArtifact(a)))
  {
  }

  /** A successful encrypt writes the key-material file exactly when the record
      asks to be persisted or the artifact's flag changed, and afterwards the
      file holds exactly the in-memory record. */
  lemma EncryptSavesWhen(aes: BlockCipher, s: Keystore, env: Env, m: Bytes, a: Artifact, f: FreshKeys)
    requires env.hostKeyPresent && Readable(s)
    requires EncryptSpec(aes, s, env, m, a, f).0.Ok?
    ensures var k0 := Effective(s, f);
            var r := EncryptSpec(aes, s, env, m, a, f);
            var transition := a != Unrecognised && EncryptedFlag(k0, a) != env.secureArtifacts;
            && (r.1.saves == s.saves + 1 <==> k0.needsToBePersisted || transition)
            && (r.1.saves == s.saves || r.1.saves == s.saves + 1)
            && Synced(r.1)
  {
    var k0 := Effective(s, f);
    if s.file.None? {
      assert k0.needsToBePersisted;
    }
  }

  /** A sequence of encrypt calls threaded through the class state. */
  datatype EncryptCall = EncryptCall(env: Env, m: Bytes, a: Artifact, f: FreshKeys)

  function EncryptRun(aes: BlockCipher, s: Keystore, calls: seq<EncryptCall>): Keystore
    decreases |calls|
  {
    if calls == [] then s
    else
      var c := calls[0];
      EncryptRun(aes, EncryptSpec(aes, s, c.env, c.m, c.a, c.f).1, calls[1..])
  }

  /** No file yet, or a file whose record asks to be persisted. */
  predicate PersistFlagOnDisk(s: Keystore)
  {
    s.file.None? || (s.file.value.Wrapped? && s.file.value.km.needsToBePersisted)
  }

  /** A call that gets as far as the save: it does not hand empty data to an
      encrypting cipher. */
  predicate ReachesSave(c: EncryptCall)
  {
    !(c.env.secureArtifacts && c.m == [])
  }

  /** How many calls of a run reach the save. */
  function SavingCalls(calls: seq<EncryptCall>): (n: nat)
    ensures n <= |calls|
    ensures n == |calls| <==> forall i :: 0 <= i < |calls| ==> ReachesSave(calls[i])
    decreases |calls|
  {
    if calls == [] then 0
    else
      var rest := SavingCalls(calls[1..]);
      assert forall i :: 1 <= i < |calls| ==> calls[i] == calls[1..][i - 1];
      (if ReachesSave(calls[0]) then 1 else 0) + rest
  }

  /** needs_to_be_persisted is set on generation and never cleared, so once
      key material exists every later encrypt call (with the host key present
      and a recognised artifact) writes the key-material file again, unless
      OpenSSL raises on empty data first. */
  lemma {:induction false} PersistedForever(aes: BlockCipher, s: Keystore, calls: seq<EncryptCall>)
    requires PersistFlagOnDisk(s)
    requires forall i :: 0 <= i < |calls| ==> calls[i].env.hostKeyPresent && calls[i].a != Unrecognised
    ensures EncryptRun(aes, s, calls).saves == s.saves + SavingCalls(calls)
    ensures PersistFlagOnDisk(EncryptRun(aes, s, calls))
    decreases |calls|
  {
    if calls != [] {
      var c := calls[0];
      var s1 := EncryptSpec(aes, s, c.env, c.m, c.a, c.f).1;
      var k0 := Effective(s, c.f);
      assert k0.needsToBePersisted;
      if ReachesSave(c) {
        assert s1.saves == s.saves + 1 && Synced(s1) && s1.km.value.needsToBePersisted;
      } else {
        EncryptSecureOn(aes, s, c.env, c.m, c.a, c.f);
      }
      PersistedForever(aes, s1, calls[1..]);
    }
  }

  /** decrypt never writes the key-material file and never changes a flag: at
      most it reloads @@km from the file, and when memory and file agree it
      changes nothing at all. */
  lemma DecryptReadOnly(aes: BlockCipher, s: Keystore, env: Env, m: Bytes, a: Artifact)
    ensures var r := DecryptSpec(aes, s, env, m, a);
            && r.1.file == s.file
            && r.1.saves == s.saves
            && (r.1.km == s.km || (s.file.Some? && s.file.value.Wrapped? && r.1.km == Some(s.file.value.km)))
            && (Synced(s) ==> r.1 == s)
  {
  }

  /** decrypt decides from the persisted flag of the requested artifact, never
      from the live secure_artifacts setting; an unrecognised artifact, or no
      key-material file, gives the input back. */
  lemma DecryptByStoredFlag(aes: BlockCipher, s: Keystore, env: Env, m: Bytes, a: Artifact)
    requires env.hostKeyPresent
    ensures s.file.None? ==> DecryptSpec(aes, s, env, m, a) == (Ok(m), s)
    ensures s.file.Some? && s.file.value.Wrapped? ==>
              var k := s.file.value.km;
              DecryptSpec(aes, s, env, m, a).0 ==
                if a != Unrecognised && EncryptedFlag(k, a)
                then Apply(aes, Keyed(Decrypting, KeyOf(k, a), IvOf(k, a)), m)
                else Ok(m)
  {
  }

  /** What encrypt wrote with secure_artifacts on, decrypt gives back, even
      after secure_artifacts has been turned off. */
  lemma RoundTrip(aes: BlockCipher, s: Keystore, env: Env, later: Env, m: Bytes, a: Artifact, f: FreshKeys)
    requires Inverts(aes)
    requires env.hostKeyPresent && env.secureArtifacts && a != Unrecognised
    requires later.hostKeyPresent
    requires EncryptSpec(aes, s, env, m, a, f).0.Ok?
    ensures var (c, s1) := EncryptSpec(aes, s, env, m, a, f);
            DecryptSpec(aes, s1, later, c.value, a) == (Ok(m), s1)
  {
    var (c, s1) := EncryptSpec(aes, s, env, m, a, f);
    EncryptSecureOn(aes, s, env, m, a, f);
    EncryptSavesWhen(aes, s, env, m, a, f);
    var k := s1.km.value;
    DecryptByStoredFlag(aes, s1, later, c.value, a);
    ApplyRoundTrip(aes, KeyOf(k, a), IvOf(k, a), m);
    DecryptReadOnly(aes, s1, later, c.value, a);
  }

  /** With the setting unchanged, on or off, encrypting what decrypt recovered
      from a ciphertext reproduces that ciphertext. */
  lemma EncryptStable(aes: BlockCipher, s: Keystore, env: Env, m: Bytes, a: Artifact, f: FreshKeys, f2: FreshKeys)
    requires Inverts(aes)
    requires env.hostKeyPresent && a != Unrecognised
    requires EncryptSpec(aes, s, env, m, a, f).0.Ok?
    ensures var (c, s1) := EncryptSpec(aes, s, env, m, a, f);
            var (p, s2) := DecryptSpec(aes, s1, env, c.value, a);
            p == Ok(m) && EncryptSpec(aes, s2, env, p.value, a, f2).0 == c
  {
    var (c, s1) := EncryptSpec(aes, s, env, m, a, f);
    if env.secureArtifacts {
      RoundTrip(aes, s, env, env, m, a, f);
      EncryptSecureOn(aes, s, env, m, a, f);
      EncryptSavesWhen(aes, s, env, m, a, f);
      EncryptSecureOn(aes, s1, env, m, a, f2);
    } else {
      EncryptSecureOff(aes, s, env, m, a, f);
      EncryptSavesWhen(aes, s, env, m, a, f);
    }
  }

  class Encrypt {
    var km: Option<KeyMaterial>   // @@km
    var kmFile: Option<KmFile>    // the file at Puppet[:enckeymaterialfile]
    var saves: nat                // writes of that file so far
    const aes: BlockCipher

    function State(): Keystore
      reads this
    {
      Keystore(km, kmFile, saves)
    }

    constructor (aes: BlockCipher, kmFile: Option<KmFile>)
      ensures State() == Keystore(None, kmFile, 0) && this.aes == aes
    {
      this.aes := aes;
      this.km := None;
      this.kmFile := kmFile;
      this.saves := 0;
    }

    method GenerateKeyMaterial(f: FreshKeys)
      modifies this
      ensures State() == old(State()).(km := Some(Generated(f)))
    {
      km := Some(Generated(f));
    }

    method SaveKeyMaterial()
      modifies this
      ensures State() == SaveSpec(old(State()))
    {
      if km.Some? {
        kmFile := Some(Wrapped(km.value));
        saves := saves + 1;
      }
    }

    method ReadKeyMaterial() returns (r: Outcome<Option<KeyMaterial>>)
      modifies this
      ensures (r, State()) == ReadSpec(old(State()))
    {
      if kmFile.None? {
        return Ok(None);
      }
      match kmFile.value
      case Unreadable =>
        return Fail(UnwrapFailed);
      case Wrapped(k) =>
        km := Some(k);
        return Ok(km);
    }

    method GetCipher(toEnc: bool, artifact: int, f: FreshKeys) returns (r: Outcome<Option<CipherState>>)
      modifies this
      ensures (r, State()) == GetCipherSpec(old(State()), toEnc, ArtifactOf(artifact), f)
    {
      var found := ReadKeyMaterial();
      if found.Fail? {
        return Fail(found.error);
      }
      if found.value.None? {
        if toEnc {
          GenerateKeyMaterial(f);
        } else {
          return Ok(None);
        }
      }
      r := Ok(Some(Prime(DirectionOf(toEnc), km.value, ArtifactOf(artifact))));
    }

    method Encrypt(toEncrypt: Bytes, artifact: int, env: Env, f: FreshKeys) returns (r: Outcome<Bytes>)
      modifies this
      ensures (r, State()) == EncryptSpec(aes, old(State()), env, toEncrypt, ArtifactOf(artifact), f)
    {
      if !env.hostKeyPresent {
        return Ok(toEncrypt);
      }
      var needToUpdate := false;
      var encCipher := GetCipher(true, artifact, f);
      if encCipher.Fail? {
        return Fail(encCipher.error);
      }
      needToUpdate := km.value.needsToBePersisted;
      var encData: Bytes;
      if env.secureArtifacts && encCipher.value.Some? {
        if artifact == CatalogCode {
          if !km.value.catalogEncrypted {
            km := Some(km.value.(catalogEncrypted := true));
            needToUpdate := true;
          }
        } else if artifact == TransactionStoreCode {
          if !km.value.transactstoreEncrypted {
            km := Some(km.value.(transactstoreEncrypted := true));
            needToUpdate := true;
          }
        }
        var applied := Apply(aes, encCipher.value.value, toEncrypt);
        if applied.Fail? {
          return applied;
        }
        encData := applied.value;
      } else {
        if artifact == CatalogCode {
          if km.value.catalogEncrypted {
            km := Some(km.value.(catalogEncrypted := false));
            needToUpdate := true;
          }
        } else if artifact == TransactionStoreCode {
          if km.value.transactstoreEncrypted {
            km := Some(km.value.(transactstoreEncrypted := false));
            needToUpdate := true;
          }
        }
        encData := toEncrypt;
      }
      if needToUpdate {
        SaveKeyMaterial();
      }
      r := Ok(encData);
    }

    method Decrypt(toDecrypt: Bytes, artifact: int, env: Env) returns (r: Outcome<Bytes>)
      modifies this
      ensures (r, State()) == DecryptSpec(aes, old(State()), env, toDecrypt, ArtifactOf(artifact))
      ensures kmFile == old(kmFile) && saves == old(saves)
    {
      if !env.hostKeyPresent {
        return Ok(toDecrypt);
      }
      var decCipher := GetCipher(false, artifact, Undrawn);
      if decCipher.Fail? {
        return Fail(decCipher.error);
      }
      if env.secureArtifacts && decCipher.value.None? {
        return Ok(toDecrypt);
      }
      if decCipher.value.Some? {
        if artifact == CatalogCode {
          r := if km.value.catalogEncrypted then Apply(aes, decCipher.value.value, toDecrypt) else Ok(toDecrypt);
        } else if artifact == TransactionStoreCode {
          r := if km.value.transactstoreEncrypted then Apply(aes, decCipher.value.value, toDecrypt) else Ok(toDecrypt);
        } else {
          r := Ok(toDecrypt);
        }
      } else {
        r := Ok(toDecrypt);
      }
    }
  }
}
