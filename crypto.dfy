/** Shared vocabulary of both versions of Puppet::Util::Encrypt: byte strings,
    the artifact enumeration, the abstract block cipher that stands for
    OpenSSL's AES-128-CBC, a cipher object primed (or not) with a key/IV pair,
    and the failures the Ruby code raises. */
module Crypto {

  type Bytes = seq<bv8>

  datatype Option<+T> = None | Some(value: T)

  /** The exceptions the modelled code lets escape (or, for YamlLoadError, rescues). */
  datatype Failure =
    | UnwrapFailed       // key-material file present but cannot be unwrapped
    | MissingHostKey     // File.read of the host private key raised ENOENT
    | KeyNotSet          // OpenSSL::Cipher#update on a cipher that was never given a key
    | EmptyData          // OpenSSL::Cipher#update("") (ArgumentError "data must not be empty")
    | BadDecrypt         // OpenSSL::Cipher#final rejected the padding
    | NilKeyMaterial     // nil['catalog_key'] (NoMethodError)
    | NilKey             // cipher.key = nil (TypeError)
    | UndefinedLocal     // NameError for an undefined local variable
    | MarshalLoadFailed  // Marshal.load raised (TypeError/ArgumentError)
    | RenameFailed       // Puppet::Error raised when the .bad rename failed
    | UndefinedMethod    // NoMethodError, e.g. false['x']
    | WrongArgumentType  // TypeError, e.g. 1['x']

  datatype Outcome<+T> = Ok(value: T) | Fail(error: Failure) {
    predicate IsFailure() { Fail? }

    function PropagateFailure<U>(): Outcome<U>
      requires Fail?
    {
      Fail(error)
    }

    function Extract(): T
      requires Ok?
    {
      value
    }
  }

  /** Puppet::Util::Artifacts::CATALOG and ::TRANSACTIONSTORE. */
  const CatalogCode := 1
  const TransactionStoreCode := 2

  /** The artifact a code names; any other value passed by a caller is
      Unrecognised. */
  datatype Artifact = Catalog | TransactionStore | Unrecognised

  function ArtifactOf(code: int): (a: Artifact)
    ensures a == Catalog <==> code == CatalogCode
    ensures a == TransactionStore <==> code == TransactionStoreCode
  {
    if code == CatalogCode then Catalog else if code == TransactionStoreCode then TransactionStore else Unrecognised
  }

  /** The settings a call consults: does the host private key file
      (Puppet[:hostprivkey]) exist, and the value of Puppet[:secure_artifacts]. */
  datatype Env = Env(hostKeyPresent: bool, secureArtifacts: bool)

  function DirectionOf(toEnc: bool): Direction
  {
    if toEnc then Encrypting else Decrypting
  }

  /** The random draws `cipher.random_key` / `cipher.random_iv` of one call. */
  datatype FreshKeys = FreshKeys(catalogKey: Bytes, catalogIv: Bytes,
                                 transactstoreKey: Bytes, transactstoreIv: Bytes)

  /** Random draws for a call that cannot generate key material (decryption). */
  const Undrawn := FreshKeys([], [], [], [])

  /** AES-128-CBC with PKCS padding as seen by the Ruby code: `enc` gives the
      ciphertext of a non-empty input, `dec` may fail with "bad decrypt". (The
      binding refuses empty input before either is reached: see `Apply`.) */
  datatype BlockCipher = BlockCipher(enc: (Bytes, Bytes, Bytes) -> Bytes,
                                     dec: (Bytes, Bytes, Bytes) -> Option<Bytes>)

  /** The one property of the real cipher the model relies on: a ciphertext is
      never empty (PKCS padding adds at least one byte), and decrypting with the
      key and IV used to encrypt gives the plaintext back. */
  ghost predicate Inverts(aes: BlockCipher)
  {
    forall key, iv, m :: aes.enc(key, iv, m) != [] && aes.dec(key, iv, aes.enc(key, iv, m)) == Some(m)
  }

  datatype Direction = Encrypting | Decrypting

  /** An OpenSSL::Cipher after `encrypt`/`decrypt` and, possibly, `key=`/`iv=`. */
  datatype CipherState = Unkeyed(dir: Direction) | Keyed(dir: Direction, key: Bytes, iv: Bytes)

  /** `cipher.update(data) + cipher.final`. `update` first checks that a key was
      set, then refuses empty data, in either direction. */
  function Apply(aes: BlockCipher, c: CipherState, data: Bytes): (r: Outcome<Bytes>)
    ensures c.Unkeyed? ==> r == Fail(KeyNotSet)
    ensures c.Keyed? && data == [] ==> r == Fail(EmptyData)
    ensures c.Keyed? && data != [] && c.dir == Encrypting ==> r == Ok(aes.enc(c.key, c.iv, data))
    ensures c.Keyed? && data != [] && c.dir == Decrypting ==>
              (r.Ok? <==> aes.dec(c.key, c.iv, data).Some?) &&
              (r.Ok? ==> r.value == aes.dec(c.key, c.iv, data).value)
  {
    match c
    case Unkeyed(_) => Fail(KeyNotSet)
    case Keyed(dir, key, iv) =>
      if data == [] then Fail(EmptyData)
      else if dir == Encrypting then Ok(aes.enc(key, iv, data))
      else
        match aes.dec(key, iv, data)
        case None => Fail(BadDecrypt)
        case Some(p) => Ok(p)
  }

  /** An encrypting cipher succeeds exactly on non-empty input, and decrypting
      what it produced, with the same key/IV pair, returns the plaintext. */
  lemma ApplyRoundTrip(aes: BlockCipher, key: Bytes, iv: Bytes, m: Bytes)
    requires Inverts(aes)
    ensures Apply(aes, Keyed(Encrypting, key, iv), m).Ok? <==> m != []
    ensures m != [] ==> Apply(aes, Keyed(Decrypting, key, iv), Apply(aes, Keyed(Encrypting, key, iv), m).value) == Ok(m)
  {
    assert aes.enc(key, iv, m) != [] && aes.dec(key, iv, aes.enc(key, iv, m)) == Some(m);
  }
}
