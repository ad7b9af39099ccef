# Puppet agent artifact encryption and transaction store, in Dafny

This project models the part of the Puppet agent that encrypts agent-side
artifacts (the cached catalog and the transaction store) and proves
properties of the model. It also models the transaction store that uses that
encryption.

- `crypto.dfy` (module `Crypto`): the vocabulary the two encryption files
  share.
  - The artifact kinds CATALOG = 1 and TRANSACTIONSTORE = 2, plus an
    unrecognised code.
  - The settings a call consults, passed as an `Env` value:
    - whether the host private key file (`Puppet[:hostprivkey]`) exists;
    - the value of `Puppet[:secure_artifacts]`.
  - The random draws of `random_key`/`random_iv`, passed as `FreshKeys`.
  - OpenSSL AES-128-CBC, as an abstract `BlockCipher` of two function
    values. The one property relied on is the predicate `Inverts`: a
    ciphertext is never empty, and decryption undoes encryption under the
    same key and IV. Each lemma that needs it takes it as a hypothesis.
  - `Apply`: a cipher object, primed with a key/IV pair or not, applied as
    `update + final`. As in Ruby's OpenSSL binding, `update` raises on a
    cipher without a key, and then on empty data.
- `better_encrypt.dfy` (module `BetterEncrypt`): the class
  `Puppet::Util::Encrypt` of `lib/puppet/util/better_encrypt.rb`.
  - The class state is `@@km` (the key-material record), the key-material
    file, and a count of the file's writes.
  - Each Ruby method is a pure `*Spec` function over a `Keystore` value.
  - The class `Encrypt` holds the same state in mutable fields. Its methods
    are written step by step like the Ruby, and each is proved equal to its
    `*Spec` function.
  - The lemmas state what the code promises:
    - which flag changes, and when the file is written;
    - that `needs_to_be_persisted` is never cleared;
    - that `decrypt` writes nothing;
    - the encrypt/decrypt round trip.
- `draft_encrypt.dfy` (module `DraftEncrypt`): the earlier module
  `Puppet::Util::Encrypt` of `lib/puppet/util/encrypt.rb`.
  - It keeps no state in memory. Every call reads the key-material file,
    and generating or updating key material writes it.
  - The class `KeyFile` holds the file. Its methods build the record step
    by step, as the Ruby does.
  - Two defects of this file are modelled both as written and corrected
    (see Findings).
- `persistence.dfy` (module `Persistence`): `Puppet::Transaction::Persistence`.
  - Ruby values are a `Value` datatype. Ruby's `v[k]` is modelled on each
    kind of value (Hash, String, Integer, nil, booleans).
  - `get_system_value` walks `@old_data` with the source's nil-checked
    chain. On documents whose levels are Hashes, that walk is proved to
    agree with a plain path lookup.
  - `set_system_value` performs the `||= {}` steps on `@new_data` and is
    proved to store the value, keep every other entry, and keep the nested
    shape.
  - `load` and `save` run against an abstract file system (a map from path
    to entry) and an abstract `Codec` for Marshal and YAML. Their layer
    order is stated as written.
  - `data` is the accessor `Data`, which returns `oldData`.

## Model

| member | source | states |
|---|---|---|
| Crypto.ArtifactOf | lib/puppet/util/better_encrypt.rb:5-8 | code 1 (CATALOG) is the catalog and code 2 (TRANSACTIONSTORE) the transaction store, both iff; any other code is unrecognised; the class methods take the integer code and go through it |
| Crypto.Apply | lib/puppet/util/better_encrypt.rb:199 | a cipher without a key fails with "key not set"; a keyed cipher given empty data fails with ArgumentError; otherwise an encrypting cipher gives the encryption under its key and IV, and a decrypting one succeeds exactly when the cipher accepts the input, giving the decryption |
| Crypto.ApplyRoundTrip | lib/puppet/util/better_encrypt.rb:259 | under `Inverts`, encryption succeeds exactly on non-empty input, and decrypting with the key/IV pair used to encrypt gives that plaintext back |
| BetterEncrypt.Generated | lib/puppet/util/better_encrypt.rb:25-42 | fresh keys and IVs, both `*_encrypted` flags false, `needs_to_be_persisted` true |
| BetterEncrypt.WithFlag | lib/puppet/util/better_encrypt.rb:188-209 | setting an artifact's flag changes that flag only; the other flag, the keys, the IVs and `needs_to_be_persisted` stay; an unrecognised artifact changes nothing |
| BetterEncrypt.Prime | lib/puppet/util/better_encrypt.rb:133-148 | the cipher has the requested direction and the artifact's own key/IV pair; it has no key iff the artifact is unrecognised |
| BetterEncrypt.GetCipherSpec | lib/puppet/util/better_encrypt.rb:112-152 | a returned cipher is primed from the record then in memory; an encryption never gets nil |
| BetterEncrypt.GetCipherCases | lib/puppet/util/better_encrypt.rb:119-131 | the file is re-read on every call; an unreadable file raises; without a file a decryption gets nil and an encryption gets generated key material, which is not written |
| BetterEncrypt.EncryptWithoutHostKey | lib/puppet/util/better_encrypt.rb:163-166 | without the host private key, encrypt returns its input and the state is unchanged |
| BetterEncrypt.DecryptWithoutHostKey | lib/puppet/util/better_encrypt.rb:233-236 | without the host private key, decrypt returns its input and the state is unchanged |
| BetterEncrypt.EncryptSecureOn | lib/puppet/util/better_encrypt.rb:184-199 | with secure_artifacts on, the result is the input encrypted under the artifact's key and IV; that artifact's flag ends true in `@@km`; nothing else in the record changes; empty input raises after the flag is set and before the save, so the file is not written |
| BetterEncrypt.EncryptUnrecognisedSecureFails | lib/puppet/util/better_encrypt.rb:144-148 | with secure_artifacts on and an unrecognised artifact, the keyless cipher raises and nothing is saved |
| BetterEncrypt.EncryptSecureOff | lib/puppet/util/better_encrypt.rb:200-213 | with secure_artifacts off, the input comes back unchanged; the artifact's flag ends false; nothing else in the record changes |
| BetterEncrypt.EncryptSavesWhen | lib/puppet/util/better_encrypt.rb:178-218 | a successful encrypt writes the file (once) iff the record asks to be persisted or the flag transitions; afterwards the file holds the in-memory record |
| BetterEncrypt.PersistedForever | lib/puppet/util/better_encrypt.rb:40 | `needs_to_be_persisted` is never cleared, so over any run of encrypt calls with the host key present and a recognised artifact, every call saves except one that hands empty data to the cipher, and the flag stays set on disk |
| BetterEncrypt.DecryptReadOnly | lib/puppet/util/better_encrypt.rb:226-276 | decrypt never writes the file nor changes a flag; at most it reloads `@@km` from the file |
| BetterEncrypt.DecryptByStoredFlag | lib/puppet/util/better_encrypt.rb:255-272 | decrypt applies the cipher iff the stored flag of a recognised artifact is set, whatever the live setting; with no file it returns its input |
| BetterEncrypt.RoundTrip | lib/puppet/util/better_encrypt.rb:238-264 | what encrypt produced with secure_artifacts on, decrypt gives back, even after the setting is turned off |
| BetterEncrypt.EncryptStable | lib/puppet/util/better_encrypt.rb:184-213 | with the setting unchanged, on or off, re-encrypting the decrypted plaintext reproduces the ciphertext |
| BetterEncrypt.Encrypt.constructor | lib/puppet/util/better_encrypt.rb:19-21 | no key material in memory, nothing saved yet |
| BetterEncrypt.Encrypt.GenerateKeyMaterial | lib/puppet/util/better_encrypt.rb:25-42 | `@@km` becomes the generated record; the file is untouched |
| BetterEncrypt.Encrypt.SaveKeyMaterial | lib/puppet/util/better_encrypt.rb:46-68 | with a record in memory the file holds it and one more save is counted; otherwise nothing changes |
| BetterEncrypt.Encrypt.ReadKeyMaterial | lib/puppet/util/better_encrypt.rb:75-103 | no file gives nil; a readable file is loaded into `@@km`; otherwise unwrapping raises |
| BetterEncrypt.Encrypt.GetCipher | lib/puppet/util/better_encrypt.rb:112-152 | for the integer artifact code, result and new state are those of `GetCipherSpec` |
| BetterEncrypt.Encrypt.Encrypt | lib/puppet/util/better_encrypt.rb:156-221 | for the integer artifact code, result and new state are those of `EncryptSpec` |
| BetterEncrypt.Encrypt.Decrypt | lib/puppet/util/better_encrypt.rb:226-276 | for the integer artifact code, result and new state are those of `DecryptSpec`; the file and the save count do not change |
| DraftEncrypt.ReadSpec | lib/puppet/util/encrypt.rb:115-130 | no file gives nil; a record comes back iff the file is readable and the host key exists, and it is the record in the file |
| DraftEncrypt.GenerateCases | lib/puppet/util/encrypt.rb:23-53 | with secure_artifacts on, all four keys and IVs are fresh; otherwise all four are nil; the file is written with the record |
| DraftEncrypt.Updated | lib/puppet/util/encrypt.rb:73-95 | delete sets the artifact's key and IV to nil and asks for a rewrite iff the key was set; otherwise it assigns fresh ones and asks iff the key was nil; the other artifact's entries stay; an unrecognised artifact changes nothing |
| DraftEncrypt.UpdateAsWrittenSpec | lib/puppet/util/encrypt.rb:64-107 | as written, a successful update never changes the file |
| DraftEncrypt.RewriteFailsAsWritten | lib/puppet/util/encrypt.rb:98-104 | as written, every rewrite raises NameError and leaves the key-material file truncated |
| DraftEncrypt.UpdateCatalogWithoutFileAsWritten | lib/puppet/util/encrypt.rb:68-104 | with no file, generating catalog keys fails as written, while the corrected update returns the new keys |
| DraftEncrypt.UpdateSpec | lib/puppet/util/encrypt.rb:64-107 | corrected: a failure leaves the file alone; a changed file holds the returned record |
| DraftEncrypt.UpdateCases | lib/puppet/util/encrypt.rb:64-107 | corrected: a missing file counts as an empty hash; the rewrite happens iff the key went from set to deleted or from nil to generated; a key that is already set is replaced in the result while the file is left as it was; afterwards reading a rewritten file gives the updated record |
| DraftEncrypt.KeyFile.GenerateKeyMaterial | lib/puppet/util/encrypt.rb:23-53 | result and new file are those of `GenerateSpec` |
| DraftEncrypt.KeyFile.UpdateKeyMaterial | lib/puppet/util/encrypt.rb:64-107 | for the integer artifact code, result and new file are those of the corrected `UpdateSpec` |
| DraftEncrypt.PrimeAsWritten | lib/puppet/util/encrypt.rb:153-160 | as written, a primed transaction-store cipher uses the key as its IV |
| DraftEncrypt.Prime | lib/puppet/util/encrypt.rb:153-160 | corrected: the cipher is primed iff the record exists and holds the artifact's key and IV, and then with that pair; an unrecognised artifact leaves it keyless |
| DraftEncrypt.TransactionStoreIvAsWritten | lib/puppet/util/encrypt.rb:156-158 | whenever the stored key and IV differ, the as-written cipher differs from the corrected one |
| DraftEncrypt.GetCipherCases | lib/puppet/util/encrypt.rb:140-163 | as written or corrected: key material is generated (and written) only for encryption; a decryption never writes, and without a file it raises |
| DraftEncrypt.EncryptNeverPassesThrough | lib/puppet/util/encrypt.rb:168-176 | as written or corrected, the two cases where a pass-through might be expected both fail: an unrecognised artifact always fails; with secure_artifacts off and no file, encrypt writes a record of nils and fails on the nil key |
| DraftEncrypt.PrimeBy | lib/puppet/util/encrypt.rb:153-160 | as written or corrected: a recognised artifact's cipher is primed iff the record holds its key and the IV that priming uses, and then with that pair; an unrecognised artifact leaves it keyless |
| DraftEncrypt.GetCipherSpec | lib/puppet/util/encrypt.rb:140-163 | as written or corrected: with a readable file the cipher is primed from the record in it and the file is left alone; a decryption never writes the file; a cipher has the requested direction and is keyless iff the artifact is unrecognised; a primed cipher for a recognised artifact leaves a readable key file |
| DraftEncrypt.EncryptSpec | lib/puppet/util/encrypt.rb:168-177 | as written or corrected: encrypt succeeds only for a recognised artifact, and non-empty input, and its result is then the encryption of the input under the key and IV held in the resulting key-material file, so a success is never a pass-through |
| DraftEncrypt.DecryptSpec | lib/puppet/util/encrypt.rb:190-205 | as written or corrected: decrypt succeeds only for a recognised artifact whose key and IV are in a readable file, and its result is then the cipher applied with that pair |
| DraftEncrypt.CipherFromStoredPair | lib/puppet/util/encrypt.rb:140-205 | as written or corrected: once the file holds the artifact's pair, encrypt gives the encryption under it (empty input raises) and decrypt applies the cipher with it, whatever secure_artifacts says, and the file is not written |
| DraftEncrypt.EncryptRoundTripAsWritten | lib/puppet/util/encrypt.rb:140-205 | as written, with secure_artifacts on: the catalog is encrypted under its key and IV and the transaction store under (key, key); the file holds them, and decrypt gives a non-empty plaintext back because both directions share the wrong IV; empty input raises |
| DraftEncrypt.EncryptRoundTrip | lib/puppet/util/encrypt.rb:168-205 | corrected: with secure_artifacts on, encrypt applies the artifact's own key/IV pair, the file holds them, and decrypt gives a non-empty plaintext back; empty input raises |
| Persistence.Index | lib/puppet/transaction/persistence.rb:27-31 | a Hash looks the key up (nil when absent); indexing fails exactly on nil, booleans and integers |
| Persistence.WalkLookup | lib/puppet/transaction/persistence.rb:26-35 | on a document whose levels are Hashes, the nil-checked chain reads the same as a path lookup |
| Persistence.Persistence.GetSystemValue | lib/puppet/transaction/persistence.rb:26-35 | nil when `resources` is missing; on Hash-shaped documents, the value at resources/name/parameters/param/system_value, or nil when any level is missing |
| Persistence.ChildOrEmpty | lib/puppet/transaction/persistence.rb:38-41 | `h[k] \|\|= {}` keeps an existing Hash entry and otherwise yields a new empty Hash |
| Persistence.SetIn | lib/puppet/transaction/persistence.rb:37-43 | the chain of `\|\|= {}` steps and the assignment yields a Hash whose top-level keys are the old ones plus the path's first key |
| Persistence.SetInReadsBack | lib/puppet/transaction/persistence.rb:37-43 | after setting, the path reads back the value |
| Persistence.SetInFrame | lib/puppet/transaction/persistence.rb:37-43 | after setting, every other path of the same length reads as before |
| Persistence.SetInShaped | lib/puppet/transaction/persistence.rb:37-43 | setting keeps every level of the document a Hash |
| Persistence.Persistence.constructor | lib/puppet/transaction/persistence.rb:11-14 | `@old_data` is empty and `@new_data` is `{"resources" => {}}` |
| Persistence.Persistence.SetSystemValue | lib/puppet/transaction/persistence.rb:37-43 | only `@new_data` changes, so every `get_system_value` returns what it returned before; the value reads back; every other five-level path is unchanged; the shape is kept |
| Persistence.Rename | lib/puppet/transaction/persistence.rb:74 | the entry moves to the new name, and every other path is unchanged |
| Persistence.LoadSkips | lib/puppet/transaction/persistence.rb:49-55 | a missing path, or one that is not a regular file, changes nothing |
| Persistence.LoadQuarantinesCorrupt | lib/puppet/transaction/persistence.rb:70-80 | on YamlLoadError the file moves to `.bad` with its bytes and `@old_data` becomes empty; if the rename fails, Puppet::Error is raised and nothing changes |
| Persistence.LoadPropagates | lib/puppet/transaction/persistence.rb:59-70 | only YamlLoadError is rescued: when decrypt or Marshal.load raises, load raises that error, `@old_data` stays, and no `.bad` file is made |
| Persistence.LoadParsed | lib/puppet/transaction/persistence.rb:84-89 | a parsed Hash replaces `@old_data`; anything else leaves it; no file is written |
| Persistence.Persistence.Load | lib/puppet/transaction/persistence.rb:46-90 | outcome, `@old_data`, files and key state are those of `LoadSpec`: decrypt, then Marshal.load, then YAML load |
| Persistence.SaveLayers | lib/puppet/transaction/persistence.rb:96-102 | save writes YAML of the transaction-store encryption of the Marshal dump of `@new_data`; if encryption raises, nothing is written |
| Persistence.Persistence.Save | lib/puppet/transaction/persistence.rb:93-104 | result, files and key state are those of `SaveSpec` |

## Left out

- OpenSSL is not modelled concretely:
  - AES-128-CBC is the abstract `BlockCipher`, and its round trip is the hypothesis `Inverts`;
  - RSA `public_encrypt`/`private_decrypt` of the key-material file are not modelled: a file is either `Wrapped(record)` or `Unreadable`;
  - the 16-byte key and IV lengths are not checked.
- Marshal and YAML are abstract functions in `Codec`. A failing YAML load is the `YamlLoadError` result.
- `Value` has no arrays, floats, symbols or non-string Hash keys.
- `String#[]` is modelled for a String key only.
- Logging (`puts`, `my_puts`, `Puppet.warning`, `Puppet.err`, `Puppet.log_exception`, `Puppet::Util.benchmark`) is not modelled. `LoadOutcome` records which branch logged.
- Settings lookups are `Env` parameters, and the store path is a constructor argument. The lazy assignment of `@@km_file` and `@@pkey_file` is therefore not modelled.
- The file system is a map from path to entry:
  - `Puppet::Util::Yaml.dump` writes without failure;
  - whether that write is atomic is not modelled;
  - a failing `File.rename` is the `renameOk` parameter.
- BetterEncrypt.Encrypt.Encrypt: the branch at better_encrypt.rb:181 (`@@km` nil after `get_cipher`) is dead, because a successful `get_cipher(true, …)` always leaves a record in memory. The model has no such branch.
- DraftEncrypt.GetCipherSpec: the draft's `get_cipher`, `encrypt` and `decrypt` take a switch between the as-written priming of encrypt.rb:158 and the corrected one. `EncryptRoundTrip` is stated for the corrected priming only, and `EncryptRoundTripAsWritten` is its as-written counterpart. The other lemmas about these functions hold for both. For the catalog the two primings agree.
- Persistence.Persistence.Load: no round trip with `save` is stated. `load` peels decrypt, then Marshal, then YAML, but `save` applied Marshal, then encrypt, then YAML, so the layers are not undone in reverse order. Only each pipeline's order is proved.
- Persistence.ChildOrEmpty: a truthy entry that is not a Hash (such as a String) is replaced by a new Hash. Ruby would keep it and then index into it. `@new_data` never holds such an entry above its leaves, so `SetSystemValue` is unaffected.
- Persistence.Persistence.GetSystemValue: the exact value is stated only for documents whose levels are Hashes. For other documents, the model's `Walk` follows Ruby's `[]` on each kind of value, but no contract states it.
- `data` (`Persistence.Persistence.Data`) is a one-line accessor of `@old_data` and carries no contract.
- `lib/puppet/indirector/catalog/json.rb` (forwarding glue) and the FIPS probes in `lib/puppet/util/fips.rb` and `lib/puppet/feature/fips.rb` are not part of this model.
- Four behaviours of the source are easy to miss; the model follows them:
  - `load` rescues only YamlLoadError. A bad decrypt or a failing Marshal.load propagates instead of quarantining the file.
  - `decrypt` reloads `@@km` from the file.
  - The key-material file is written with `File.open(…, 'w')`, not by atomic replacement.
  - `encrypt` of an empty string with secure_artifacts on raises in `Cipher#update` after the artifact's flag is set in `@@km` and before the save, so the empty string has no encrypted round trip.

## Findings

| source | as written | input that shows it | evidently intended | confidence | as-written member | corrected member |
|---|---|---|---|---|---|---|
| lib/puppet/util/encrypt.rb:158 | the transaction-store cipher's IV is set from `transactstore_key` | any record whose transaction-store key and IV differ: the store is encrypted with IV = key (the round trip still holds, since decryption shares the IV) | `cipher.iv = km['transactstore_iv']`, as for the catalog | high, not executed | DraftEncrypt.PrimeAsWritten | DraftEncrypt.Prime |
| lib/puppet/util/encrypt.rb:102 | the rewrite dumps the undefined local `key_material`; `File.open(km_file, 'w')` has already truncated the file when NameError is raised | no key-material file, `update_key_material(…, CATALOG, false)` with the host key present | dump `km`, the updated record | high, not executed | DraftEncrypt.UpdateAsWrittenSpec | DraftEncrypt.UpdateSpec |
