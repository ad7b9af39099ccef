/** Puppet::Transaction::Persistence of lib/puppet/transaction/persistence.rb:
    the transaction store. @old_data is what the previous run left on disk
    (only read), @new_data is what this run records (only written). The file
    goes through three layers: Marshal, the artifact cipher of
    BetterEncrypt.Encrypt for the transaction store, and YAML. */
module Persistence {
  import opened Crypto
  import BetterEncrypt

  /** A Ruby object as found in these documents. Hash keys are strings. */
  datatype Value = Nil | Bool(b: bool) | Int(i: int) | Str(s: string) | Hash(fields: map<string, Value>)

  predicate OccursAt(k: string, s: string, i: int)
  {
    0 <= i <= |s| - |k| && s[i..i + |k|] == k
  }

  predicate IsSubstring(k: string, s: string)
  {
    exists i :: 0 <= i <= |s| && OccursAt(k, s, i)
  }

  /** Ruby's `v[k]` for a String k: a Hash looks the key up (nil when absent),
      String#[] gives k when it occurs in the string and nil otherwise,
      Integer#[] rejects a String argument and nil/true/false have no `[]`. */
  function Index(v: Value, k: string): (r: Outcome<Value>)
    ensures v.Hash? ==> r == Ok(if k in v.fields then v.fields[k] else Nil)
    ensures v.Nil? || v.Bool? || v.Int? <==> r.Fail?
  {
    match v
    case Hash(fields) => Ok(if k in fields then fields[k] else Nil)
    case Str(s) => Ok(if IsSubstring(k, s) then Str(k) else Nil)
    case Int(_) => Fail(WrongArgumentType)
    case Nil => Fail(UndefinedMethod)
    case Bool(_) => Fail(UndefinedMethod)
  }

  /** The chain `!v.nil? && !v[k1].nil? && ... && v[k1]...[kn]` of
      get_system_value: nil as soon as a level is nil, otherwise Ruby's
      indexing, which may raise. */
  function Walk(v: Value, path: seq<string>): Outcome<Value>
    decreases |path|
  {
    if path == [] then Ok(v)
    else if v.Nil? then Ok(Nil)
    else
      var child :- Index(v, path[0]);
      Walk(child, path[1..])
  }

  /** The reference reading of a document: follow the path through Hash
      levels; a missing key (or a level that is not a Hash) gives nil. */
  function Lookup(v: Value, path: seq<string>): Value
    decreases |path|
  {
    if path == [] then v
    else if v.Hash? && path[0] in v.fields then Lookup(v.fields[path[0]], path[1..])
    else Nil
  }

  /** Along the path every level that is present and not nil is a Hash (the
      last key's value may be anything). */
  predicate HashPath(v: Value, path: seq<string>)
    decreases |path|
  {
    path == [] || v.Nil? ||
    (v.Hash? && (path[0] in v.fields ==> HashPath(v.fields[path[0]], path[1..])))
  }

  /** On a document whose levels along the path are Hashes, the Ruby walk
      reads the same as the reference lookup. */
  lemma {:induction false} WalkLookup(v: Value, path: seq<string>)
    ensures HashPath(v, path) ==> Walk(v, path) == Ok(Lookup(v, path))
    decreases |path|
  {
    if path != [] && HashPath(v, path) && !v.Nil? {
      if path[0] in v.fields {
        WalkLookup(v.fields[path[0]], path[1..]);
      } else {
        assert Walk(Nil, path[1..]) == Ok(Nil);
      }
    }
  }

  /** resources -> name -> parameters -> param -> system_value. */
  function SystemValuePath(resourceName: string, paramName: string): seq<string>
  {
    ["resources", resourceName, "parameters", paramName, "system_value"]
  }

  /** Every node at depth below `depth` is a Hash: the shape @new_data keeps. */
  predicate HashesTo(v: Value, depth: nat)
  {
    depth == 0 || (v.Hash? && forall k :: k in v.fields ==> HashesTo(v.fields[k], depth - 1))
  }

  /** `h[k] ||= {}` followed by `h[k]`: a missing, nil or false entry becomes a
      new Hash. (In @new_data a truthy entry above the leaves is always a
      Hash, so no other case arises there.) */
  function ChildOrEmpty(fields: map<string, Value>, k: string): (c: Value)
    ensures c.Hash?
    ensures k in fields && fields[k].Hash? ==> c == fields[k]
    ensures !(k in fields && fields[k].Hash?) ==> c == Hash(map[])
  {
    if k in fields && fields[k].Hash? then fields[k] else Hash(map[])
  }

  /** The chain of `||= {}` steps ending in an assignment: the document with
      the value at the path replaced and missing levels created. */
  function SetIn(v: Value, path: seq<string>, x: Value): (r: Value)
    requires |path| > 0
    ensures r.Hash?
    ensures r.fields.Keys == (if v.Hash? then v.fields.Keys else {}) + {path[0]}
    decreases |path|
  {
    var fields := if v.Hash? then v.fields else map[];
    if |path| == 1 then Hash(fields[path[0] := x])
    else Hash(fields[path[0] := SetIn(ChildOrEmpty(fields, path[0]), path[1..], x)])
  }

  /** After the assignment the path leads to the new value. */
  lemma {:induction false} SetInReadsBack(v: Value, path: seq<string>, x: Value)
    requires |path| > 0
    ensures Lookup(SetIn(v, path, x), path) == x
    decreases |path|
  {
    var fields := if v.Hash? then v.fields else map[];
    if |path| > 1 {
      SetInReadsBack(ChildOrEmpty(fields, path[0]), path[1..], x);
    }
  }

  /** Every other path of the same length reads as before. */
  lemma {:induction false} SetInFrame(v: Value, path: seq<string>, q: seq<string>, x: Value)
    requires |path| > 0 && |q| == |path| && q != path
    ensures Lookup(SetIn(v, path, x), q) == Lookup(v, q)
    decreases |path|
  {
    var fields := if v.Hash? then v.fields else map[];
    var r := SetIn(v, path, x);
    if q[0] != path[0] {
      assert (q[0] in r.fields <==> q[0] in fields) && (q[0] in fields ==> r.fields[q[0]] == fields[q[0]]);
    } else if |path| == 1 {
      assert false;
    } else {
      var child := ChildOrEmpty(fields, path[0]);
      assert q[1..] != path[1..] by {
        assert q == [q[0]] + q[1..] && path == [path[0]] + path[1..];
      }
      SetInFrame(child, path[1..], q[1..], x);
      assert Lookup(r, q) == Lookup(SetIn(child, path[1..], x), q[1..]);
      if path[0] in fields && fields[path[0]].Hash? {
        assert Lookup(v, q) == Lookup(child, q[1..]);
      } else {
        assert Lookup(child, q[1..]) == Nil by {
          assert child == Hash(map[]) && |q[1..]| > 0;
        }
        assert Lookup(v, q) == Nil;
      }
    }
  }

  /** The assignment keeps the shape of a document whose levels are Hashes. */
  lemma {:induction false} SetInShaped(v: Value, path: seq<string>, x: Value)
    requires |path| > 0 && HashesTo(v, |path|)
    ensures HashesTo(SetIn(v, path, x), |path|)
    decreases |path|
  {
    var fields := if v.Hash? then v.fields else map[];
    var r := SetIn(v, path, x);
    if |path| > 1 {
      var child := ChildOrEmpty(fields, path[0]);
      assert HashesTo(child, |path| - 1);
      SetInShaped(child, path[1..], x);
      forall k | k in r.fields
        ensures HashesTo(r.fields[k], |path| - 1)
      {
        if k != path[0] {
          assert r.fields[k] == fields[k];
        }
      }
    }
  }

  /** The file-system entry at a path. */
  datatype Entry = RegularFile(content: Bytes) | NotRegular

  /** File.rename: the entry moves, replacing whatever was at the target. */
  function Rename(files: map<string, Entry>, from: string, to: string): (r: map<string, Entry>)
    requires from in files && from != to
    ensures from !in r && to in r && r[to] == files[from]
    ensures forall p :: p != from && p != to ==> (p in r <==> p in files) && (p in r ==> r[p] == files[p])
  {
    (files - {from})[to := files[from]]
  }

  /** Result of Puppet::Util::Yaml.load: a value, or YamlLoadError. */
  datatype YamlResult = Parsed(v: Value) | YamlLoadError

  /** The serialisation layers, opaque library formats. */
  datatype Codec = Codec(
    marshalDump: Value -> Bytes,
    marshalLoad: Bytes -> Option<Bytes>,   // None: Marshal.load raised
    yamlDump: Bytes -> Bytes,
    yamlLoad: Bytes -> YamlResult)

  /** Which way `load` went; the Ruby returns nil but logs differently. */
  datatype LoadOutcome =
    | Absent          // no file: nothing happens
    | NotAFile        // warning: not a regular file, ignored
    | Quarantined     // warning: corrupt, renamed to .bad, empty document
    | NotAHash        // error: valid YAML but not a Hash, ignored
    | Loaded          // @old_data replaced
    | Raised(error: Failure)

  datatype LoadResult = LoadResult(outcome: LoadOutcome, oldData: map<string, Value>,
                                   files: map<string, Entry>, keys: BetterEncrypt.Keystore)

  /** load (persistence.rb:46-90). */
  function LoadSpec(aes: BlockCipher, codec: Codec, path: string, env: Env, renameOk: bool,
                    oldData: map<string, Value>, files: map<string, Entry>, keys: BetterEncrypt.Keystore)
    : LoadResult
  {
    if path !in files then LoadResult(Absent, oldData, files, keys)
    else if !files[path].RegularFile? then LoadResult(NotAFile, oldData, files, keys)
    else
      var (d, keys1) := BetterEncrypt.DecryptSpec(aes, keys, env, files[path].content, TransactionStore);
      if d.Fail? then LoadResult(Raised(d.error), oldData, files, keys1)
      else match codec.marshalLoad(d.value)
        case None => LoadResult(Raised(MarshalLoadFailed), oldData, files, keys1)
        case Some(raw) =>
          match codec.yamlLoad(raw)
          case YamlLoadError =>
            if !renameOk then LoadResult(Raised(RenameFailed), oldData, files, keys1)
            else LoadResult(Quarantined, map[], Rename(files, path, path + ".bad"), keys1)
          case Parsed(v) =>
            if v.Hash? then LoadResult(Loaded, v.fields, files, keys1)
            else LoadResult(NotAHash, oldData, files, keys1)
  }

  /** save (persistence.rb:93-104): the file the store is written to and the
      key-material state afterwards. */
  function SaveSpec(aes: BlockCipher, codec: Codec, path: string, env: Env, f: FreshKeys,
                    newData: Value, files: map<string, Entry>, keys: BetterEncrypt.Keystore)
    : (Outcome<()>, map<string, Entry>, BetterEncrypt.Keystore)
  {
    var marshaled := codec.marshalDump(newData);
    var (c, keys1) := BetterEncrypt.EncryptSpec(aes, keys, env, marshaled, TransactionStore, f);
    if c.Fail? then (Fail(c.error), files, keys1)
    else (Ok(()), files[path := RegularFile(codec.yamlDump(c.value))], keys1)
  }

  /** A missing path, or one that is not a regular file, leaves everything as
      it was. */
  lemma LoadSkips(aes: BlockCipher, codec: Codec, path: string, env: Env, renameOk: bool,
                  oldData: map<string, Value>, files: map<string, Entry>, keys: BetterEncrypt.Keystore)
    requires path !in files || files[path].NotRegular?
    ensures LoadSpec(aes, codec, path, env, renameOk, oldData, files, keys) ==
              LoadResult(if path in files then NotAFile else Absent, oldData, files, keys)
  {
  }

  /** The layers load peels, in this order: decrypt, Marshal.load, YAML load. */
  predicate LoadLayers(aes: BlockCipher, codec: Codec, env: Env, keys: BetterEncrypt.Keystore,
                       content: Bytes, y: YamlResult)
  {
    var d := BetterEncrypt.DecryptSpec(aes, keys, env, content, TransactionStore).0;
    d.Ok? && codec.marshalLoad(d.value).Some? && codec.yamlLoad(codec.marshalLoad(d.value).value) == y
  }

  /** A corrupt store (YamlLoadError) is renamed to `<path>.bad`, keeping its
      bytes, and the run goes on with an empty document; if the rename fails,
      Puppet::Error is raised and nothing changes. */
  lemma LoadQuarantinesCorrupt(aes: BlockCipher, codec: Codec, path: string, env: Env, renameOk: bool,
                               oldData: map<string, Value>, files: map<string, Entry>, keys: BetterEncrypt.Keystore)
    requires path in files && files[path].RegularFile?
    requires LoadLayers(aes, codec, env, keys, files[path].content, YamlLoadError)
    ensures var r := LoadSpec(aes, codec, path, env, renameOk, oldData, files, keys);
            && (renameOk ==>
                  r.outcome == Quarantined && r.oldData == map[] &&
                  path !in r.files && path + ".bad" in r.files &&
                  r.files[path + ".bad"] == files[path])
            && (!renameOk ==>
                  r.outcome == Raised(RenameFailed) && r.oldData == oldData && r.files == files)
  {
    assert path + ".bad" != path by { assert |path + ".bad"| > |path|; }
  }

  /** load rescues YamlLoadError only: a failing decrypt or Marshal.load
      propagates, and @old_data and the files stay as they were (no `.bad`
      file is made). */
  lemma LoadPropagates(aes: BlockCipher, codec: Codec, path: string, env: Env, renameOk: bool,
                       oldData: map<string, Value>, files: map<string, Entry>, keys: BetterEncrypt.Keystore)
    requires path in files && files[path].RegularFile?
    requires var d := BetterEncrypt.DecryptSpec(aes, keys, env, files[path].content, TransactionStore).0;
             d.Fail? || codec.marshalLoad(d.value).None?
    ensures var d := BetterEncrypt.DecryptSpec(aes, keys, env, files[path].content, TransactionStore).0;
            var r := LoadSpec(aes, codec, path, env, renameOk, oldData, files, keys);
            && r.outcome == Raised(if d.Fail? then d.error else MarshalLoadFailed)
            && r.oldData == oldData && r.files == files
  {
  }

  /** A parsed result replaces @old_data only when it is a Hash; load never
      writes the store file or the key-material file when it parses. */
  lemma LoadParsed(aes: BlockCipher, codec: Codec, path: string, env: Env, renameOk: bool,
                   oldData: map<string, Value>, files: map<string, Entry>, keys: BetterEncrypt.Keystore, v: Value)
    requires path in files && files[path].RegularFile?
    requires LoadLayers(aes, codec, env, keys, files[path].content, Parsed(v))
    ensures var r := LoadSpec(aes, codec, path, env, renameOk, oldData, files, keys);
            && r.files == files
            && r.keys.file == keys.file && r.keys.saves == keys.saves
            && (v.Hash? ==> r.outcome == Loaded && r.oldData == v.fields)
            && (!v.Hash? ==> r.outcome == NotAHash && r.oldData == oldData)
  {
    BetterEncrypt.DecryptReadOnly(aes, keys, env, files[path].content, TransactionStore);
  }

  /** save writes YAML of the transaction-store encryption of the Marshal dump
      of @new_data, and nothing else. */
  lemma SaveLayers(aes: BlockCipher, codec: Codec, path: string, env: Env, f: FreshKeys,
                   newData: Value, files: map<string, Entry>, keys: BetterEncrypt.Keystore)
    ensures var (r, files', keys') := SaveSpec(aes, codec, path, env, f, newData, files, keys);
            var (c, k) := BetterEncrypt.EncryptSpec(aes, keys, env, codec.marshalDump(newData), TransactionStore, f);
            && keys' == k
            && (r.Ok? <==> c.Ok?)
            && (r.Ok? ==> files' == files[path := RegularFile(codec.yamlDump(c.value))])
            && (r.Fail? ==> files' == files)
  {
  }

  /** The file system, reduced to a map from path to entry. */
  class FileSystem {
    var files: map<string, Entry>

    constructor (files: map<string, Entry>)
      ensures this.files == files
    {
      this.files := files;
    }
  }

  class Persistence {
    var oldData: map<string, Value>   // @old_data, always a Hash
    var newData: Value                // @new_data
    const path: string                // Puppet[:transactionstorefile]
    const codec: Codec

    ghost predicate Valid()
      reads this
    {
      HashesTo(newData, 5) && newData.Hash? && "resources" in newData.fields
    }

    constructor (path: string, codec: Codec)
      ensures Valid()
      ensures oldData == map[] && newData == Hash(map["resources" := Hash(map[])])
      ensures this.path == path && this.codec == codec
    {
      this.path := path;
      this.codec := codec;
      oldData := map[];
      newData := Hash(map["resources" := Hash(map[])]);
    }

    /** data: the raw document loaded from the store. */
    function Data(): map<string, Value>
      reads this
    {
      oldData
    }

    /** get_system_value: walks @old_data along
        resources/name/parameters/param/system_value; nil as soon as a level is
        missing, and on a document whose levels are Hashes, the stored value. */
    function GetSystemValue(resourceName: string, paramName: string): (v: Outcome<Value>)
      reads this
      ensures "resources" !in oldData ==> v == Ok(Nil)
      ensures HashPath(Hash(oldData), SystemValuePath(resourceName, paramName)) ==>
                v == Ok(Lookup(Hash(oldData), SystemValuePath(resourceName, paramName)))
    {
      WalkLookup(Hash(oldData), SystemValuePath(resourceName, paramName));
      Walk(Hash(oldData), SystemValuePath(resourceName, paramName))
    }

    /** set_system_value: only @new_data changes; the value is stored at
        resources/name/parameters/param/system_value, missing levels are
        created, and every other entry is kept. */
    method SetSystemValue(resourceName: string, paramName: string, value: Value)
      requires Valid()
      modifies this`newData
      ensures Valid()
      ensures oldData == old(oldData)
      ensures forall r, q :: GetSystemValue(r, q) == old(GetSystemValue(r, q))
      ensures newData == SetIn(old(newData), SystemValuePath(resourceName, paramName), value)
      ensures Lookup(newData, SystemValuePath(resourceName, paramName)) == value
      ensures forall q :: |q| == 5 && q != SystemValuePath(resourceName, paramName) ==>
                Lookup(newData, q) == Lookup(old(newData), q)
    {
      ghost var path5 := SystemValuePath(resourceName, paramName);
      ghost var before := newData;
      // each `||= {}` of the Ruby
      var root := newData.fields;
      var resources := ChildOrEmpty(root, "resources");
      var resource := ChildOrEmpty(resources.fields, resourceName);
      var parameters := ChildOrEmpty(resource.fields, "parameters");
      var param := ChildOrEmpty(parameters.fields, paramName);
      // the assignment, written back level by level
      var param' := Hash(param.fields["system_value" := value]);
      var parameters' := Hash(parameters.fields[paramName := param']);
      var resource' := Hash(resource.fields["parameters" := parameters']);
      var resources' := Hash(resources.fields[resourceName := resource']);
      newData := Hash(root["resources" := resources']);
      assert SetIn(param, path5[4..], value) == param';
      assert SetIn(parameters, path5[3..], value) == parameters' by { assert path5[3..][1..] == path5[4..]; }
      assert SetIn(resource, path5[2..], value) == resource' by { assert path5[2..][1..] == path5[3..]; }
      assert SetIn(resources, path5[1..], value) == resources' by { assert path5[1..][1..] == path5[2..]; }
      assert newData == SetIn(before, path5, value);
      SetInShaped(before, path5, value);
      SetInReadsBack(before, path5, value);
      forall q | |q| == 5 && q != path5
        ensures Lookup(newData, q) == Lookup(before, q)
      {
        SetInFrame(before, path5, q, value);
      }
    }

    /** load: see LoadSpec. */
    method Load(enc: BetterEncrypt.Encrypt, fs: FileSystem, env: Env, renameOk: bool) returns (outcome: LoadOutcome)
      modifies this`oldData, enc, fs
      ensures LoadResult(outcome, oldData, fs.files, enc.State()) ==
                LoadSpec(enc.aes, codec, path, env, renameOk, old(oldData), old(fs.files), old(enc.State()))
    {
      if path !in fs.files {
        return Absent;
      }
      if !fs.files[path].RegularFile? {
        return NotAFile;
      }
      var decFileCont := enc.Decrypt(fs.files[path].content, TransactionStoreCode, env);
      if decFileCont.Fail? {
        return Raised(decFileCont.error);
      }
      var rawYaml := codec.marshalLoad(decFileCont.value);
      if rawYaml.None? {
        return Raised(MarshalLoadFailed);
      }
      var result: Value;
      match codec.yamlLoad(rawYaml.value) {
        case YamlLoadError =>
          if !renameOk {
            return Raised(RenameFailed);
          }
          assert path + ".bad" != path by { assert |path + ".bad"| > |path|; }
          fs.files := Rename(fs.files, path, path + ".bad");
          result := Hash(map[]);
          outcome := Quarantined;
        case Parsed(v) =>
          result := v;
          outcome := Loaded;
      }
      if !result.Hash? {
        return NotAHash;
      }
      oldData := result.fields;
    }

    /** save: see SaveSpec. */
    method Save(enc: BetterEncrypt.Encrypt, fs: FileSystem, env: Env, f: FreshKeys) returns (r: Outcome<()>)
      modifies enc, fs
      ensures (r, fs.files, enc.State()) ==
                SaveSpec(enc.aes, codec, path, env, f, newData, old(fs.files), old(enc.State()))
    {
      var marshaledNewData := codec.marshalDump(newData);
      var encryptedNewData := enc.Encrypt(marshaledNewData, TransactionStoreCode, env, f);
      if encryptedNewData.Fail? {
        return Fail(encryptedNewData.error);
      }
      fs.files := fs.files[path := RegularFile(codec.yamlDump(encryptedNewData.value))];
      r := Ok(());
    }
  }
}
