/**
 * The leaf store of internal/store/leaf: reading a secret (read.go), listing and reading
 * its revisions and initialising git storage (rcs.go), and detecting the storage backend
 * of the store's directory (storage.go).
 */
module Leaf {
  import opened Wrappers
  import opened Errors
  import opened Backend
  import opened SecParse

  /** The crypto backend as far as reading goes: decryption, which may fail. */
  datatype Crypto = Crypto(decrypt: string -> Result<string, Error>)

  /** Go's `(gosecret.Secret, error)`, with nil as `None`. */
  type Answer = (Option<Secret>, Option<Error>)

  /** `passfile` never maps two secret names to the same file. */
  ghost predicate Injective(passfile: string -> string)
  {
    forall a, b :: a != b ==> passfile(a) != passfile(b)
  }

  /** The `%w` context `GetRevision` puts around a failure of the storage backend. */
  function RevisionContext(name: string, revision: string): string
  {
    "failed to get ciphertext of \"" + name + "\"@\"" + revision + "\""
  }

  const UnknownStorageBackend: string := "unknown storage backend"

  class Store {
    var alias: string
    var path: string
    var storage: Storage
    var crypto: Crypto
    /** The file a secret name is stored in. */
    const passfile: string -> string

    constructor (alias: string, path: string, storage: Storage, crypto: Crypto, passfile: string -> string)
      ensures this.alias == alias && this.path == path && this.storage == storage
      ensures this.crypto == crypto && this.passfile == passfile
    {
      this.alias := alias;
      this.path := path;
      this.storage := storage;
      this.crypto := crypto;
      this.passfile := passfile;
    }

    /** The plaintext of the file behind `name`, as far as reading and decrypting get. */
    function Plaintext(name: string): Result<string, Error>
      reads this
    {
      var ciphertext := storage.Get(passfile(name));
      if ciphertext.Err? then Err(NotFound)
      else crypto.decrypt(ciphertext.value)
    }

    /**
     * `Get`: a missing file is `ErrNotFound` before decryption is tried, a failed
     * decryption is `ErrDecrypt`; the plaintext is then read as plain text, or with
     * show-parsing through the cascade, whose permanent MIME error comes back too.
     */
    function Get(ctx: Context, p: Parsers, name: string): (r: Answer)
      reads this
      ensures storage.Get(passfile(name)).Err? ==> r == (None, Some(NotFound))
      ensures storage.Get(passfile(name)).Ok? && crypto.decrypt(storage.Get(passfile(name)).value).Err? ==>
                r == (None, Some(Decrypt))
      ensures Plaintext(name).Ok? && !ctx.showParsing ==> r == (Some(p.plain(Plaintext(name).value)), None)
      ensures Plaintext(name).Ok? && ctx.showParsing ==>
                r == (Some(Parse(p, Plaintext(name).value).0), Parse(p, Plaintext(name).value).1)
      ensures r.0.None? <==> r.1 == Some(NotFound) || r.1 == Some(Decrypt)
      ensures r.1.Some? ==> r.1 == Some(NotFound) || r.1 == Some(Decrypt) || r.1.value.PermanentParse?
    {
      var ciphertext := storage.Get(passfile(name));
      if ciphertext.Err? then (None, Some(NotFound))
      else
        var content := crypto.decrypt(ciphertext.value);
        if content.Err? then (None, Some(Decrypt))
        else if !ctx.showParsing then (Some(p.plain(content.value)), None)
        else
          var (sec, err) := Parse(p, content.value);
          (Some(sec), err)
    }

    /** `ListRevisions`: the storage backend's revisions of the file behind `name`. */
    function ListRevisions(name: string): (r: Result<seq<Revision>, Error>)
      reads this
      ensures r == storage.Revisions(passfile(name))
      ensures !storage.rcs ==> r == Err(NotSupported)
    {
      storage.Revisions(passfile(name))
    }

    /**
     * `GetRevision`: a storage failure comes back wrapped, a failed decryption is
     * `ErrDecrypt`; the plaintext always goes through the full cascade, and whatever
     * error the cascade reports is dropped.
     */
    function GetRevision(p: Parsers, name: string, revision: string): (r: Answer)
      reads this
      ensures storage.GetRevision(passfile(name), revision).Err? ==>
                r == (None, Some(Wrapped(RevisionContext(name, revision), storage.GetRevision(passfile(name), revision).error)))
      ensures storage.GetRevision(passfile(name), revision).Ok? &&
              crypto.decrypt(storage.GetRevision(passfile(name), revision).value).Err? ==>
                r == (None, Some(Decrypt))
      ensures storage.GetRevision(passfile(name), revision).Ok? &&
              crypto.decrypt(storage.GetRevision(passfile(name), revision).value).Ok? ==>
                r == (Some(Parse(p, crypto.decrypt(storage.GetRevision(passfile(name), revision).value).value).0), None)
      ensures r.0.None? <==> r.1.Some?
      ensures r.1.Some? ==> r.1 == Some(Decrypt) || (r.1.value.Wrapped? && r.1.value.context == RevisionContext(name, revision))
    {
      var ciphertext := storage.GetRevision(passfile(name), revision);
      if ciphertext.Err? then (None, Some(Wrapped(RevisionContext(name, revision), ciphertext.error)))
      else
        var content := crypto.decrypt(ciphertext.value);
        if content.Err? then (None, Some(Decrypt))
        else
          var (sec, _) := Parse(p, content.value);
          (Some(sec), None)
    }

    /**
     * `GitInit`: a new store of the context's storage backend is created at the store's
     * directory and replaces the current storage; on failure the storage stays as it was.
     */
    method GitInit(reg: Registry, ctx: Context) returns (err: Option<Error>)
      modifies this
      ensures path == old(path) && alias == old(alias) && crypto == old(crypto)
      ensures reg.InitStorage(ctx.storageBackend, path).Ok? ==>
                err == None && storage == reg.InitStorage(ctx.storageBackend, path).value
      ensures reg.InitStorage(ctx.storageBackend, path).Err? ==>
                err == Some(reg.InitStorage(ctx.storageBackend, path).error) && storage == old(storage)
    {
      var st := reg.InitStorage(ctx.storageBackend, path);
      if st.Err? {
        return Some(st.error);
      }
      storage := st.value;
      return None;
    }

    /**
     * `initStorageBackend`: the backend of the store's own directory is detected under
     * the store's alias; it becomes the storage on success, and a failure comes back
     * wrapped with the storage left as it was.
     */
    method InitStorageBackend(reg: Registry, ctx: Context) returns (err: Option<Error>)
      requires FS in reg.storageRegistry
      modifies this
      ensures path == old(path) && alias == old(alias) && crypto == old(crypto)
      ensures err == None ==> Detected(reg.storageRegistry, ctx.(alias := alias), path, Ok(storage))
      ensures err.Some? ==>
                && storage == old(storage)
                && err.value.Wrapped? && err.value.context == UnknownStorageBackend
                && Detected(reg.storageRegistry, ctx.(alias := alias), path, Err(err.value.cause))
    {
      var st := reg.DetectStorage(ctx.(alias := alias), path);
      if st.Err? {
        return Some(Wrapped(UnknownStorageBackend, st.error));
      }
      storage := st.value;
      return None;
    }
  }

  /**
   * The two read paths differ on the same ciphertext: `Get` passes a permanent MIME error
   * on (and without show-parsing does not parse at all), while `GetRevision` always parses
   * and never reports a parse error.
   */
  lemma GetVersusGetRevision(s: Store, ctx: Context, p: Parsers, name: string, revision: string, plaintext: string)
    requires s.storage.Get(s.passfile(name)).Ok?
    requires s.storage.GetRevision(s.passfile(name), revision) == s.storage.Get(s.passfile(name))
    requires s.crypto.decrypt(s.storage.Get(s.passfile(name)).value) == Ok(plaintext)
    ensures s.GetRevision(p, name, revision) == (Some(Parse(p, plaintext).0), None)
    ensures ctx.showParsing && PermanentFailure(p.legacyMime(plaintext)) ==>
              s.Get(ctx, p, name) == (Some(p.plain(plaintext)), Some(p.legacyMime(plaintext).error))
    ensures !ctx.showParsing ==> s.Get(ctx, p, name) == (Some(p.plain(plaintext)), None)
  {
  }

  /** Secrets do not share files: changing the file of one name leaves every other name's read alone. */
  lemma ReadsAreIndependent(s: Store, t: Store, ctx: Context, p: Parsers, a: string, b: string, ciphertext: string)
    requires Injective(s.passfile) && a != b
    requires t.passfile == s.passfile && t.crypto == s.crypto
    requires t.storage == s.storage.(files := s.storage.files[s.passfile(a) := ciphertext])
    ensures t.Get(ctx, p, b) == s.Get(ctx, p, b)
  {
    assert t.storage.Get(t.passfile(b)) == s.storage.Get(s.passfile(b));
  }
}
