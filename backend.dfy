/**
 * The storage backend registry of internal/backend/storage.go: a process-wide table from
 * backend id to loader, the detection of the backend a store directory uses, and the
 * lookups `NewStorage`, `InitStorage` and `String`.
 */
module Backend {
  import opened Wrappers
  import opened Errors

  /** `StorageBackend` is a Go `int`; the two named ids are the first values of `iota`. */
  type StorageBackend = int
  const FS: StorageBackend := 0
  const GitFS: StorageBackend := 1

  datatype Revision = Revision(hash: string, subject: string)

  /**
   * A storage backend's state: the ciphertext stored under each path and, for a backend
   * with revision control, the history of each path and the ciphertext of each revision.
   */
  datatype Storage = Storage(
    name: string,
    path: string,
    files: map<string, string>,
    rcs: bool,
    history: map<string, seq<Revision>>,
    revisionData: map<(string, string), string>)
  {
    /** `Storage.Get`: the ciphertext under `p`. */
    function Get(p: string): Result<string, Error>
    {
      if p in files then Ok(files[p]) else Err(BackendFailure("no such file"))
    }

    /** `Storage.Revisions`: a backend without revision control does not support it. */
    function Revisions(p: string): Result<seq<Revision>, Error>
    {
      if !rcs then Err(NotSupported)
      else if p in history then Ok(history[p])
      else Err(BackendFailure("no history"))
    }

    /** `Storage.GetRevision`: the ciphertext of `p` at `revision`. */
    function GetRevision(p: string, revision: string): Result<string, Error>
    {
      if !rcs then Err(NotSupported)
      else if (p, revision) in revisionData then Ok(revisionData[(p, revision)])
      else Err(BackendFailure("unknown revision"))
    }
  }

  /**
   * A `StorageLoader`: its priority, whether it recognises a directory (`Handles` returning
   * nil), and what opening an existing store (`New`) or creating one (`Init`) yields there.
   */
  datatype Loader = Loader(
    priority: int,
    handles: string -> bool,
    newAt: string -> Result<Storage, Error>,
    initAt: string -> Result<Storage, Error>)

  /**
   * The context values the core reads: the show-parsing flag, the mount alias and the
   * storage backend. `hasStorageBackend` tells whether the backend was set explicitly;
   * `storageBackend` is what `GetStorageBackend` returns either way.
   */
  datatype Context = Context(showParsing: bool, alias: string, hasStorageBackend: bool, storageBackend: StorageBackend)

  // ---------------------------------------------------------------------------------
  // What detection promises, stated without the sort and the loops.

  /**
   * `id` is a handling loader that no other handling loader precedes in ascending
   * priority order. With equal priorities several loaders qualify: `sort.Slice` is not
   * stable and map iteration order is unspecified, so any of them may be chosen.
   */
  ghost predicate FirstHandler(reg: map<StorageBackend, Loader>, path: string, id: StorageBackend)
  {
    && id in reg
    && reg[id].handles(path)
    && forall j :: j in reg && reg[j].handles(path) ==> reg[id].priority <= reg[j].priority
  }

  /** `r` is a possible result of `DetectStorage(ctx, path)` against the table `reg`. */
  ghost predicate Detected(reg: map<StorageBackend, Loader>, ctx: Context, path: string, r: Result<Storage, Error>)
    requires FS in reg
  {
    if ctx.hasStorageBackend && ctx.storageBackend in reg then
      // An override for a registered id: its `New`, or on failure a fresh FS store.
      var st := reg[ctx.storageBackend].newAt(path);
      r == if st.Ok? then st else reg[FS].initAt(path)
    else if exists id :: id in reg && reg[id].handles(path) then
      // The first handling loader's `New`, failure included: no further candidate is tried.
      exists id :: FirstHandler(reg, path, id) && r == reg[id].newAt(path)
    else
      reg[FS].initAt(path) == r
  }

  // ---------------------------------------------------------------------------------
  // The ordering step: `sort.Slice` by ascending `Priority()`. This is an insertion sort
  // like `Strings.SortStrings`, kept separate because it orders ids by an integer key
  // looked up in the registry, a preorder under which distinct ids may tie, where
  // `sort.Strings` orders distinct strings strictly.

  function Priority(reg: map<StorageBackend, Loader>, id: StorageBackend): int
  {
    if id in reg then reg[id].priority else 0
  }

  predicate ByPriority(reg: map<StorageBackend, Loader>, s: seq<StorageBackend>)
  {
    forall i, j :: 0 <= i < j < |s| ==> Priority(reg, s[i]) <= Priority(reg, s[j])
  }

  function InsertByPriority(reg: map<StorageBackend, Loader>, x: StorageBackend, s: seq<StorageBackend>): seq<StorageBackend>
  {
    if |s| == 0 then [x]
    else if Priority(reg, x) <= Priority(reg, s[0]) then [x] + s
    else [s[0]] + InsertByPriority(reg, x, s[1..])
  }

  /** The ordering `sort.Slice` produces, up to the order of loaders of equal priority. */
  function SortByPriority(reg: map<StorageBackend, Loader>, s: seq<StorageBackend>): seq<StorageBackend>
  {
    if |s| == 0 then [] else InsertByPriority(reg, s[|s| - 1], SortByPriority(reg, s[..|s| - 1]))
  }

  lemma ConsByPriority(reg: map<StorageBackend, Loader>, y: StorageBackend, t: seq<StorageBackend>)
    requires forall k :: 0 <= k < |t| ==> Priority(reg, y) <= Priority(reg, t[k])
    requires ByPriority(reg, t)
    ensures ByPriority(reg, [y] + t)
  {
    var r := [y] + t;
    forall i, j | 0 <= i < j < |r| ensures Priority(reg, r[i]) <= Priority(reg, r[j]) {
      if i == 0 {
        assert r[j] == t[j - 1];
      } else {
        assert r[i] == t[i - 1] && r[j] == t[j - 1];
      }
    }
  }

  lemma {:induction false} InsertByPriorityMultiset(reg: map<StorageBackend, Loader>, x: StorageBackend, s: seq<StorageBackend>)
    ensures multiset(InsertByPriority(reg, x, s)) == multiset(s) + multiset{x}
    decreases |s|
  {
    if |s| > 0 && Priority(reg, x) > Priority(reg, s[0]) {
      InsertByPriorityMultiset(reg, x, s[1..]);
      assert s == [s[0]] + s[1..];
    }
  }

  lemma {:induction false} InsertByPriorityOrdered(reg: map<StorageBackend, Loader>, x: StorageBackend, s: seq<StorageBackend>)
    requires ByPriority(reg, s)
    ensures ByPriority(reg, InsertByPriority(reg, x, s))
    decreases |s|
  {
    if |s| == 0 {
    } else if Priority(reg, x) <= Priority(reg, s[0]) {
      ConsByPriority(reg, x, s);
    } else {
      var t := InsertByPriority(reg, x, s[1..]);
      InsertByPriorityOrdered(reg, x, s[1..]);
      InsertByPriorityMultiset(reg, x, s[1..]);
      forall k | 0 <= k < |t| ensures Priority(reg, s[0]) <= Priority(reg, t[k]) {
        assert t[k] in multiset(t);
        if t[k] != x {
          assert t[k] in multiset(s[1..]);
          var m :| 0 <= m < |s[1..]| && s[1..][m] == t[k];
          assert s[m + 1] == t[k];
        }
      }
      ConsByPriority(reg, s[0], t);
    }
  }

  /** The loaders come out in ascending priority, each exactly as often as it went in. */
  lemma {:induction false} SortByPriorityOrdered(reg: map<StorageBackend, Loader>, s: seq<StorageBackend>)
    ensures ByPriority(reg, SortByPriority(reg, s))
    ensures multiset(SortByPriority(reg, s)) == multiset(s)
  {
    if |s| > 0 {
      var init := s[..|s| - 1];
      SortByPriorityOrdered(reg, init);
      InsertByPriorityOrdered(reg, s[|s| - 1], SortByPriority(reg, init));
      InsertByPriorityMultiset(reg, s[|s| - 1], SortByPriority(reg, init));
      assert s == init + [s[|s| - 1]];
    }
  }

  /** A non-empty set of ids has a member to pick. */
  lemma HasMember(s: set<StorageBackend>)
    requires s != {}
    ensures exists id :: id in s
  {
    if forall id :: id !in s {
      assert false;
    }
  }

  lemma SameMembers(a: seq<StorageBackend>, b: seq<StorageBackend>)
    requires multiset(b) == multiset(a)
    ensures forall id :: id in b <==> id in a
  {
    forall id ensures id in b <==> id in a {
      assert id in b <==> id in multiset(b);
      assert id in a <==> id in multiset(a);
    }
  }

  /** In a priority-ordered list of all ids, the first handling id is a first handler. */
  lemma FirstInOrder(reg: map<StorageBackend, Loader>, bes: seq<StorageBackend>, i: nat, path: string)
    requires ByPriority(reg, bes) && forall id :: id in bes <==> id in reg
    requires forall k :: 0 <= k < |bes| ==> bes[k] in reg
    requires i < |bes| && reg[bes[i]].handles(path)
    requires forall k :: 0 <= k < i ==> !reg[bes[k]].handles(path)
    ensures FirstHandler(reg, path, bes[i])
  {
    forall j | j in reg && reg[j].handles(path) ensures reg[bes[i]].priority <= reg[j].priority {
      var k :| 0 <= k < |bes| && bes[k] == j;
      assert i <= k;
      assert Priority(reg, bes[i]) <= Priority(reg, bes[k]);
    }
  }

  /** When no id of a list of all ids handles the path, no registered loader does. */
  lemma NoneInOrder(reg: map<StorageBackend, Loader>, bes: seq<StorageBackend>, path: string)
    requires forall id :: id in bes <==> id in reg
    requires forall k :: 0 <= k < |bes| ==> bes[k] in reg
    requires forall k :: 0 <= k < |bes| ==> !reg[bes[k]].handles(path)
    ensures !exists id :: id in reg && reg[id].handles(path)
  {
    forall id | id in reg ensures !reg[id].handles(path) {
      var k :| 0 <= k < |bes| && bes[k] == id;
    }
  }

  /** The candidate loop of `DetectStorage`: the index of the first id whose loader handles `path`. */
  method FirstHandling(reg: map<StorageBackend, Loader>, bes: seq<StorageBackend>, path: string) returns (i: nat)
    requires forall k :: 0 <= k < |bes| ==> bes[k] in reg
    ensures i <= |bes|
    ensures i < |bes| ==> reg[bes[i]].handles(path)
    ensures forall k :: 0 <= k < i ==> !reg[bes[k]].handles(path)
  {
    i := 0;
    while i < |bes|
      invariant 0 <= i <= |bes|
      invariant forall k :: 0 <= k < i ==> !reg[bes[k]].handles(path)
    {
      if reg[bes[i]].handles(path) {
        return;
      }
      i := i + 1;
    }
  }

  // ---------------------------------------------------------------------------------
  // The registry.

  class Registry {
    var storageRegistry: map<StorageBackend, Loader>
    var storageNameToBackend: map<string, StorageBackend>
    var storageBackendToName: map<StorageBackend, string>

    /** The three tables start empty; backends register themselves at program start. */
    constructor ()
      ensures storageRegistry == map[] && storageNameToBackend == map[] && storageBackendToName == map[]
    {
      storageRegistry := map[];
      storageNameToBackend := map[];
      storageBackendToName := map[];
    }

    /** `RegisterStorage`: all three tables learn the backend; a later call for an id overrides. */
    method RegisterStorage(id: StorageBackend, name: string, loader: Loader)
      modifies this
      ensures storageRegistry == old(storageRegistry)[id := loader]
      ensures storageNameToBackend == old(storageNameToBackend)[name := id]
      ensures storageBackendToName == old(storageBackendToName)[id := name]
      ensures id in storageRegistry && storageNameToBackend[name] == id && Name(id) == name
    {
      storageRegistry := storageRegistry[id := loader];
      storageNameToBackend := storageNameToBackend[name := id];
      storageBackendToName := storageBackendToName[id := name];
    }

    /**
     * `DetectStorage`: an override for a registered id first; otherwise the registered
     * loaders in ascending priority, the first that handles `path` opening it; otherwise
     * a fresh FS store. Go dereferences the FS loader without a check, so it must exist.
     */
    method DetectStorage(ctx: Context, path: string) returns (r: Result<Storage, Error>)
      requires FS in storageRegistry
      ensures Detected(storageRegistry, ctx, path, r)
    {
      if ctx.hasStorageBackend && ctx.storageBackend in storageRegistry {
        var be := storageRegistry[ctx.storageBackend];
        var st := be.newAt(path);
        if st.Ok? {
          return st;
        }
        return storageRegistry[FS].initAt(path);
      }
      var bes := IdsByPriority();
      var i := FirstHandling(storageRegistry, bes, path);
      if i < |bes| {
        FirstInOrder(storageRegistry, bes, i, path);
        return storageRegistry[bes[i]].newAt(path);
      }
      NoneInOrder(storageRegistry, bes, path);
      return storageRegistry[FS].initAt(path);
    }

    /** The registered ids sorted by their loaders' priorities (`sort.Slice` in Go). */
    method IdsByPriority() returns (bes: seq<StorageBackend>)
      ensures ByPriority(storageRegistry, bes)
      ensures forall id :: multiset(bes)[id] == if id in storageRegistry then 1 else 0
      ensures forall id :: id in bes <==> id in storageRegistry
      ensures forall k :: 0 <= k < |bes| ==> bes[k] in storageRegistry
    {
      var ids := RegisteredIds();
      SortByPriorityOrdered(storageRegistry, ids);
      bes := SortByPriority(storageRegistry, ids);
      SameMembers(ids, bes);
    }

    /** The ids of the registry, each once, collected in whatever order the map is walked. */
    method RegisteredIds() returns (ids: seq<StorageBackend>)
      ensures forall id :: multiset(ids)[id] == if id in storageRegistry then 1 else 0
      ensures forall id :: id in ids <==> id in storageRegistry
    {
      ids := [];
      var rest := storageRegistry.Keys;
      while rest != {}
        invariant rest <= storageRegistry.Keys
        invariant forall id :: multiset(ids)[id] == if id in storageRegistry && id !in rest then 1 else 0
        decreases |rest|
      {
        HasMember(rest);
        var id :| id in rest;
        ids := ids + [id];
        rest := rest - {id};
      }
      forall id ensures id in ids <==> id in storageRegistry {
        assert id in ids <==> id in multiset(ids);
      }
    }

    /** `NewStorage`: the registered loader opens `path`; an unknown id is `ErrNotFound`. */
    function NewStorage(id: StorageBackend, path: string): (r: Result<Storage, Error>)
      reads this
      ensures id in storageRegistry ==> r == storageRegistry[id].newAt(path)
      ensures id !in storageRegistry ==> r.Err? && r.error.Wrapped? && Wraps(r.error, BackendNotFound)
    {
      if id in storageRegistry then storageRegistry[id].newAt(path)
      else Err(Wrapped("unknown backend \"" + path + "\"", BackendNotFound))
    }

    /** `InitStorage`: the registered loader creates a store at `path`; an unknown id is `ErrNotFound`. */
    function InitStorage(id: StorageBackend, path: string): (r: Result<Storage, Error>)
      reads this
      ensures id in storageRegistry ==> r == storageRegistry[id].initAt(path)
      ensures id !in storageRegistry ==> r.Err? && r.error.Wrapped? && Wraps(r.error, BackendNotFound)
    {
      if id in storageRegistry then storageRegistry[id].initAt(path)
      else Err(Wrapped("unknown backend \"" + path + "\"", BackendNotFound))
    }

    /** `StorageBackend.String`: the registered name, or "" for an id never registered. */
    function Name(id: StorageBackend): (r: string)
      reads this
      ensures id in storageBackendToName ==> r == storageBackendToName[id]
      ensures id !in storageBackendToName ==> r == ""
    {
      if id in storageBackendToName then storageBackendToName[id] else ""
    }
  }

  // ---------------------------------------------------------------------------------
  // Properties of detection.

  /** No two registered loaders share a priority. */
  predicate DistinctPriorities(reg: map<StorageBackend, Loader>)
  {
    forall a, b :: a in reg && b in reg && a != b ==> reg[a].priority != reg[b].priority
  }

  /** With distinct priorities the result of detection is determined: the lowest handling priority wins. */
  lemma DetectionDeterministic(reg: map<StorageBackend, Loader>, ctx: Context, path: string, r1: Result<Storage, Error>, r2: Result<Storage, Error>)
    requires FS in reg && DistinctPriorities(reg)
    requires Detected(reg, ctx, path, r1) && Detected(reg, ctx, path, r2)
    ensures r1 == r2
  {
    if !(ctx.hasStorageBackend && ctx.storageBackend in reg) && exists id :: id in reg && reg[id].handles(path) {
      var a :| FirstHandler(reg, path, a) && r1 == reg[a].newAt(path);
      var b :| FirstHandler(reg, path, b) && r2 == reg[b].newAt(path);
      assert reg[a].priority <= reg[b].priority && reg[b].priority <= reg[a].priority;
    }
  }

  /** An override naming an id nobody registered changes nothing. */
  lemma UnregisteredOverrideIgnored(reg: map<StorageBackend, Loader>, ctx: Context, path: string, r: Result<Storage, Error>)
    requires FS in reg
    requires ctx.storageBackend !in reg
    ensures Detected(reg, ctx, path, r) <==> Detected(reg, ctx.(hasStorageBackend := false), path, r)
  {
  }

  /**
   * With the crypto loaders' priorities as fixtures (gpgcli 1, age 10): when both handle
   * the directory, the priority-1 loader opens it.
   */
  lemma PriorityOneBeforeTen(gpg: Loader, age: Loader, ctx: Context, path: string, r: Result<Storage, Error>)
    requires gpg.priority == 1 && age.priority == 10
    requires gpg.handles(path) && age.handles(path)
    requires !ctx.hasStorageBackend
    requires Detected(map[FS := age, GitFS := gpg], ctx, path, r)
    ensures r == gpg.newAt(path)
  {
    var reg := map[FS := age, GitFS := gpg];
    assert GitFS in reg && reg[GitFS].handles(path);
    var id :| FirstHandler(reg, path, id) && r == reg[id].newAt(path);
    assert reg[id].priority <= reg[GitFS].priority;
  }
}
