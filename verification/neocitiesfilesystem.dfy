/**
 * The Neocities side of a sync: filling a collection from the site
 * listing, uploading a batch of new files and deleting a batch of files.
 * The remote calls are answered by the `Io` oracles (`upload`, `remove`).
 */
module NeocitiesFilesystem {
  import opened Results
  import opened WebPath
  import opened Filesystem

  /** One row of the site listing. */
  datatype ListEntry = DirectoryEntry(path: string) | FileEntry(file: ApiFile)

  /** A collection after loading, with the next unused file identity. */
  datatype Loaded = Loaded(coll: Collection, nextId: FileId)

  /** The committed file made for a listed entry; `owner` is the back-reference it carries. */
  function ListedFile(e: ApiFile, id: FileId, owner: Option<CollectionId>): (r: File)
    ensures IsComplete(r) && r.backend.state.entry == e && r.rawPath == e.path
  {
    File(id, e.path, owner, Remote(Committed(e)))
  }

  /**
   * One iteration of `loadFromListing`: directories are skipped; a file
   * already held at the entry's path is committed in place; otherwise a
   * new committed file is added with back-reference `owner`.
   */
  function LoadEntry(c: Collection, e: ListEntry, nextId: FileId, owner: Option<CollectionId>): (r: Loaded)
    ensures e.DirectoryEntry? ==> r == Loaded(c, nextId)
    ensures r.coll.id == c.id && r.coll.kind == c.kind
    ensures e.FileEntry? && GetFromPath(c, e.file.path).Some? ==> r.nextId == nextId
    ensures e.FileEntry? && GetFromPath(c, e.file.path).None? ==>
      r == Loaded(AddFile(c, ListedFile(e.file, nextId, owner)), nextId + 1)
  {
    match e
    case DirectoryEntry(_) => Loaded(c, nextId)
    case FileEntry(a) =>
      var k := IndexOfPath(c.files, a.path);
      if k >= 0 then
        Loaded(c.(files := c.files[k := Commit(c.files[k], a)]), nextId)
      else
        Loaded(AddFile(c, ListedFile(a, nextId, owner)), nextId + 1)
  }

  /**
   * A listed file already held is confirmed in place: the entries keep
   * their identities and paths, and the lookup finds the committed file.
   */
  lemma LoadEntryCommitsInPlace(c: Collection, a: ApiFile, nextId: FileId, owner: Option<CollectionId>)
    requires GetFromPath(c, a.path).Some?
    ensures var r := LoadEntry(c, FileEntry(a), nextId, owner);
      && |r.coll.files| == |c.files|
      && (forall i :: 0 <= i < |c.files| ==>
            r.coll.files[i].id == c.files[i].id && WebsitePath(r.coll.files[i]) == WebsitePath(c.files[i]))
      && GetFromPath(r.coll, a.path) == Some(Commit(GetFromPath(c, a.path).value, a))
  {
    var k := IndexOfPath(c.files, a.path);
    var files' := c.files[k := Commit(c.files[k], a)];
    assert LoadEntry(c, FileEntry(a), nextId, owner).coll == c.(files := files');
    CommitAtKeeps(c.files, k, a);
    CommitAtLookup(c, k, a);
  }

  /** The lookup that found entry `k` finds its committed replacement. */
  lemma CommitAtLookup(c: Collection, k: int, a: ApiFile)
    requires 0 <= k && k == IndexOfPath(c.files, a.path)
    ensures GetFromPath(c, a.path) == Some(c.files[k])
    ensures GetFromPath(c.(files := c.files[k := Commit(c.files[k], a)]), a.path) == Some(Commit(c.files[k], a))
  {
    var files' := c.files[k := Commit(c.files[k], a)];
    CommitAtKeeps(c.files, k, a);
    SamePathsSameIndex(c.files, files', a.path);
  }

  /** Committing one entry in place keeps every entry's identity and path. */
  lemma CommitAtKeeps(files: seq<File>, k: int, a: ApiFile)
    requires 0 <= k < |files|
    ensures var files' := files[k := Commit(files[k], a)];
      && |files'| == |files|
      && forall i :: 0 <= i < |files| ==> files'[i].id == files[i].id && WebsitePath(files'[i]) == WebsitePath(files[i])
  {
  }

  /** Every entry of the listing in order, fresh files numbered from `nextId`. */
  function LoadAll(c: Collection, entries: seq<ListEntry>, nextId: FileId, owner: Option<CollectionId>): (r: Loaded)
    ensures r.coll.id == c.id && r.coll.kind == c.kind
    ensures r.nextId >= nextId
    decreases |entries|
  {
    if entries == [] then Loaded(c, nextId)
    else
      var step := LoadEntry(c, entries[0], nextId, owner);
      LoadAll(step.coll, entries[1..], step.nextId, owner)
  }

  /**
   * `loadFromListing` as written: the back-reference is set on an object
   * that is then dropped, and a second, unreferenced object is added, so
   * a newly listed file names no collection.
   */
  function LoadFromListing(c: Collection, entries: seq<ListEntry>, nextId: FileId): (r: Loaded)
    ensures r.coll.id == c.id && r.coll.kind == c.kind
  {
    LoadAll(c, entries, nextId, None)
  }

  /** `loadFromListing` as evidently intended: the added file names its collection. */
  function LoadFromListingIntended(c: Collection, entries: seq<ListEntry>, nextId: FileId): (r: Loaded)
    ensures r.coll.id == c.id && r.coll.kind == c.kind
  {
    LoadAll(c, entries, nextId, Some(c.id))
  }

  /** Committing an entry in place keeps every lookup where it was, and confirmed entries confirmed. */
  lemma CommitInPlaceKeeps(files: seq<File>, k: int, x: File, p: string)
    requires 0 <= k < |files| && WebsitePath(x) == WebsitePath(files[k]) && IsComplete(x)
    requires IndexOfPath(files, p) >= 0 && IsComplete(files[IndexOfPath(files, p)])
    ensures IndexOfPath(files[k := x], p) == IndexOfPath(files, p)
    ensures IsComplete(files[k := x][IndexOfPath(files, p)])
  {
    SamePathsSameIndex(files, files[k := x], p);
  }

  /** Adding a confirmed file keeps a confirmed lookup confirmed. */
  lemma AddConfirmedKeeps(c: Collection, f: File, p: string)
    requires IsComplete(f)
    requires GetFromPath(c, p).Some? && IsComplete(GetFromPath(c, p).value)
    ensures GetFromPath(AddFile(c, f), p).Some? && IsComplete(GetFromPath(AddFile(c, f), p).value)
  {
    var r := AddFile(c, f);
    FirstAtPath(r.files, p);
    if WebsitePath(f) != p {
      AddFileKeepsOthers(c, f, p);
      FirstAtPath(c.files, p);
    }
  }

  /** After a step, a path whose lookup found a confirmed file still does. */
  lemma LoadEntryKeepsCommitted(c: Collection, e: ListEntry, nextId: FileId, owner: Option<CollectionId>, p: string)
    requires GetFromPath(c, p).Some? && IsComplete(GetFromPath(c, p).value)
    ensures GetFromPath(LoadEntry(c, e, nextId, owner).coll, p).Some?
    ensures IsComplete(GetFromPath(LoadEntry(c, e, nextId, owner).coll, p).value)
  {
    if e.FileEntry? {
      var k := IndexOfPath(c.files, e.file.path);
      if k >= 0 {
        var x := Commit(c.files[k], e.file);
        var files' := c.files[k := x];
        assert LoadEntry(c, e, nextId, owner).coll == c.(files := files');
        assert IndexOfPath(c.files, p) >= 0;
        CommitInPlaceKeeps(c.files, k, x, p);
        assert GetFromPath(c.(files := files'), p) == Some(files'[IndexOfPath(c.files, p)]);
      } else {
        var f := ListedFile(e.file, nextId, owner);
        assert LoadEntry(c, e, nextId, owner).coll == AddFile(c, f);
        AddConfirmedKeeps(c, f, p);
      }
    }
  }

  /** A listed file path (without a leading '/') can be looked up and is confirmed after that entry. */
  lemma LoadEntryCommits(c: Collection, a: ApiFile, nextId: FileId, owner: Option<CollectionId>)
    requires !StartsWith(a.path, "/")
    ensures GetFromPath(LoadEntry(c, FileEntry(a), nextId, owner).coll, a.path).Some?
    ensures IsComplete(GetFromPath(LoadEntry(c, FileEntry(a), nextId, owner).coll, a.path).value)
  {
    if GetFromPath(c, a.path).Some? {
      LoadEntryCommitsInPlace(c, a, nextId, owner);
    } else {
      var f := ListedFile(a, nextId, owner);
      var r := AddFile(c, f);
      assert WebsitePath(f) == a.path;
      FirstAtPath(r.files, a.path);
    }
  }

  /** Once a path is confirmed, the rest of the listing keeps it confirmed. */
  lemma {:induction false} LoadAllKeepsCommitted(c: Collection, entries: seq<ListEntry>, nextId: FileId,
                                                 owner: Option<CollectionId>, p: string)
    requires GetFromPath(c, p).Some? && IsComplete(GetFromPath(c, p).value)
    ensures GetFromPath(LoadAll(c, entries, nextId, owner).coll, p).Some?
    ensures IsComplete(GetFromPath(LoadAll(c, entries, nextId, owner).coll, p).value)
    decreases |entries|
  {
    if entries != [] {
      var step := LoadEntry(c, entries[0], nextId, owner);
      LoadEntryKeepsCommitted(c, entries[0], nextId, owner, p);
      LoadAllKeepsCommitted(step.coll, entries[1..], step.nextId, owner, p);
    }
  }

  /** After loading, every listed file path (without a leading '/') resolves to a confirmed file. */
  lemma {:induction false} ListedPathsCommitted(c: Collection, entries: seq<ListEntry>, nextId: FileId,
                                                owner: Option<CollectionId>, i: int)
    requires 0 <= i < |entries| && entries[i].FileEntry? && !StartsWith(entries[i].file.path, "/")
    ensures GetFromPath(LoadAll(c, entries, nextId, owner).coll, entries[i].file.path).Some?
    ensures IsComplete(GetFromPath(LoadAll(c, entries, nextId, owner).coll, entries[i].file.path).value)
    decreases i
  {
    var step := LoadEntry(c, entries[0], nextId, owner);
    if i == 0 {
      LoadEntryCommits(c, entries[0].file, nextId, owner);
      LoadAllKeepsCommitted(step.coll, entries[1..], step.nextId, owner, entries[0].file.path);
    } else {
      assert entries[1..][i - 1] == entries[i];
      ListedPathsCommitted(step.coll, entries[1..], step.nextId, owner, i - 1);
    }
  }

  /** Loading a one-file listing into an empty collection yields exactly that file. */
  lemma LoadOneIntoEmpty(c: Collection, a: ApiFile, nextId: FileId, owner: Option<CollectionId>)
    requires c.files == []
    ensures LoadAll(c, [FileEntry(a)], nextId, owner).coll == c.(files := [ListedFile(a, nextId, owner)])
  {
    var step := LoadEntry(c, FileEntry(a), nextId, owner);
    assert LoadAll(c, [FileEntry(a)], nextId, owner) == LoadAll(step.coll, [], step.nextId, owner);
    AddAbsent(c, ListedFile(a, nextId, owner));
  }

  /** As written: a file the listing adds names no collection, so deleting it leaves it listed. */
  lemma ListedFileStaysAfterDelete(c: Collection, a: ApiFile, nextId: FileId, io: Io)
    requires c.files == []
    ensures var r := LoadFromListing(c, [FileEntry(a)], nextId).coll;
      r.files == [ListedFile(a, nextId, None)] && Delete(r.files[0], r, io).0 == r
  {
    LoadOneIntoEmpty(c, a, nextId, None);
  }

  /** As intended: the file names its collection, and deleting it removes it from the collection. */
  lemma IntendedListedFileLeavesOnDelete(c: Collection, a: ApiFile, nextId: FileId, io: Io)
    requires c.files == [] && !StartsWith(a.path, "/")
    ensures var r := LoadFromListingIntended(c, [FileEntry(a)], nextId).coll;
      r.files == [ListedFile(a, nextId, Some(c.id))] && GetFromPath(Delete(r.files[0], r, io).0, a.path).None?
  {
    LoadOneIntoEmpty(c, a, nextId, Some(c.id));
    var f := ListedFile(a, nextId, Some(c.id));
    var r := c.(files := [f]);
    assert WebsitePath(f) == a.path;
    FirstAtPath(Delete(f, r, io).0.files, a.path);
  }

  // ------------------------------------------------------------- uploading

  /** The committed file `uploadNewFiles` makes for `src`, at `src`'s website path. */
  function UploadedFile(src: File, hash: string, size: int, id: FileId): (r: File)
    ensures IsComplete(r) && r.rawPath == WebsitePath(src) && r.owner == None
    ensures r.backend.state.entry == ApiFile(WebsitePath(src), size, hash)
  {
    File(id, WebsitePath(src), None, Remote(Committed(ApiFile(WebsitePath(src), size, hash))))
  }

  /**
   * Why `src` cannot be uploaded, checked in the order the source asks:
   * its hash, its size, a clash with a held file (unless forced), opening it.
   */
  function UploadFailure(c: Collection, src: File, force: bool, io: Io): Option<Error> {
    if GetHash(src, io).Err? then Some(GetHash(src, io).error)
    else if GetSize(src, io).Err? then Some(GetSize(src, io).error)
    else if GetFromPath(c, WebsitePath(src)).Some? && !force then Some(AlreadyExists)
    else if ReadStream(src, io).Err? then Some(ReadStream(src, io).error)
    else None
  }

  /** The first loop of `uploadNewFiles`: one committed file per source file, or the first failure. */
  function PrepareUploads(c: Collection, files: seq<File>, force: bool, io: Io, nextId: FileId): (r: Answer<seq<File>>)
    ensures r.Ok? <==> forall i :: 0 <= i < |files| ==> UploadFailure(c, files[i], force, io).None?
    ensures r.Ok? ==> |r.value| == |files|
    ensures r.Ok? ==> forall i :: 0 <= i < |files| ==>
      r.value[i] == UploadedFile(files[i], GetHash(files[i], io).value, GetSize(files[i], io).value, nextId + i)
    decreases |files|
  {
    if files == [] then Ok([])
    else
      var f := files[0];
      match UploadFailure(c, f, force, io)
      case Some(e) => Err(e)
      case None =>
        match PrepareUploads(c, files[1..], force, io, nextId + 1)
        case Err(e) => Err(e)
        case Ok(rest) => Ok([UploadedFile(f, GetHash(f, io).value, GetSize(f, io).value, nextId)] + rest)
  }

  /** A failed preparation answers with the failure of the first file that cannot be uploaded. */
  lemma {:induction false} PrepareUploadsFirstFailure(c: Collection, files: seq<File>, force: bool, io: Io, nextId: FileId)
    requires PrepareUploads(c, files, force, io, nextId).Err?
    ensures var r := PrepareUploads(c, files, force, io, nextId);
      exists k :: 0 <= k < |files| && UploadFailure(c, files[k], force, io) == Some(r.error) &&
                  forall i :: 0 <= i < k ==> UploadFailure(c, files[i], force, io).None?
    decreases |files|
  {
    var r := PrepareUploads(c, files, force, io, nextId);
    if UploadFailure(c, files[0], force, io).Some? {
      assert UploadFailure(c, files[0], force, io) == Some(r.error);
    } else {
      PrepareUploadsFirstFailure(c, files[1..], force, io, nextId + 1);
      var k :| 0 <= k < |files[1..]| && UploadFailure(c, files[1..][k], force, io) == Some(r.error) &&
               forall i :: 0 <= i < k ==> UploadFailure(c, files[1..][i], force, io).None?;
      assert UploadFailure(c, files[k + 1], force, io) == Some(r.error);
      forall i | 0 <= i < k + 1
        ensures UploadFailure(c, files[i], force, io).None?
      {
        if i > 0 {
          assert files[i] == files[1..][i - 1];
        }
      }
    }
  }

  /** `addFile` of each file in order. */
  function AddAll(c: Collection, files: seq<File>): (r: Collection)
    ensures r.id == c.id && r.kind == c.kind
    decreases |files|
  {
    if files == [] then c else AddAll(AddFile(c, files[0]), files[1..])
  }

  /** The collection and the committed files of a finished upload. */
  datatype Uploaded = Uploaded(coll: Collection, files: seq<File>)

  /**
   * `uploadNewFiles`: prepare every file, make one upload call for all of
   * their paths, then add the new files. Any failure leaves the collection
   * as it was.
   */
  function UploadNewFiles(c: Collection, files: seq<File>, force: bool, io: Io, nextId: FileId): (r: Answer<Uploaded>)
    ensures r.Ok? ==> forall i :: 0 <= i < |files| ==> UploadFailure(c, files[i], force, io).None?
    ensures r.Ok? && !force ==> forall i :: 0 <= i < |files| ==> GetFromPath(c, WebsitePath(files[i])).None?
    ensures r.Ok? ==> r.value.coll.id == c.id && r.value.coll.kind == c.kind && |r.value.files| == |files|
    ensures r.Ok? ==> forall i :: 0 <= i < |files| ==>
      IsComplete(r.value.files[i]) && r.value.files[i].rawPath == WebsitePath(files[i])
    ensures PrepareUploads(c, files, force, io, nextId).Ok? ==>
      (r.Ok? <==> io.upload(Paths(PrepareUploads(c, files, force, io, nextId).value)).Ok?)
  {
    match PrepareUploads(c, files, force, io, nextId)
    case Err(e) => Err(e)
    case Ok(made) =>
      match io.upload(Paths(made))
      case Err(e) => Err(e)
      case Ok(_) => Ok(Uploaded(AddAll(c, made), made))
  }

  /** Adding a batch leaves untouched every path the batch does not use. */
  lemma {:induction false} AddAllKeepsOthers(c: Collection, files: seq<File>, q: string)
    requires forall i :: 0 <= i < |files| ==> WebsitePath(files[i]) != q
    ensures AtPath(AddAll(c, files).files, q) == AtPath(c.files, q)
    decreases |files|
  {
    if files != [] {
      AddFileKeepsOthers(c, files[0], q);
      AddAllKeepsOthers(AddFile(c, files[0]), files[1..], q);
    }
  }

  /** The last file of a batch at a path is the one entry at that path afterwards. */
  lemma {:induction false} AddAllLastWins(c: Collection, files: seq<File>, i: int)
    requires 0 <= i < |files|
    requires forall j :: i < j < |files| ==> WebsitePath(files[j]) != WebsitePath(files[i])
    ensures AtPath(AddAll(c, files).files, WebsitePath(files[i])) == [files[i]]
    decreases |files|
  {
    var rest := files[1..];
    if i == 0 {
      forall j | 0 <= j < |rest|
        ensures WebsitePath(rest[j]) != WebsitePath(files[0])
      {
        assert rest[j] == files[j + 1];
      }
      AddAllKeepsOthers(AddFile(c, files[0]), rest, WebsitePath(files[0]));
    } else {
      assert rest[i - 1] == files[i];
      forall j | i - 1 < j < |rest|
        ensures WebsitePath(rest[j]) != WebsitePath(rest[i - 1])
      {
        assert rest[j] == files[j + 1];
      }
      AddAllLastWins(AddFile(c, files[0]), rest, i - 1);
    }
  }

  /** A successful upload adds the prepared files and answers with them. */
  lemma UploadShape(c: Collection, files: seq<File>, force: bool, io: Io, nextId: FileId)
    requires UploadNewFiles(c, files, force, io, nextId).Ok?
    ensures PrepareUploads(c, files, force, io, nextId).Ok?
    ensures var made := PrepareUploads(c, files, force, io, nextId).value;
      UploadNewFiles(c, files, force, io, nextId).value == Uploaded(AddAll(c, made), made)
  {
  }

  /** A prepared file sits at its source's website path when that path has no leading '/'. */
  lemma PreparedPaths(c: Collection, files: seq<File>, force: bool, io: Io, nextId: FileId)
    requires PrepareUploads(c, files, force, io, nextId).Ok?
    requires forall j :: 0 <= j < |files| ==> !StartsWith(WebsitePath(files[j]), "/")
    ensures var made := PrepareUploads(c, files, force, io, nextId).value;
      |made| == |files| && forall j :: 0 <= j < |files| ==> WebsitePath(made[j]) == WebsitePath(files[j])
  {
    var made := PrepareUploads(c, files, force, io, nextId).value;
    forall j | 0 <= j < |files|
      ensures WebsitePath(made[j]) == WebsitePath(files[j])
    {
      assert made[j].rawPath == WebsitePath(files[j]);
    }
  }

  /**
   * After an upload, a file whose path no later file repeats is the one
   * entry at its path (paths are taken to have at most one leading '/').
   */
  lemma UploadedFilesAreHeld(c: Collection, files: seq<File>, force: bool, io: Io, nextId: FileId, i: int)
    requires 0 <= i < |files|
    requires forall j :: 0 <= j < |files| ==> !StartsWith(WebsitePath(files[j]), "/")
    requires forall j :: i < j < |files| ==> WebsitePath(files[j]) != WebsitePath(files[i])
    requires UploadNewFiles(c, files, force, io, nextId).Ok?
    ensures var u := UploadNewFiles(c, files, force, io, nextId).value;
      AtPath(u.coll.files, WebsitePath(files[i])) == [u.files[i]]
  {
    UploadShape(c, files, force, io, nextId);
    var made := PrepareUploads(c, files, force, io, nextId).value;
    PreparedPaths(c, files, force, io, nextId);
    AddAllLastWins(c, made, i);
  }

  /** Without `force`, a file whose path is held stops the whole upload. */
  lemma UploadRefusesHeldPath(c: Collection, files: seq<File>, io: Io, nextId: FileId, i: int)
    requires 0 <= i < |files| && GetFromPath(c, WebsitePath(files[i])).Some?
    ensures UploadNewFiles(c, files, false, io, nextId).Err?
  {
  }

  // -------------------------------------------------------------- deleting

  /** Every file is held by the collection (by identity). */
  function AllHeld(c: Collection, files: seq<File>): (r: bool)
    ensures r <==> forall i :: 0 <= i < |files| ==> ContainsFile(c, files[i])
    decreases |files|
  {
    if files == [] then true else ContainsFile(c, files[0]) && AllHeld(c, files[1..])
  }

  /**
   * `deleteFilesInBulk`: every file must be held by identity, then one
   * delete call goes out for all their paths. The collection itself is
   * never changed.
   */
  function DeleteFilesInBulk(c: Collection, files: seq<File>, io: Io): (r: Status)
    ensures (exists i :: 0 <= i < |files| && !ContainsFile(c, files[i])) ==> r == Err(NotInCollection)
    ensures (forall i :: 0 <= i < |files| ==> ContainsFile(c, files[i])) ==> r == io.remove(Paths(files))
  {
    if !AllHeld(c, files) then Err(NotInCollection) else io.remove(Paths(files))
  }

  /** A look-alike at a held path is still refused: the check is identity, not path. */
  lemma BulkDeleteRefusesLookalike(c: Collection, f: File, io: Io)
    requires GetFromPath(c, WebsitePath(f)).Some? && !ContainsFile(c, f)
    ensures DeleteFilesInBulk(c, [f], io) == Err(NotInCollection)
  {
  }
}
