/**
 * FilesystemFile and Filesystem: one closed file type covering every backend
 * (dummy, local disk, Neocities), and the sequence-backed collection that
 * keeps at most one entry per website path.
 */
module Filesystem {
  import opened Results
  import opened WebPath
  import Consts

  /** Object identity of a file: two values with the same id are the same JavaScript object. */
  type FileId = nat
  type CollectionId = nat

  /** A file entry of a Neocities listing (`NeocitiesApiFile`). */
  datatype ApiFile = ApiFile(path: string, size: int, hash: string)

  /** `isCommitted` of a remote file, with the listing entry that confirmed it. */
  datatype RemoteState = Uncommitted | Committed(entry: ApiFile)

  /** The class behind a FilesystemFile. */
  datatype Backend =
    | Dummy                                          // DummyFilesystemFile: every I/O method is unimplemented
    | LocalDisk(systemPath: string, writable: bool)  // LocalFilesystemFile, or its writable subclass
    | Remote(state: RemoteState)                     // Partial/CommittedNeocitiesFilesystemFile

  /**
   * A file: its identity, the path it was created with, the collection its
   * back-reference names (lookup only, never ownership) and its backend.
   */
  datatype File = File(id: FileId, rawPath: string, owner: Option<CollectionId>, backend: Backend)

  /** The class behind a Filesystem; the planner only asks whether it is Neocities. */
  datatype Kind = Plain | LocalDir(root: string) | Neocities

  /** A collection of files in iteration order. */
  datatype Collection = Collection(id: CollectionId, kind: Kind, files: seq<File>)

  /** What the disk and the network answer; nothing here decides those answers. */
  datatype Io = Io(
    hash: File -> Answer<string>,    // SHA-1 of the disk content, or what a remote refetch finds
    size: File -> Answer<int>,       // size on disk, or what a remote refetch finds
    read: File -> Status,            // fetching a remote file's content
    onDisk: File -> bool,            // something already exists at the file's disk path
    write: File -> Status,           // writing content to the file's disk path
    unlink: File -> Status,          // removing the file's disk path
    upload: seq<string> -> Status,   // one remote upload call for these website paths
    remove: seq<string> -> Status)   // one remote delete call for these website paths

  // ---------------------------------------------------------------- one file

  /** `getWebsitePath`: the raw path without its leading '/', if it has one. */
  function WebsitePath(f: File): string {
    StripLeadingSlash(f.rawPath)
  }

  /** `doesMatchPath`: exact equality with the stripped path. */
  predicate MatchesPath(f: File, p: string) {
    p == WebsitePath(f)
  }

  /**
   * A file answers to its raw path when that has no leading '/', and
   * otherwise to the raw path without it; to nothing else.
   */
  lemma MatchesRawPath(f: File, p: string)
    ensures MatchesPath(f, p) <==> "/" + p == f.rawPath || (p == f.rawPath && !StartsWith(p, "/"))
  {
    assert "/" + p == f.rawPath ==> p == ("/" + p)[1..];
  }

  /** A file created as "/" + q answers to q and never to "/" + q. */
  lemma MatchesStrippedOnly(f: File, q: string)
    requires f.rawPath == "/" + q
    ensures MatchesPath(f, q)
    ensures !MatchesPath(f, "/" + q)
  {
    StripUndoesSlash(q);
  }

  /** `getFileExtension`: never reaches into a directory name, and holds no dot. */
  function FileExtension(f: File): (r: string)
    ensures '/' !in r && '.' !in r
  {
    var p := WebsitePath(f);
    ExtensionHasNoSlash(p);
    ComponentExtensionAfterLastDot(Basename(p));
    Extension(p)
  }

  /**
   * `Array.prototype.includes` on a list of strings: a scan from the front.
   * `x` sits in the decreases clause only so that a literal list is not
   * unrolled against a symbolic `x` wherever the predicate is mentioned.
   */
  predicate Includes(list: seq<string>, x: string)
    decreases |list|, x
  {
    |list| > 0 && (list[0] == x || Includes(list[1..], x))
  }

  /** The scan finds `x` exactly when some entry is `x`. */
  lemma {:induction false} IncludesAt(list: seq<string>, x: string)
    ensures Includes(list, x) <==> exists i :: 0 <= i < |list| && list[i] == x
    decreases |list|
  {
    if |list| > 0 {
      IncludesAt(list[1..], x);
      if list[0] != x {
        if exists i :: 0 <= i < |list| && list[i] == x {
          var i :| 0 <= i < |list| && list[i] == x;
          assert list[1..][i - 1] == x;
        }
      }
    }
  }

  /** `getIsSupportedOnFree`: no extension, or one spelled exactly as on the free list. */
  predicate IsSupportedOnFree(f: File)
    ensures IsSupportedOnFree(f) <==>
      FileExtension(f) == "" || exists i :: 0 <= i < |Consts.FreeFileTypes| && Consts.FreeFileTypes[i] == FileExtension(f)
  {
    IncludesAt(Consts.FreeFileTypes, FileExtension(f));
    FileExtension(f) == "" || Includes(Consts.FreeFileTypes, FileExtension(f))
  }

  /** `getWebsitePathDirectoryName`: node's dirname of the website path, absent when it is ".". */
  function DirectoryName(f: File): (r: Option<string>)
    ensures r.Some? ==> r.value != "."
  {
    var d := Dirname(WebsitePath(f));
    if d == "." then None else Some(d)
  }

  /**
   * The directory name of a website path that does not start with '/' is
   * absent exactly when the trimmed path holds no '/', or its only '/'
   * follows a leading "." (node's dirname of "./x" is "."). When present,
   * it is the path up to the last '/' before any trailing ones. A website
   * path that still starts with '/' always has a directory name.
   */
  lemma DirectoryNameIsParent(f: File)
    ensures '/' !in WebsitePath(f) ==> DirectoryName(f) == None
    ensures var w, t := WebsitePath(f), TrimTrailingSlashes(WebsitePath(f));
      !StartsWith(w, "/") ==>
        (DirectoryName(f) == None <==> '/' !in t || (|t| >= 2 && t[..2] == "./" && '/' !in t[2..]))
    ensures StartsWith(WebsitePath(f), "/") ==> DirectoryName(f).Some?
    ensures var w, t, r := WebsitePath(f), TrimTrailingSlashes(WebsitePath(f)), DirectoryName(f);
      r.Some? && !StartsWith(w, "/") ==>
        0 < |r.value| < |t| && w[..|r.value|] == r.value && w[|r.value|] == '/' && '/' !in t[|r.value| + 1..]
  {
    var w := WebsitePath(f);
    if StartsWith(w, "/") {
      DirnameOfRooted(w);
    } else {
      DirnameOfRelative(w);
    }
  }

  /** `toString` of each file class. */
  function Label(f: File): (r: string)
    ensures |r| >= 2 && r[0] == '[' && r[|r| - 1] == ']'
  {
    match f.backend
    case Dummy => "[File " + WebsitePath(f) + "]"
    case LocalDisk(sp, writable) => if writable then "[LocalFile " + sp + "]" else "[Local File " + sp + "]"
    case Remote(_) => "[NeocitiesFile " + WebsitePath(f) + "]"
  }

  /** Two dummy files, or two Neocities files, print the same label exactly when their website paths agree. */
  lemma LabelsTellPathsApart(f: File, g: File)
    requires (f.backend.Dummy? && g.backend.Dummy?) || (f.backend.Remote? && g.backend.Remote?)
    ensures Label(f) == Label(g) <==> WebsitePath(f) == WebsitePath(g)
  {
    if Label(f) == Label(g) {
      var k := if f.backend.Dummy? then |"[File "| else |"[NeocitiesFile "|;
      assert WebsitePath(f) == Label(f)[k..|Label(f)| - 1];
      assert WebsitePath(g) == Label(g)[k..|Label(g)| - 1];
    }
  }

  /** `getIsComplete`: a listing has confirmed the remote file. */
  predicate IsComplete(f: File) {
    f.backend.Remote? && f.backend.state.Committed?
  }

  /** `commit`: the file takes the listing entry and becomes confirmed; identity and path stay. */
  function Commit(f: File, e: ApiFile): (r: File)
    ensures IsComplete(r) && r.backend.state.entry == e
    ensures r.id == f.id && r.rawPath == f.rawPath && r.owner == f.owner
  {
    f.(backend := Remote(Committed(e)))
  }

  /** `getHash`; a confirmed remote file answers from its entry without any I/O. */
  function GetHash(f: File, io: Io): (r: Answer<string>)
    ensures IsComplete(f) ==> r == Ok(f.backend.state.entry.hash)
    ensures f.backend.Dummy? ==> r == Err(Unimplemented)
  {
    match f.backend
    case Dummy => Err(Unimplemented)
    case LocalDisk(_, _) => io.hash(f)
    case Remote(Committed(e)) => Ok(e.hash)
    case Remote(Uncommitted) => io.hash(f)
  }

  /** `getSize`; a confirmed remote file answers from its entry without any I/O. */
  function GetSize(f: File, io: Io): (r: Answer<int>)
    ensures IsComplete(f) ==> r == Ok(f.backend.state.entry.size)
    ensures f.backend.Dummy? ==> r == Err(Unimplemented)
  {
    match f.backend
    case Dummy => Err(Unimplemented)
    case LocalDisk(_, _) => io.size(f)
    case Remote(Committed(e)) => Ok(e.size)
    case Remote(Uncommitted) => io.size(f)
  }

  /** The answers of a confirmed remote file are the same whatever the disk and network say. */
  lemma CompleteFileNeedsNoIo(f: File, io1: Io, io2: Io)
    requires IsComplete(f)
    ensures GetHash(f, io1) == GetHash(f, io2)
    ensures GetSize(f, io1) == GetSize(f, io2)
  {
  }

  /**
   * `readAsStream`: the base class reads through `readAsBuffer`, which is
   * unimplemented; a local file opens a lazy stream on its system path,
   * which cannot fail at that point; a Neocities file fetches its content.
   */
  function ReadStream(f: File, io: Io): (r: Status)
    ensures f.backend.Dummy? ==> r == Err(Unimplemented)
    ensures f.backend.LocalDisk? ==> r == Done
    ensures f.backend.Remote? ==> r == io.read(f)
  {
    match f.backend
    case Dummy => Err(Unimplemented)
    case LocalDisk(_, _) => Done
    case Remote(_) => io.read(f)
  }

  /** Opening a local file's stream asks nothing of the disk or the network. */
  lemma LocalStreamNeedsNoIo(f: File, io1: Io, io2: Io)
    requires f.backend.LocalDisk?
    ensures ReadStream(f, io1) == ReadStream(f, io2) == Done
  {
  }

  /** `_processDelete`: what removing the backing content answers. */
  function ProcessDelete(f: File, io: Io): (r: Status)
    ensures f.backend.Dummy? ==> r == Err(Unimplemented)
    ensures f.backend.LocalDisk? && !f.backend.writable ==> r == Err(ReadOnly)
    ensures f.backend.Remote? ==> r == io.remove([WebsitePath(f)])
  {
    match f.backend
    case Dummy => Err(Unimplemented)
    case LocalDisk(_, writable) => if writable then io.unlink(f) else Err(ReadOnly)
    case Remote(_) => io.remove([WebsitePath(f)])
  }

  /** `overwrite`: replaces existing content; a remote file must be confirmed first. */
  function Overwrite(f: File, io: Io): (r: Status)
    ensures f.backend.Remote? && !IsComplete(f) ==> r == Err(NotConfirmed)
    ensures IsComplete(f) ==> r == io.upload([WebsitePath(f)])
    ensures f.backend.LocalDisk? && !f.backend.writable ==> r == Err(ReadOnly)
    ensures f.backend.Dummy? ==> r == Err(Unimplemented)
  {
    match f.backend
    case Dummy => Err(Unimplemented)
    case LocalDisk(_, writable) => if writable then io.write(f) else Err(ReadOnly)
    case Remote(Uncommitted) => Err(NotConfirmed)
    case Remote(Committed(_)) => io.upload([WebsitePath(f)])
  }

  /**
   * `initiallyWrite`: create-only. A remote file refuses when confirmed and
   * otherwise delegates to `overwrite`, which refuses when unconfirmed.
   */
  function InitiallyWrite(f: File, io: Io): (r: Status)
    ensures IsComplete(f) ==> r == Err(AlreadyExists)
    ensures f.backend.Remote? && !IsComplete(f) ==> r == Overwrite(f, io)
    ensures f.backend.LocalDisk? && io.onDisk(f) ==> r == Err(AlreadyExists)
    ensures f.backend.Dummy? ==> r == Err(Unimplemented)
  {
    match f.backend
    case Dummy => Err(Unimplemented)
    case LocalDisk(_, _) => if io.onDisk(f) then Err(AlreadyExists) else io.write(f)
    case Remote(Committed(_)) => Err(AlreadyExists)
    case Remote(Uncommitted) => Overwrite(f, io)
  }

  /** A remote file can never be written for the first time: both of its states refuse. */
  lemma RemoteInitiallyWriteAlwaysFails(f: File, io: Io)
    requires f.backend.Remote?
    ensures InitiallyWrite(f, io).Err?
    ensures InitiallyWrite(f, io).error == (if IsComplete(f) then AlreadyExists else NotConfirmed)
  {
  }

  /** `clone`: a disconnected copy with a new identity; only a local file keeps its class (read-only). */
  function CloneFile(f: File, id: FileId): (r: File)
    ensures r.id == id && r.rawPath == f.rawPath && r.owner == None
    ensures WebsitePath(r) == WebsitePath(f)
    ensures !r.backend.Remote?
    ensures r.backend.LocalDisk? <==> f.backend.LocalDisk?
  {
    match f.backend
    case LocalDisk(sp, _) => File(id, f.rawPath, None, LocalDisk(sp, false))
    case _ => File(id, f.rawPath, None, Dummy)
  }

  // ---------------------------------------------------------- the collection

  /** The entries answering to `p`, in order. */
  function AtPath(files: seq<File>, p: string): (r: seq<File>)
    ensures |r| <= |files|
  {
    if files == [] then []
    else (if MatchesPath(files[0], p) then [files[0]] else []) + AtPath(files[1..], p)
  }

  /** The entries not answering to `p`, in order. */
  function WithoutPath(files: seq<File>, p: string): (r: seq<File>)
    ensures |r| <= |files|
  {
    if files == [] then []
    else (if MatchesPath(files[0], p) then [] else [files[0]]) + WithoutPath(files[1..], p)
  }

  /** The entries at `p` are exactly the entries answering to `p`. */
  lemma {:induction false} AtPathMembers(files: seq<File>, p: string)
    ensures forall g :: g in AtPath(files, p) <==> g in files && MatchesPath(g, p)
    decreases |files|
  {
    if files != [] {
      AtPathMembers(files[1..], p);
      assert forall g :: g in files <==> g == files[0] || g in files[1..];
    }
  }

  /** The entries kept are exactly the entries not answering to `p`. */
  lemma {:induction false} WithoutPathMembers(files: seq<File>, p: string)
    ensures forall g :: g in WithoutPath(files, p) <==> g in files && !MatchesPath(g, p)
    decreases |files|
  {
    if files != [] {
      WithoutPathMembers(files[1..], p);
      assert forall g :: g in files <==> g == files[0] || g in files[1..];
    }
  }

  /** The collection invariant: no two entries share a website path. */
  predicate PathUnique(files: seq<File>) {
    forall i, j :: 0 <= i < j < |files| ==> WebsitePath(files[i]) != WebsitePath(files[j])
  }

  /** No two entries are the same object. */
  predicate DistinctIds(files: seq<File>) {
    forall i, j :: 0 <= i < j < |files| ==> files[i].id != files[j].id
  }

  /** Index of the first entry answering to `p`, or -1. */
  function IndexOfPath(files: seq<File>, p: string): (r: int)
    ensures -1 <= r < |files|
    ensures r >= 0 ==> MatchesPath(files[r], p)
    ensures forall k :: 0 <= k < |files| && (r < 0 || k < r) ==> !MatchesPath(files[k], p)
  {
    if |files| == 0 then -1
    else if MatchesPath(files[0], p) then 0
    else
      var k := IndexOfPath(files[1..], p);
      if k < 0 then -1 else k + 1
  }

  /** `getFromPath`: the first entry answering to `p`, or null. */
  function GetFromPath(c: Collection, p: string): (r: Option<File>)
    ensures r.None? <==> forall k :: 0 <= k < |c.files| ==> !MatchesPath(c.files[k], p)
    ensures r.Some? ==>
      exists k :: 0 <= k < |c.files| && c.files[k] == r.value && MatchesPath(r.value, p) &&
                  forall j :: 0 <= j < k ==> !MatchesPath(c.files[j], p)
  {
    var k := IndexOfPath(c.files, p);
    if k < 0 then None else Some(c.files[k])
  }

  /** Linear scan for an entry that is the very object with identity `id`. */
  function HasId(files: seq<File>, id: FileId): (r: bool)
    ensures r <==> exists k :: 0 <= k < |files| && files[k].id == id
  {
    if files == [] then false
    else files[0].id == id || HasId(files[1..], id)
  }

  /** `getIfContainsFile`: identity, not path. */
  predicate ContainsFile(c: Collection, f: File) {
    HasId(c.files, f.id)
  }

  /** `addFile`: every entry at the new file's path goes, then the file is appended. */
  function AddFile(c: Collection, f: File): (r: Collection)
    ensures r.id == c.id && r.kind == c.kind
    ensures |r.files| > 0 && r.files[|r.files| - 1] == f
    ensures AtPath(r.files, WebsitePath(f)) == [f]
  {
    AtPathAppend(WithoutPath(c.files, WebsitePath(f)), [f], WebsitePath(f));
    AtPathOfWithout(c.files, WebsitePath(f), WebsitePath(f));
    c.(files := WithoutPath(c.files, WebsitePath(f)) + [f])
  }

  /** `removeFile`: every entry at the file's path goes, whatever its identity. */
  function RemoveFile(c: Collection, f: File): (r: Collection)
    ensures r.id == c.id && r.kind == c.kind
    ensures AtPath(r.files, WebsitePath(f)) == []
    ensures |r.files| + |AtPath(c.files, WebsitePath(f))| == |c.files|
  {
    AtPathOfWithout(c.files, WebsitePath(f), WebsitePath(f));
    SplitByPath(c.files, WebsitePath(f));
    c.(files := WithoutPath(c.files, WebsitePath(f)))
  }

  /** The entries `keep` accepts, in order. */
  function Keep(files: seq<File>, keep: File -> bool): (r: seq<File>)
    ensures forall g :: g in r <==> g in files && keep(g)
    ensures |r| <= |files|
  {
    if files == [] then []
    else (if keep(files[0]) then [files[0]] else []) + Keep(files[1..], keep)
  }

  /** `filter`: the collection keeps exactly the accepted entries. */
  function FilterFiles(c: Collection, keep: File -> bool): (r: Collection)
    ensures r.id == c.id && r.kind == c.kind
    ensures forall g :: g in r.files <==> g in c.files && keep(g)
  {
    c.(files := Keep(c.files, keep))
  }

  /**
   * `createUncommittedFile` of each collection class: a placeholder for a
   * path. The base class registers its back-reference; the local and
   * Neocities classes do not. None of them adds the file to the collection.
   */
  function CreateUncommittedFile(c: Collection, p: string, id: FileId): (r: File)
    ensures r.id == id && r.rawPath == p
    ensures c.kind.Neocities? ==> r.backend == Remote(Uncommitted) && r.owner == None
    ensures c.kind.Plain? ==> r.backend == Dummy && r.owner == Some(c.id)
    ensures c.kind.LocalDir? ==> r.backend.LocalDisk? && !r.backend.writable && r.owner == None
    ensures !HasId(c.files, id) ==> !ContainsFile(c, r)
  {
    match c.kind
    case Plain => File(id, p, Some(c.id), Dummy)
    case LocalDir(root) => File(id, p, None, LocalDisk(root + "/" + p, false))
    case Neocities => File(id, p, None, Remote(Uncommitted))
  }

  /**
   * `delete`: the file leaves the collection its back-reference names, by
   * path, before the backend is asked; `holder` is that collection's current
   * value (any other collection is returned unchanged).
   */
  function Delete(f: File, holder: Collection, io: Io): (r: (Collection, Status))
    ensures f.owner == Some(holder.id) ==> r.0 == RemoveFile(holder, f)
    ensures f.owner != Some(holder.id) ==> r.0 == holder
    ensures r.1 == ProcessDelete(f, io)
  {
    var after := if f.owner == Some(holder.id) then RemoveFile(holder, f) else holder;
    (after, ProcessDelete(f, io))
  }

  /** Unregistering happens even when the backend refuses: a read-only local file still leaves. */
  lemma DeleteUnregistersEvenOnFailure(f: File, holder: Collection, io: Io)
    requires f.owner == Some(holder.id)
    requires f.backend.LocalDisk? && !f.backend.writable
    ensures Delete(f, holder, io).1 == Err(ReadOnly)
    ensures AtPath(Delete(f, holder, io).0.files, WebsitePath(f)) == []
  {
  }

  /** `clone` of a collection: a Plain collection filled through `addFile` with clones. */
  function CloneInto(target: Collection, files: seq<File>, nextId: FileId): Collection
    decreases |files|
  {
    if files == [] then target
    else CloneInto(AddFile(target, CloneFile(files[0], nextId)), files[1..], nextId + 1)
  }

  /**
   * `clone`: a plain collection holding a clone of each entry, added in
   * order; with one entry per path, that is exactly the clones in order.
   */
  function Clone(c: Collection, newId: CollectionId, firstFileId: FileId): (r: Collection)
    ensures r.kind == Plain
    ensures PathUnique(c.files) ==> r.files == Clones(c.files, firstFileId)
  {
    var e := Collection(newId, Plain, []);
    if PathUnique(c.files) then
      UniquePathsDistinct(c.files);
      assert Paths(e.files) + Paths(c.files) == Paths(c.files);
      CloneCopiesEveryEntry(e, c.files, firstFileId);
      CloneInto(e, c.files, firstFileId)
    else
      CloneIntoKind(e, c.files, firstFileId);
      CloneInto(e, c.files, firstFileId)
  }

  // ------------------------------------------------------------------ lemmas

  lemma {:induction false} AtPathAppend(a: seq<File>, b: seq<File>, p: string)
    ensures AtPath(a + b, p) == AtPath(a, p) + AtPath(b, p)
    decreases |a|
  {
    if a == [] {
      assert a + b == b;
    } else {
      assert (a + b)[0] == a[0];
      assert (a + b)[1..] == a[1..] + b;
      AtPathAppend(a[1..], b, p);
      var h := if MatchesPath(a[0], p) then [a[0]] else [];
      assert AtPath(a + b, p) == h + AtPath(a[1..] + b, p);
      assert AtPath(a, p) == h + AtPath(a[1..], p);
      assert h + (AtPath(a[1..], p) + AtPath(b, p)) == (h + AtPath(a[1..], p)) + AtPath(b, p);
    }
  }

  lemma {:induction false} WithoutPathAppend(a: seq<File>, b: seq<File>, p: string)
    ensures WithoutPath(a + b, p) == WithoutPath(a, p) + WithoutPath(b, p)
    decreases |a|
  {
    if a == [] {
      assert a + b == b;
    } else {
      assert (a + b)[0] == a[0];
      assert (a + b)[1..] == a[1..] + b;
      WithoutPathAppend(a[1..], b, p);
      var h := if MatchesPath(a[0], p) then [] else [a[0]];
      assert WithoutPath(a + b, p) == h + WithoutPath(a[1..] + b, p);
      assert WithoutPath(a, p) == h + WithoutPath(a[1..], p);
      assert h + (WithoutPath(a[1..], p) + WithoutPath(b, p)) == (h + WithoutPath(a[1..], p)) + WithoutPath(b, p);
    }
  }

  lemma {:induction false} KeepAppend(a: seq<File>, b: seq<File>, keep: File -> bool)
    ensures Keep(a + b, keep) == Keep(a, keep) + Keep(b, keep)
    decreases |a|
  {
    if a == [] {
      assert a + b == b;
    } else {
      assert (a + b)[0] == a[0];
      assert (a + b)[1..] == a[1..] + b;
      KeepAppend(a[1..], b, keep);
      var h := if keep(a[0]) then [a[0]] else [];
      assert Keep(a + b, keep) == h + Keep(a[1..] + b, keep);
      assert Keep(a, keep) == h + Keep(a[1..], keep);
      assert h + (Keep(a[1..], keep) + Keep(b, keep)) == (h + Keep(a[1..], keep)) + Keep(b, keep);
    }
  }

  /** Removing `p` leaves no entry at `p` and every other path's entries as they were. */
  lemma {:induction false} AtPathOfWithout(s: seq<File>, p: string, q: string)
    ensures AtPath(WithoutPath(s, p), q) == if p == q then [] else AtPath(s, q)
  {
    if s != [] {
      AtPathOfWithout(s[1..], p, q);
      var head := if MatchesPath(s[0], p) then [] else [s[0]];
      AtPathAppend(head, WithoutPath(s[1..], p), q);
    }
  }

  /** Every entry is either at `p` or not. */
  lemma {:induction false} SplitByPath(s: seq<File>, p: string)
    ensures |AtPath(s, p)| + |WithoutPath(s, p)| == |s|
  {
    if s != [] {
      SplitByPath(s[1..], p);
    }
  }

  /** Removing a path twice is removing it once. */
  lemma {:induction false} WithoutPathIdempotent(s: seq<File>, p: string)
    ensures WithoutPath(WithoutPath(s, p), p) == WithoutPath(s, p)
  {
    if s != [] {
      WithoutPathIdempotent(s[1..], p);
      var head := if MatchesPath(s[0], p) then [] else [s[0]];
      WithoutPathAppend(head, WithoutPath(s[1..], p), p);
    }
  }

  /** Nothing at `p` means nothing to remove. */
  lemma {:induction false} WithoutAbsentPath(s: seq<File>, p: string)
    requires forall g :: g in s ==> !MatchesPath(g, p)
    ensures WithoutPath(s, p) == s
  {
    if s != [] {
      WithoutAbsentPath(s[1..], p);
    }
  }

  /** The backward splice loop of `addFile`/`removeFile` computes WithoutPath. */
  method SpliceOutPath(files: seq<File>, p: string) returns (out: seq<File>)
    ensures forall g :: g in out <==> g in files && !MatchesPath(g, p)
    ensures out == WithoutPath(files, p)
  {
    out := files;
    var i := |files| - 1;
    while i >= 0
      invariant -1 <= i < |files|
      invariant out == files[..i + 1] + WithoutPath(files[i + 1..], p)
    {
      SpliceStep(files, out, i, p);
      if MatchesPath(out[i], p) {
        out := out[..i] + out[i + 1..];
      }
      i := i - 1;
    }
    WithoutPathMembers(files, p);
  }

  /** One iteration of the backward loop: the entry at `i` joins the processed suffix, or is spliced out. */
  lemma SpliceStep(files: seq<File>, out: seq<File>, i: int, p: string)
    requires 0 <= i < |files|
    requires out == files[..i + 1] + WithoutPath(files[i + 1..], p)
    ensures i < |out| && out[i] == files[i]
    ensures MatchesPath(files[i], p) ==> out[..i] + out[i + 1..] == files[..i] + WithoutPath(files[i..], p)
    ensures !MatchesPath(files[i], p) ==> out == files[..i] + WithoutPath(files[i..], p)
  {
    var w := WithoutPath(files[i + 1..], p);
    SpliceParts(files, w, i);
    if MatchesPath(files[i], p) {
      assert out[..i] + out[i + 1..] == files[..i] + WithoutPath(files[i..], p) by {
        WithoutPathAt(files, i, p);
        assert [] + w == w;
      }
    } else {
      assert out == files[..i] + WithoutPath(files[i..], p) by {
        WithoutPathAt(files, i, p);
        assert files[..i + 1] == files[..i] + [files[i]];
        assert files[..i] + [files[i]] + w == files[..i] + ([files[i]] + w);
      }
    }
  }

  /** The three parts of `files[..i + 1] + w`. */
  lemma SpliceParts(files: seq<File>, w: seq<File>, i: int)
    requires 0 <= i < |files|
    ensures var out := files[..i + 1] + w;
      i < |out| && out[..i] == files[..i] && out[i] == files[i] && out[i + 1..] == w
  {
  }

  /** `WithoutPath` from index `i` decides on `files[i]`, then carries on from `i + 1`. */
  lemma WithoutPathAt(files: seq<File>, i: int, p: string)
    requires 0 <= i < |files|
    ensures WithoutPath(files[i..], p) ==
      (if MatchesPath(files[i], p) then [] else [files[i]]) + WithoutPath(files[i + 1..], p)
  {
    assert files[i..][1..] == files[i + 1..];
  }

  /** After `addFile`, every other path has the same entries, and all other entries keep their order. */
  lemma AddFileKeepsOthers(c: Collection, f: File, q: string)
    ensures q != WebsitePath(f) ==> AtPath(AddFile(c, f).files, q) == AtPath(c.files, q)
    ensures WithoutPath(AddFile(c, f).files, WebsitePath(f)) == WithoutPath(c.files, WebsitePath(f))
  {
    var p := WebsitePath(f);
    AtPathAppend(WithoutPath(c.files, p), [f], q);
    AtPathOfWithout(c.files, p, q);
    WithoutPathAppend(WithoutPath(c.files, p), [f], p);
    WithoutPathIdempotent(c.files, p);
  }

  /** `addFile` keeps the collection invariant. */
  lemma AddFilePreservesUnique(c: Collection, f: File)
    requires PathUnique(c.files)
    ensures PathUnique(AddFile(c, f).files)
  {
    var rest := WithoutPath(c.files, WebsitePath(f));
    var r := AddFile(c, f).files;
    assert r == rest + [f];
    WithoutPathSubsequence(c.files, WebsitePath(f));
    WithoutPathMembers(c.files, WebsitePath(f));
    forall i, j | 0 <= i < j < |r|
      ensures WebsitePath(r[i]) != WebsitePath(r[j])
    {
      if j == |r| - 1 {
        assert r[i] in rest;
      }
    }
  }

  /** WithoutPath keeps a subsequence, so uniqueness survives it. */
  lemma {:induction false} WithoutPathSubsequence(s: seq<File>, p: string)
    requires PathUnique(s)
    ensures PathUnique(WithoutPath(s, p))
  {
    if s != [] {
      assert PathUnique(s[1..]) by {
        forall i, j | 0 <= i < j < |s[1..]|
          ensures WebsitePath(s[1..][i]) != WebsitePath(s[1..][j])
        {
          assert s[1..][i] == s[i + 1] && s[1..][j] == s[j + 1];
        }
      }
      WithoutPathSubsequence(s[1..], p);
      WithoutPathMembers(s[1..], p);
      var rest := WithoutPath(s[1..], p);
      if !MatchesPath(s[0], p) {
        var r := [s[0]] + rest;
        forall i, j | 0 <= i < j < |r|
          ensures WebsitePath(r[i]) != WebsitePath(r[j])
        {
          if i == 0 {
            assert r[j] in rest;
            var k :| 0 <= k < |s[1..]| && s[1..][k] == r[j];
            assert s[k + 1] == r[j];
          } else {
            assert r[i] == rest[i - 1] && r[j] == rest[j - 1];
          }
        }
      }
    }
  }

  /** Adding any file to a path-unique collection leaves exactly one entry at every path it has. */
  lemma AddFileNeverDuplicates(c: Collection, f: File, q: string)
    requires PathUnique(c.files)
    ensures |AtPath(AddFile(c, f).files, q)| <= 1
  {
    AddFilePreservesUnique(c, f);
    UniqueAtMostOne(AddFile(c, f).files, q);
  }

  lemma {:induction false} UniqueAtMostOne(s: seq<File>, q: string)
    requires PathUnique(s)
    ensures |AtPath(s, q)| <= 1
  {
    if s != [] {
      assert PathUnique(s[1..]) by {
        forall i, j | 0 <= i < j < |s[1..]|
          ensures WebsitePath(s[1..][i]) != WebsitePath(s[1..][j])
        {
          assert s[1..][i] == s[i + 1] && s[1..][j] == s[j + 1];
        }
      }
      UniqueAtMostOne(s[1..], q);
      if MatchesPath(s[0], q) {
        forall g | g in s[1..]
          ensures !MatchesPath(g, q)
        {
          var k :| 0 <= k < |s[1..]| && s[1..][k] == g;
          assert s[k + 1] == g;
        }
        AtPathAbsent(s[1..], q);
      }
    }
  }

  /** Nothing answers to `q`: nothing is at `q`. */
  lemma {:induction false} AtPathAbsent(s: seq<File>, q: string)
    requires forall g :: g in s ==> !MatchesPath(g, q)
    ensures AtPath(s, q) == []
  {
    if s != [] {
      AtPathAbsent(s[1..], q);
    }
  }

  /** `removeFile` compares paths, not identity: any file at the same path removes the same entries. */
  lemma RemoveByPathNotIdentity(c: Collection, f: File, g: File)
    requires WebsitePath(f) == WebsitePath(g)
    ensures RemoveFile(c, f) == RemoveFile(c, g)
  {
  }

  /** `removeFile` leaves every other path's entries, and the order of everything left, alone. */
  lemma RemoveFileKeepsOthers(c: Collection, f: File, q: string)
    ensures q != WebsitePath(f) ==> AtPath(RemoveFile(c, f).files, q) == AtPath(c.files, q)
    ensures RemoveFile(c, f).files == WithoutPath(c.files, WebsitePath(f))
  {
    AtPathOfWithout(c.files, WebsitePath(f), q);
  }

  /** `filter` keeps the original order: it distributes over concatenation and decides one entry at a time. */
  lemma FilterKeepsOrder(a: seq<File>, b: seq<File>, x: File, keep: File -> bool)
    ensures Keep(a + b, keep) == Keep(a, keep) + Keep(b, keep)
    ensures Keep([x], keep) == if keep(x) then [x] else []
  {
    KeepAppend(a, b, keep);
  }

  /** `getFromPath` answers with the first of the entries at the path. */
  lemma {:induction false} FirstAtPath(files: seq<File>, p: string)
    ensures IndexOfPath(files, p) < 0 <==> AtPath(files, p) == []
    ensures IndexOfPath(files, p) >= 0 ==> AtPath(files, p)[0] == files[IndexOfPath(files, p)]
  {
    if files != [] && !MatchesPath(files[0], p) {
      FirstAtPath(files[1..], p);
    }
  }

  /** Lookup by path only sees website paths: entries replaced by same-path entries keep their places. */
  lemma SamePathsSameIndex(a: seq<File>, b: seq<File>, p: string)
    requires |a| == |b|
    requires forall i :: 0 <= i < |a| ==> WebsitePath(a[i]) == WebsitePath(b[i])
    ensures IndexOfPath(a, p) == IndexOfPath(b, p)
  {
    var i, j := IndexOfPath(a, p), IndexOfPath(b, p);
    if i >= 0 { assert MatchesPath(b[i], p); }
    if j >= 0 { assert MatchesPath(a[j], p); }
  }

  /** The clones of `files`, with consecutive identities. */
  function Clones(files: seq<File>, nextId: FileId): seq<File>
    decreases |files|
  {
    if files == [] then [] else [CloneFile(files[0], nextId)] + Clones(files[1..], nextId + 1)
  }

  /** The website paths of `files`, in order. */
  function Paths(files: seq<File>): (r: seq<string>)
    ensures |r| == |files|
    ensures forall i :: 0 <= i < |files| ==> r[i] == WebsitePath(files[i])
  {
    seq(|files|, i requires 0 <= i < |files| => WebsitePath(files[i]))
  }

  predicate Distinct(xs: seq<string>) {
    forall i, j :: 0 <= i < j < |xs| ==> xs[i] != xs[j]
  }

  /** Adding a file whose path is absent simply appends it. */
  lemma AddAbsent(t: Collection, f: File)
    requires WebsitePath(f) !in Paths(t.files)
    ensures AddFile(t, f).files == t.files + [f]
  {
    forall g | g in t.files
      ensures !MatchesPath(g, WebsitePath(f))
    {
      var i :| 0 <= i < |t.files| && t.files[i] == g;
      assert Paths(t.files)[i] == WebsitePath(g);
    }
    WithoutAbsentPath(t.files, WebsitePath(f));
  }

  /** One entry per path means the list of paths has no repeat. */
  lemma UniquePathsDistinct(files: seq<File>)
    requires PathUnique(files)
    ensures Distinct(Paths(files))
  {
    var ps := Paths(files);
    forall i, j | 0 <= i < j < |ps|
      ensures ps[i] != ps[j]
    {
      assert ps[i] == WebsitePath(files[i]) && ps[j] == WebsitePath(files[j]);
    }
  }

  /** Cloning into a collection keeps its class. */
  lemma {:induction false} CloneIntoKind(target: Collection, files: seq<File>, nextId: FileId)
    ensures CloneInto(target, files, nextId).kind == target.kind
    decreases |files|
  {
    if files != [] {
      CloneIntoKind(AddFile(target, CloneFile(files[0], nextId)), files[1..], nextId + 1);
    }
  }

  /** Cloning into a collection that shares no path with `files` appends their clones in order. */
  lemma {:induction false} CloneCopiesEveryEntry(target: Collection, files: seq<File>, nextId: FileId)
    requires Distinct(Paths(target.files) + Paths(files))
    ensures CloneInto(target, files, nextId).files == target.files + Clones(files, nextId)
    ensures CloneInto(target, files, nextId).kind == target.kind
    decreases |files|
  {
    if files != [] {
      var cl := CloneFile(files[0], nextId);
      ClonePathStep(target.files, files, cl);
      AddAbsent(target, cl);
      var next := AddFile(target, cl);
      assert CloneInto(target, files, nextId) == CloneInto(next, files[1..], nextId + 1);
      CloneCopiesEveryEntry(next, files[1..], nextId + 1);
      ClonesCons(files, nextId);
      AppendShift(target.files, cl, Clones(files[1..], nextId + 1));
    }
  }

  /** `Clones` peels one clone off the front. */
  lemma ClonesCons(files: seq<File>, nextId: FileId)
    requires files != []
    ensures Clones(files, nextId) == [CloneFile(files[0], nextId)] + Clones(files[1..], nextId + 1)
  {
  }

  lemma AppendShift(t: seq<File>, x: File, rest: seq<File>)
    ensures (t + [x]) + rest == t + ([x] + rest)
  {
  }

  /** The i-th clone is the clone of the i-th file, with identity `nextId + i`. */
  lemma {:induction false} ClonesAt(files: seq<File>, nextId: FileId)
    ensures |Clones(files, nextId)| == |files|
    ensures forall i :: 0 <= i < |files| ==> Clones(files, nextId)[i] == CloneFile(files[i], nextId + i)
    decreases |files|
  {
    if files != [] {
      ClonesAt(files[1..], nextId + 1);
    }
  }

  /** The path bookkeeping of one cloning step. */
  lemma ClonePathStep(done: seq<File>, files: seq<File>, cl: File)
    requires files != [] && WebsitePath(cl) == WebsitePath(files[0])
    requires Distinct(Paths(done) + Paths(files))
    ensures WebsitePath(cl) !in Paths(done)
    ensures Distinct(Paths(done + [cl]) + Paths(files[1..]))
  {
    var all := Paths(done) + Paths(files);
    assert all[|done|] == WebsitePath(cl);
    forall i | 0 <= i < |done|
      ensures Paths(done)[i] != WebsitePath(cl)
    {
      assert all[i] == Paths(done)[i];
    }
    var d, q := done + [cl], Paths(done + [cl]) + Paths(files[1..]);
    assert |q| == |all|;
    forall k | 0 <= k < |q|
      ensures q[k] == all[k]
    {
      if k < |done| {
        assert d[k] == done[k];
      } else if k > |done| {
        assert files[1..][k - |done| - 1] == files[k - |done|];
      }
    }
    assert q == all;
  }

  /** `clone` of a path-unique collection: same length, same website paths in order, all disconnected. */
  lemma CloneKeepsPaths(c: Collection, newId: CollectionId, firstFileId: FileId)
    requires PathUnique(c.files)
    ensures var r := Clone(c, newId, firstFileId);
      r.kind == Plain && |r.files| == |c.files|
      && forall i :: 0 <= i < |c.files| ==>
        WebsitePath(r.files[i]) == WebsitePath(c.files[i]) && r.files[i].owner == None
        && r.files[i].id == firstFileId + i
  {
    ClonesAt(c.files, firstFileId);
    var r := Clone(c, newId, firstFileId);
    assert r.files == Clones(c.files, firstFileId);
    forall i | 0 <= i < |c.files|
      ensures WebsitePath(r.files[i]) == WebsitePath(c.files[i]) && r.files[i].owner == None
      ensures r.files[i].id == firstFileId + i
    {
      assert r.files[i] == CloneFile(c.files[i], firstFileId + i);
    }
  }

  // ----------------------------------------------------------------- examples

  /** Extensions the project's tests rely on. */
  lemma HtmlExtension()
    ensures Extension("index.html") == "html"
  {
    assert "index" + "." + "html" == "index.html";
    ExtensionOfName("index", "html");
  }

  lemma MpThreeExtension()
    ensures Extension("audio.mp3") == "mp3"
  {
    assert "audio" + "." + "mp3" == "audio.mp3";
    ExtensionOfName("audio", "mp3");
  }

  lemma NoExtension()
    ensures Extension("no-extension") == ""
  {
    NoDotNoExtension("no-extension");
  }

  /** An ".html" file is supported on a free account. */
  lemma HtmlIsFree(f: File)
    requires f.rawPath == "index.html"
    ensures IsSupportedOnFree(f)
  {
    assert WebsitePath(f) == "index.html";
    HtmlExtension();
    IncludesAt(Consts.FreeFileTypes, "html");
    assert "html" in Consts.FreeFileTypes;
  }

  /** "mp3" is not on the free list. */
  lemma MpThreeNotListed()
    ensures !Includes(Consts.FreeFileTypes, "mp3")
  {
    IncludesAt(Consts.FreeFileTypes, "mp3");
    assert "mp3" !in Consts.FreeFileTypes;
  }

  /** A top-level ".mp3" file ("audio.mp3", "test.mp3") needs a supporter account. */
  lemma MpThreeIsNotFree(f: File, stem: string)
    requires |stem| > 0 && '/' !in stem && f.rawPath == stem + ".mp3"
    ensures !IsSupportedOnFree(f)
  {
    assert stem + "." + "mp3" == f.rawPath;
    assert f.rawPath[0] == stem[0];
    assert WebsitePath(f) == f.rawPath;
    ExtensionOfName(stem, "mp3");
    var ext := FileExtension(f);
    assert ext == "mp3";
    MpThreeNotListed();
  }

  /** A file without an extension is supported on a free account. */
  lemma NoExtensionIsFree(f: File)
    requires f.rawPath == "no-extension"
    ensures IsSupportedOnFree(f)
  {
    assert WebsitePath(f) == "no-extension";
    NoExtension();
  }

  /** The website-path examples the project's tests use: a path without a leading '/' is kept. */
  lemma PlainPathExamples()
    ensures StripLeadingSlash("index.html") == "index.html"
    ensures StripLeadingSlash("nested/index.html") == "nested/index.html"
  {
    assert "index.html"[0] == 'i';
    assert "nested/index.html"[0] == 'n';
  }

  /** The website-path examples the project's tests use: one leading '/' goes. */
  lemma SlashedPathExamples()
    ensures StripLeadingSlash("/index.html") == "index.html"
    ensures StripLeadingSlash("/nested/index.html") == "nested/index.html"
  {
    assert "/index.html"[0] == '/' && "/index.html"[1..] == "index.html";
    assert "/nested/index.html"[0] == '/' && "/nested/index.html"[1..] == "nested/index.html";
  }
}
