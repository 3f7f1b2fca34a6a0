/**
 * The steps a sync plan is made of: what each does when run, how two
 * bulk steps merge into one, the tag that orders them, and the line a dry
 * run prints for each.
 */
module SyncAction {
  import opened Results
  import opened WebPath
  import opened Filesystem
  import NeocitiesFilesystem

  /** The ordering tag; `Rank` is its numeric value, and plans run in ascending rank. */
  datatype Tag =
    | Unknown
    | AssetDeletion | HtmlDeletion
    | AssetUpload | HtmlUpload
    | AssetOverwrite | HtmlOverwrite
    | IndexHtml

  function Rank(t: Tag): (r: int)
    ensures -1 <= r <= 6
    ensures r == -1 <==> t == Unknown
    ensures r == 6 <==> t == IndexHtml
  {
    match t
    case Unknown => -1
    case AssetDeletion => 0
    case HtmlDeletion => 1
    case AssetUpload => 2
    case HtmlUpload => 3
    case AssetOverwrite => 4
    case HtmlOverwrite => 5
    case IndexHtml => 6
  }

  /** Distinct tags have distinct ranks, so the rank order is total on tags. */
  lemma RankInjective(t: Tag, u: Tag)
    ensures Rank(t) == Rank(u) ==> t == u
  {
  }

  /**
   * A step. Collections are named by identity: a step holds the collection
   * it works on by reference, and that collection changes as earlier steps
   * run. `CopyCreate` also keeps the destination's class, which is all the
   * description of the placeholder it creates depends on.
   */
  datatype Action =
    | Delete(target: File)
    | BulkUpload(dest: CollectionId, files: seq<File>, batchSize: int, force: bool)
    | BulkDelete(dest: CollectionId, files: seq<File>, batchSize: int)
    | CopyReplace(from: File, target: File)
    | CopyCreate(from: File, dest: CollectionId, destKind: Kind)

  predicate IsBulk(a: Action) {
    a.BulkUpload? || a.BulkDelete?
  }

  /** An ".html" or ".htm" file. */
  predicate IsHtml(f: File) {
    FileExtension(f) == "html" || FileExtension(f) == "htm"
  }

  /**
   * `getTag`: only a bulk step with exactly one file has a tag of its own.
   * An upload of "index.html" is last whatever its flag; other uploads are
   * split by overwrite flag and html-ness, deletions by html-ness.
   */
  function TagOf(a: Action): (t: Tag)
    ensures t == Unknown <==> !IsBulk(a) || |a.files| != 1
    ensures t == IndexHtml <==> a.BulkUpload? && |a.files| == 1 && WebsitePath(a.files[0]) == "index.html"
    ensures t == HtmlDeletion <==> a.BulkDelete? && |a.files| == 1 && IsHtml(a.files[0])
    ensures t == AssetDeletion <==> a.BulkDelete? && |a.files| == 1 && !IsHtml(a.files[0])
    ensures t in {HtmlUpload, AssetUpload, HtmlOverwrite, AssetOverwrite} <==>
      a.BulkUpload? && |a.files| == 1 && WebsitePath(a.files[0]) != "index.html"
    ensures t in {HtmlOverwrite, AssetOverwrite} ==> a.BulkUpload? && a.force
    ensures t in {HtmlUpload, AssetUpload} ==> a.BulkUpload? && !a.force
    ensures t in {HtmlUpload, HtmlOverwrite} ==> IsHtml(a.files[0])
    ensures t in {AssetUpload, AssetOverwrite} ==> !IsHtml(a.files[0])
  {
    if !IsBulk(a) || |a.files| != 1 then Unknown
    else if a.BulkDelete? then (if IsHtml(a.files[0]) then HtmlDeletion else AssetDeletion)
    else if WebsitePath(a.files[0]) == "index.html" then IndexHtml
    else if a.force then (if IsHtml(a.files[0]) then HtmlOverwrite else AssetOverwrite)
    else (if IsHtml(a.files[0]) then HtmlUpload else AssetUpload)
  }

  /**
   * `attemptToMerge` of `a` given `b`: two uploads with the same flag, or
   * two deletions, whose files together fit `a`'s batch size. The merged
   * step is `a` with `b`'s files appended. Tags play no part.
   */
  function TryMerge(a: Action, b: Action): (r: Option<Action>)
    ensures r.Some? <==>
      ((a.BulkUpload? && b.BulkUpload? && a.force == b.force) || (a.BulkDelete? && b.BulkDelete?))
      && |a.files| + |b.files| <= a.batchSize
    ensures r.Some? ==> IsBulk(r.value) && r.value.files == a.files + b.files
    ensures r.Some? ==> r.value.dest == a.dest && r.value.batchSize == a.batchSize
    ensures r.Some? ==> (r.value.BulkUpload? <==> a.BulkUpload?)
    ensures r.Some? && a.BulkUpload? ==> r.value.force == a.force
  {
    match (a, b)
    case (BulkUpload(d, fa, cap, force), BulkUpload(_, fb, _, force')) =>
      if force != force' || |fa| + |fb| > cap then None else Some(BulkUpload(d, fa + fb, cap, force))
    case (BulkDelete(d, fa, cap), BulkDelete(_, fb, _)) =>
      if |fa| + |fb| > cap then None else Some(BulkDelete(d, fa + fb, cap))
    case _ => None
  }

  /** A lone html page upload is tagged HtmlUpload. */
  lemma PageUploadTag(dest: CollectionId, page: File)
    requires WebsitePath(page) == "about.html"
    ensures TagOf(BulkUpload(dest, [page], 20, false)) == HtmlUpload
  {
    assert "about" + "." + "html" == "about.html";
    ExtensionOfName("about", "html");
  }

  /** Merging is not restricted to equal tags: an html upload absorbs the index upload after it. */
  lemma MergeIgnoresTags(dest: CollectionId, page: File, index: File)
    requires WebsitePath(page) == "about.html" && WebsitePath(index) == "index.html"
    ensures TagOf(BulkUpload(dest, [page], 20, false)) != TagOf(BulkUpload(dest, [index], 20, false))
    ensures TryMerge(BulkUpload(dest, [page], 20, false), BulkUpload(dest, [index], 20, false))
         == Some(BulkUpload(dest, [page, index], 20, false))
  {
    PageUploadTag(dest, page);
    IndexUploadTag(dest, index);
    var m := TryMerge(BulkUpload(dest, [page], 20, false), BulkUpload(dest, [index], 20, false));
    assert m.Some? && m.value.files == [page] + [index];
    assert [page] + [index] == [page, index];
  }

  /** A lone "index.html" upload is tagged IndexHtml. */
  lemma IndexUploadTag(dest: CollectionId, index: File)
    requires WebsitePath(index) == "index.html"
    ensures TagOf(BulkUpload(dest, [index], 20, false)) == IndexHtml
  {
  }

  // ----------------------------------------------------------- descriptions

  /** JavaScript's `Array.prototype.toString`: the items joined with ",". */
  function JoinComma(items: seq<string>): string
    decreases |items|
  {
    if |items| == 0 then ""
    else if |items| == 1 then items[0]
    else items[0] + "," + JoinComma(items[1..])
  }

  /** Joining two non-empty lists puts exactly one "," between their joins. */
  lemma {:induction false} JoinCommaAppend(xs: seq<string>, ys: seq<string>)
    requires |xs| > 0 && |ys| > 0
    ensures JoinComma(xs + ys) == JoinComma(xs) + "," + JoinComma(ys)
    decreases |xs|
  {
    if |xs| == 1 {
      assert (xs + ys)[1..] == ys;
    } else {
      assert (xs + ys)[1..] == xs[1..] + ys;
      JoinCommaAppend(xs[1..], ys);
    }
  }

  /** One line per file: a newline, a tab and the file's label. */
  function FileLines(files: seq<File>): (r: seq<string>)
    ensures |r| == |files|
    ensures forall i :: 0 <= i < |files| ==> r[i] == "\n\t" + Label(files[i])
  {
    seq(|files|, i requires 0 <= i < |files| => "\n\t" + Label(files[i]))
  }

  /** The file list a bulk description ends with. */
  function FileList(files: seq<File>): string {
    JoinComma(FileLines(files))
  }

  /** The label of the placeholder `CopyCreate` makes in a collection of class `kind`. */
  function PlaceholderLabel(from: File, dest: CollectionId, kind: Kind): string {
    Label(CreateUncommittedFile(Collection(dest, kind, []), WebsitePath(from), 0))
  }

  /** `toVerboseString`: the line a dry run prints for the step. */
  function Describe(a: Action): string {
    match a
    case Delete(target) => "Delete: " + Label(target)
    case BulkUpload(_, files, _, force) =>
      (if force then "Bulk Upload (overwriting): " else "Bulk Upload (new files): ") + FileList(files)
    case BulkDelete(_, files, _) => "Bulk Delete: " + FileList(files)
    case CopyReplace(from, target) => "Copy to existing file: " + Label(from) + " -> " + Label(target)
    case CopyCreate(from, dest, kind) => "Duplicate file: " + Label(from) + " -> " + PlaceholderLabel(from, dest, kind)
  }

  /** Each kind of step is recognisable from the start of its line. */
  lemma DescribePrefixes(a: Action)
    ensures a.BulkUpload? && a.force ==> StartsWith(Describe(a), "Bulk Upload (overwriting): ")
    ensures a.BulkUpload? && !a.force ==> StartsWith(Describe(a), "Bulk Upload (new files): ")
    ensures a.BulkDelete? ==> StartsWith(Describe(a), "Bulk Delete: ")
    ensures a.Delete? ==> StartsWith(Describe(a), "Delete: ")
    ensures a.CopyReplace? ==> StartsWith(Describe(a), "Copy to existing file: ")
    ensures a.CopyCreate? ==> StartsWith(Describe(a), "Duplicate file: ")
  {
    match a
    case Delete(target) => DeleteLine(target);
    case BulkUpload(dest, files, size, force) => UploadLine(dest, files, size, force);
    case BulkDelete(dest, files, size) => BulkDeleteLine(dest, files, size);
    case CopyReplace(from, target) => CopyReplaceLine(from, target);
    case CopyCreate(from, dest, kind) => CopyCreateLine(from, dest, kind);
  }

  lemma DeleteLine(target: File)
    ensures StartsWith(Describe(Delete(target)), "Delete: ")
  {
    PrefixOfAppend("Delete: ", Label(target));
  }

  lemma UploadLine(dest: CollectionId, files: seq<File>, size: int, force: bool)
    ensures var p := if force then "Bulk Upload (overwriting): " else "Bulk Upload (new files): ";
      StartsWith(Describe(BulkUpload(dest, files, size, force)), p)
  {
    PrefixOfAppend(if force then "Bulk Upload (overwriting): " else "Bulk Upload (new files): ", FileList(files));
  }

  lemma BulkDeleteLine(dest: CollectionId, files: seq<File>, size: int)
    ensures StartsWith(Describe(BulkDelete(dest, files, size)), "Bulk Delete: ")
  {
    PrefixOfAppend("Bulk Delete: ", FileList(files));
  }

  lemma CopyReplaceLine(from: File, target: File)
    ensures StartsWith(Describe(CopyReplace(from, target)), "Copy to existing file: ")
  {
    PrefixOfAppend("Copy to existing file: ", Label(from) + " -> " + Label(target));
  }

  lemma CopyCreateLine(from: File, dest: CollectionId, kind: Kind)
    ensures StartsWith(Describe(CopyCreate(from, dest, kind)), "Duplicate file: ")
  {
    PrefixOfAppend("Duplicate file: ", Label(from) + " -> " + PlaceholderLabel(from, dest, kind));
  }

  /** A string starts with any prefix it was built from. */
  lemma PrefixOfAppend(x: string, y: string)
    ensures StartsWith(x + y, x)
  {
    assert (x + y)[..|x|] == x;
  }

  /** A merged step describes itself as the first step's line with the second's files appended. */
  lemma MergedDescription(a: Action, b: Action)
    requires TryMerge(a, b).Some? && |a.files| > 0 && |b.files| > 0
    ensures Describe(TryMerge(a, b).value) == Describe(a) + "," + FileList(b.files)
  {
    var m := TryMerge(a, b).value;
    FileLinesAppend(a.files, b.files);
    JoinCommaAppend(FileLines(a.files), FileLines(b.files));
    var x, y := FileList(a.files), FileList(b.files);
    assert FileList(m.files) == x + "," + y;
    var h := if a.BulkDelete? then "Bulk Delete: "
      else if a.force then "Bulk Upload (overwriting): " else "Bulk Upload (new files): ";
    assert Describe(a) == h + x;
    assert Describe(m) == h + (x + "," + y);
    ConcatRegroup(h, x, ",", y);
  }

  lemma ConcatRegroup(h: string, x: string, c: string, y: string)
    ensures h + (x + c + y) == h + x + c + y
  {
  }

  lemma FileLinesAppend(xs: seq<File>, ys: seq<File>)
    ensures FileLines(xs + ys) == FileLines(xs) + FileLines(ys)
  {
  }

  // ---------------------------------------------------------------- running

  /** Every collection, by identity, and the next unused file identity. */
  datatype World = World(collections: map<CollectionId, Collection>, nextId: FileId)

  /** Each collection is filed under its own identity. */
  predicate Consistent(w: World) {
    forall k :: k in w.collections ==> w.collections[k].id == k
  }

  /** What a step leaves behind and what it answered. */
  datatype Outcome = Outcome(world: World, status: Status)

  /** The collections a step refers to are alive (the step holds them by reference). */
  predicate Bound(w: World, a: Action) {
    match a
    case Delete(target) => target.owner.Some? ==> target.owner.value in w.collections
    case BulkUpload(dest, _, _, _) => dest in w.collections
    case BulkDelete(dest, _, _) => dest in w.collections
    case CopyReplace(_, _) => true
    case CopyCreate(_, dest, _) => dest in w.collections
  }

  /**
   * `run` of each step:
   * - Delete: the file leaves the collection it names, then the backend is asked;
   * - BulkUpload / BulkDelete: the Neocities batch operations;
   * - CopyReplace: open the source, then overwrite the destination file;
   * - CopyCreate: open the source, create a placeholder at the same website
   *   path, add it to the destination, then write it for the first time.
   */
  function RunAction(w: World, a: Action, io: Io): (r: Outcome)
    requires Consistent(w) && Bound(w, a)
    ensures Consistent(r.world)
    ensures r.world.collections.Keys == w.collections.Keys
    ensures r.world.nextId >= w.nextId
    ensures a.Delete? || a.BulkDelete? || a.CopyReplace? ==> r.world.nextId == w.nextId
    ensures a.BulkUpload? && r.status.Ok? ==> r.world.nextId == w.nextId + |a.files|
    ensures a.CopyCreate? && ReadStream(a.from, io).Ok? ==> r.world.nextId == w.nextId + 1
    ensures a.Delete? && a.target.owner.None? ==> r.world == w
    ensures a.BulkDelete? || a.CopyReplace? ==> r.world == w
    ensures a.BulkDelete? ==> r.status == NeocitiesFilesystem.DeleteFilesInBulk(w.collections[a.dest], a.files, io)
    ensures a.CopyReplace? ==> r.status == (if ReadStream(a.from, io).Err? then ReadStream(a.from, io) else Overwrite(a.target, io))
    ensures a.Delete? ==> r.status == ProcessDelete(a.target, io)
    ensures a.Delete? && a.target.owner.Some? ==>
      r.world.collections == w.collections[a.target.owner.value := RemoveFile(w.collections[a.target.owner.value], a.target)]
    ensures a.BulkUpload? ==> (r.status.Ok? <==> NeocitiesFilesystem.UploadNewFiles(w.collections[a.dest], a.files, a.force, io, w.nextId).Ok?)
    ensures a.BulkUpload? && r.status.Ok? ==>
      r.world.collections == w.collections[a.dest := NeocitiesFilesystem.UploadNewFiles(w.collections[a.dest], a.files, a.force, io, w.nextId).value.coll]
    ensures r.status.Err? && (a.BulkUpload? || a.CopyReplace? || a.BulkDelete?) ==> r.world == w
    ensures a.CopyCreate? && ReadStream(a.from, io).Err? ==> r == Outcome(w, ReadStream(a.from, io))
    ensures a.CopyCreate? && ReadStream(a.from, io).Ok? ==>
      var placeholder := CreateUncommittedFile(w.collections[a.dest], WebsitePath(a.from), w.nextId);
      && r.world.collections == w.collections[a.dest := AddFile(w.collections[a.dest], placeholder)]
      && r.status == InitiallyWrite(placeholder, io)
  {
    match a
    case Delete(target) => RunDelete(w, target, io)
    case BulkUpload(dest, files, _, force) => RunUpload(w, dest, files, force, io)
    case BulkDelete(dest, files, _) =>
      Outcome(w, NeocitiesFilesystem.DeleteFilesInBulk(w.collections[dest], files, io))
    case CopyReplace(from, target) =>
      if ReadStream(from, io).Err? then Outcome(w, ReadStream(from, io))
      else Outcome(w, Overwrite(target, io))
    case CopyCreate(from, dest, _) => RunCopyCreate(w, from, dest, io)
  }

  /** `DeleteAction.run`: unregister from the owner, if any, then ask the backend; no identity is minted. */
  function RunDelete(w: World, target: File, io: Io): (r: Outcome)
    requires Consistent(w) && (target.owner.Some? ==> target.owner.value in w.collections)
    ensures Consistent(r.world) && r.world.collections.Keys == w.collections.Keys && r.world.nextId == w.nextId
    ensures r.status == ProcessDelete(target, io)
    ensures target.owner.None? ==> r.world == w
    ensures target.owner.Some? ==>
      r.world.collections == w.collections[target.owner.value := RemoveFile(w.collections[target.owner.value], target)]
  {
    if target.owner.None? then Outcome(w, ProcessDelete(target, io))
    else
      var h := target.owner.value;
      var (after, status) := Filesystem.Delete(target, w.collections[h], io);
      Outcome(w.(collections := w.collections[h := after]), status)
  }

  /** `BulkUploadAction.run`: one identity per uploaded file, and the world changes only on success. */
  function RunUpload(w: World, dest: CollectionId, files: seq<File>, force: bool, io: Io): (r: Outcome)
    requires Consistent(w) && dest in w.collections
    ensures Consistent(r.world) && r.world.collections.Keys == w.collections.Keys
    ensures var up := NeocitiesFilesystem.UploadNewFiles(w.collections[dest], files, force, io, w.nextId);
      if up.Err? then r == Outcome(w, Err(up.error))
      else r.status == Done && r.world == World(w.collections[dest := up.value.coll], w.nextId + |files|)
  {
    var up := NeocitiesFilesystem.UploadNewFiles(w.collections[dest], files, force, io, w.nextId);
    if up.Err? then Outcome(w, Err(up.error))
    else Outcome(World(w.collections[dest := up.value.coll], w.nextId + |files|), Done)
  }

  /** `CopyAndCreateAction.run`: open the source, then register and write a placeholder with a new identity. */
  function RunCopyCreate(w: World, from: File, dest: CollectionId, io: Io): (r: Outcome)
    requires Consistent(w) && dest in w.collections
    ensures Consistent(r.world) && r.world.collections.Keys == w.collections.Keys
    ensures ReadStream(from, io).Err? ==> r == Outcome(w, ReadStream(from, io))
    ensures ReadStream(from, io).Ok? ==>
      var placeholder := CreateUncommittedFile(w.collections[dest], WebsitePath(from), w.nextId);
      && r.world == World(w.collections[dest := AddFile(w.collections[dest], placeholder)], w.nextId + 1)
      && r.status == InitiallyWrite(placeholder, io)
  {
    if ReadStream(from, io).Err? then Outcome(w, ReadStream(from, io))
    else
      var placeholder := CreateUncommittedFile(w.collections[dest], WebsitePath(from), w.nextId);
      var coll := AddFile(w.collections[dest], placeholder);
      Outcome(World(w.collections[dest := coll], w.nextId + 1), InitiallyWrite(placeholder, io))
  }

  /** A copy into a collection keeps its placeholder even when the first write fails. */
  lemma CopyCreateKeepsPlaceholder(w: World, a: Action, io: Io)
    requires a.CopyCreate? && Consistent(w) && Bound(w, a) && ReadStream(a.from, io).Ok?
    ensures var placeholder := CreateUncommittedFile(w.collections[a.dest], WebsitePath(a.from), w.nextId);
      AtPath(RunAction(w, a, io).world.collections[a.dest].files, WebsitePath(placeholder)) == [placeholder]
  {
  }

  /** A copy into a Neocities collection can never succeed: its placeholder is unconfirmed. */
  lemma CopyCreateIntoNeocitiesFails(w: World, a: Action, io: Io)
    requires a.CopyCreate? && Consistent(w) && Bound(w, a) && w.collections[a.dest].kind.Neocities?
    ensures RunAction(w, a, io).status.Err?
  {
    if ReadStream(a.from, io).Ok? {
      var placeholder := CreateUncommittedFile(w.collections[a.dest], WebsitePath(a.from), w.nextId);
      RemoteInitiallyWriteAlwaysFails(placeholder, io);
    }
  }
}
