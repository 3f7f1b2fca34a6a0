# neowrangler's planner, modelled in Dafny

neowrangler keeps a Neocities site in step with a local directory. It lists
both sides as *collections* of files and compares them file by file. From
that it builds a *plan* of sync steps: uploads, deletes and copies. The plan
is sorted by tag and its one-file steps are merged into batches. Then the
plan is either run, or only described (a dry run).

This project models that core:

- **Collections.** A collection is a sequence of files. Each file has an
  identity (`FileId`, which stands for JavaScript object identity), the path
  it was created with, an optional back-reference to a collection, and a
  backend:
  - `Dummy`: the base class, which implements no I/O;
  - `LocalDisk`: a local file, read-only or writable;
  - `Remote`: a Neocities file, either uncommitted or committed with its
    listing entry.

  The module covers the website path (one leading "/" stripped) with node's
  basename, extname and dirname on it, path-unique insertion, removal by
  path, lookup by path and by identity, filtering, cloning, the
  free-account extension rule, and the write and delete state machine of
  each backend (modules `WebPath`, `Filesystem`, `Consts`).
- **The Neocities collection's bookkeeping.** This covers loading a listing,
  the checks `uploadNewFiles` and `deleteFilesInBulk` make before the
  network call, and what they change afterwards (module
  `NeocitiesFilesystem`).
- **Sync steps.** Steps form a closed datatype. The module covers each
  step's tag and rank, the merge rule of the two bulk steps, the line a dry
  run prints for a step, and what a step does when run (module
  `SyncAction`).
- **The planner.** The `compareFile` decision table and the two-pass
  `diffFilesystems` traversal with its `compared` set (module
  `Synchronizer`). The stable sort by tag and the greedy compaction, both
  as a recursive definition and as the source's in-place loop (module
  `PlanOrdering`). Plan runs and dry runs.
- **The supporter rule of the ignore filter.** The
  `# @neowrangler supporter` directive, recognised as the source's
  multiline regular expression recognises it, and its effect on which
  files are accepted (module `FileIgnoreFilter`).
- **The source's planner tests, restated as lemmas** (module
  `SynchronizerExamples`).

Disk, network and hashing are not modelled. They are the fields of an `Io`
value of oracle functions, which every operation that touches them takes as
a parameter:
- hash, size, onDisk, write and unlink of a file, and the download of a remote file's content (`read`);
- one remote upload call and one remote delete call for a list of paths.

The gitignore pattern compiler is also a parameter, `compile`. Reading the
ignore file is a parameter, `readFile`. A JavaScript `throw` becomes an
`Err` of `Results.Answer`, with one `Error` constructor per cause.

Mutation is modelled by returning new values.
- A collection that changes is returned as a new `Collection`.
- A running plan threads a `World` through its steps. The world maps each
  collection identity to its collection and holds the next unused file
  identity.
- A step names the collection it works on by identity, as the source's
  steps hold theirs by reference.

`Array.prototype.sort` is stable, so `sortActions` is modelled as an
insertion sort by tag rank.

## Model

| member | source | states |
|---|---|---|
| WebPath.StripLeadingSlash | src/lib/filesystem/Filesystem.ts:102-108 | the website path is a suffix of the raw path at most one character shorter, and it equals the raw path exactly when the raw path does not start with "/" |
| WebPath.StripUndoesSlash | src/lib/filesystem/Filesystem.ts:102-108 | exactly one leading "/" is removed: "/" + q becomes q, even when q itself starts with "/" |
| Filesystem.WebsitePath | src/lib/filesystem/Filesystem.ts:102-108 | the website path is StripLeadingSlash of the raw path; its meaning is stated by WebPath.StripLeadingSlash and WebPath.StripUndoesSlash |
| Filesystem.PlainPathExamples | src/lib/filesystem/Filesystem.test.ts:33-45 | "index.html" and "nested/index.html" are their own website paths |
| Filesystem.SlashedPathExamples | src/lib/filesystem/Filesystem.test.ts:33-45 | "/index.html" and "/nested/index.html" lose the slash and nothing else |
| Filesystem.MatchesStrippedOnly | src/lib/filesystem/Filesystem.ts:142-144 | a file created as "/q" matches the path "q" but not "/q" |
| Filesystem.MatchesPath | src/lib/filesystem/Filesystem.ts:142-144 | equality with the website path; its meaning is stated by Filesystem.MatchesRawPath |
| Filesystem.MatchesRawPath | src/lib/filesystem/Filesystem.ts:142-144 | a file answers to p exactly when its raw path is "/" + p, or is p itself and does not start with "/" |
| WebPath.ExtensionHasNoSlash | src/lib/filesystem/Filesystem.ts:124-132 | an extension never reaches back into a directory name |
| Filesystem.FileExtension | src/lib/filesystem/Filesystem.ts:124-132 | the extension holds neither "/" nor "."; which text it is, is stated by WebPath.ComponentExtensionAfterLastDot |
| WebPath.ComponentExtensionAfterLastDot | src/lib/filesystem/Filesystem.ts:124-132 | a non-empty extension is what follows the name's last dot and holds no dot; it is empty exactly when the name has no dot after its first character or ends in a dot |
| Filesystem.HtmlExtension | src/lib/filesystem/Filesystem.test.ts:15-23 | "index.html" has extension "html" |
| Filesystem.MpThreeExtension | src/lib/filesystem/Filesystem.test.ts:15-23 | "audio.mp3" has extension "mp3" |
| Filesystem.NoExtension | src/lib/filesystem/Filesystem.test.ts:15-23 | "no-extension" has the empty extension |
| Filesystem.IncludesAt | src/lib/filesystem/Filesystem.ts:134-140 | `includes` on the free list is membership at some index |
| Filesystem.IsSupportedOnFree | src/lib/filesystem/Filesystem.ts:134-140 | a file may go on a free account exactly when its extension is empty or equals some entry of the free list |
| Filesystem.HtmlIsFree | src/lib/filesystem/Filesystem.test.ts:25-31 | an html page may go on a free account |
| Filesystem.NoExtensionIsFree | src/lib/filesystem/Filesystem.test.ts:25-31 | a file without an extension may go on a free account |
| Filesystem.MpThreeNotListed | src/lib/consts.ts:1-4 | "mp3" is not on the free list |
| Filesystem.MpThreeIsNotFree | src/lib/filesystem/Filesystem.test.ts:25-31 | a top-level file named `<stem>.mp3`, such as "audio.mp3", is paid-only |
| Filesystem.DirectoryNameIsParent | src/lib/filesystem/Filesystem.ts:110-118 | for a website path not starting with "/", null exactly when its trimmed form has no "/" or is "./" plus a bare name; otherwise the parent directory, i.e. the path up to its last "/" before any trailing ones; a path still starting with "/" always has one |
| Filesystem.DirectoryName | src/lib/filesystem/Filesystem.ts:110-118 | never "." (that case answers null); when it is null and what it is otherwise is stated by Filesystem.DirectoryNameIsParent |
| WebPath.DirnameIsParent | src/lib/filesystem/Filesystem.ts:110-118 | `path.dirname` answers "." for an empty path or a bare name, "/" for a rooted bare name, and for a nested path (short of the "//" root) the non-empty prefix ending at its last "/" before any trailing ones |
| Filesystem.IndexOfPath | src/lib/filesystem/Filesystem.ts:10-18 | the index found matches the path and no earlier entry does; -1 means no entry matches |
| Filesystem.GetFromPath | src/lib/filesystem/Filesystem.ts:10-18 | null exactly when no entry matches; otherwise the first matching entry |
| Filesystem.FirstAtPath | src/lib/filesystem/Filesystem.ts:10-18 | the first-match lookup agrees with the list of all entries at the path: absent exactly when that list is empty, else its head |
| Filesystem.HasId | src/lib/filesystem/Filesystem.ts:20-28 | true exactly when some entry is the very same file (same identity), whatever the paths |
| Filesystem.AddFile | src/lib/filesystem/Filesystem.ts:30-41 | the added file ends the sequence and is the one entry at its path |
| Filesystem.SpliceOutPath | src/lib/filesystem/Filesystem.ts:31-37 | the backward splice loop leaves exactly the entries at other paths, in their order |
| Filesystem.AddFileKeepsOthers | src/lib/filesystem/Filesystem.ts:30-41 | entries at every other path are untouched, in their relative order |
| Filesystem.AddFilePreservesUnique | src/lib/filesystem/Filesystem.ts:30-41 | adding to a collection with one entry per path keeps one entry per path |
| Filesystem.AddFileNeverDuplicates | src/lib/filesystem/Filesystem.test.ts:68-95 | after adds into a duplicate-free collection, any path is found at most once |
| Filesystem.RemoveFile | src/lib/filesystem/Filesystem.ts:47-57 | no entry at the file's path is left, and exactly the entries at that path are gone |
| Filesystem.RemoveFileKeepsOthers | src/lib/filesystem/Filesystem.ts:47-57 | entries at other paths keep their order; the result is the collection without that path |
| Filesystem.RemoveByPathNotIdentity | src/lib/filesystem/Filesystem.ts:47-57 | removal compares paths, not identity: two files at one path remove the same entries |
| Filesystem.WithoutPathIdempotent | src/lib/filesystem/Filesystem.ts:47-57 | removing a path twice is removing it once |
| Filesystem.FilterFiles | src/lib/filesystem/Filesystem.ts:79-87 | a file is kept exactly when it was held and the filter accepts it |
| Filesystem.FilterKeepsOrder | src/lib/filesystem/Filesystem.ts:79-87 | filtering distributes over concatenation, so the kept files stay in their order |
| Filesystem.CloneFile | src/lib/filesystem/Filesystem.ts:199-201 | a clone has a fresh identity, the same website path and no back-reference, and is never a Neocities file |
| Filesystem.CloneKeepsPaths | src/lib/filesystem/Filesystem.ts:59-77 | cloning a duplicate-free collection yields a plain collection with one clone per entry, in order, at the same paths, naming no collection, with consecutive new identities |
| Filesystem.Clone | src/lib/filesystem/Filesystem.ts:59-77 | the clone is a plain collection; when the entries have distinct paths its files are exactly the clones of the entries, in order, with identities counting up |
| Filesystem.Label | src/lib/filesystem/Filesystem.ts:203-205 | every label is bracketed, "[" to "]" |
| Filesystem.LabelsTellPathsApart | src/lib/neocities/NeocitiesFilesystem.ts:277-279 | two dummy files, or two Neocities files, print the same label exactly when their website paths agree |
| Filesystem.CreateUncommittedFile | src/lib/neocities/NeocitiesFilesystem.ts:126-130 | a Neocities collection makes an uncommitted remote file with no back-reference; the base class makes a dummy file naming the collection; a local directory makes a read-only local file with no back-reference; none of them is registered in the collection |
| Filesystem.Commit | src/lib/neocities/NeocitiesFilesystem.ts:150-158 | committing makes the file complete with the given entry and keeps its identity, path and back-reference |
| Filesystem.GetHash | src/lib/neocities/NeocitiesFilesystem.ts:191-204 | a committed remote file answers its entry's hash without any I/O; a dummy file answers unimplemented |
| Filesystem.GetSize | src/lib/neocities/NeocitiesFilesystem.ts:206-219 | a committed remote file answers its entry's size without any I/O; a dummy file answers unimplemented |
| Filesystem.CompleteFileNeedsNoIo | src/lib/neocities/NeocitiesFilesystem.ts:191-219 | for a committed file, hash and size are the same whatever the disk and network answer |
| Filesystem.ReadStream | src/lib/filesystem/Filesystem.ts:180-189 | a dummy file fails as unimplemented, a local file's stream opens without fail, and a Neocities file answers what downloading it answers |
| Filesystem.LocalStreamNeedsNoIo | src/lib/filesystem/LocalFilesystem.ts:205-209 | a local file's stream opens whatever the disk and network answer |
| Filesystem.ProcessDelete | src/lib/neocities/NeocitiesFilesystem.ts:221-226 | a remote file asks for one delete of its own path; a read-only local file refuses; a dummy file is unimplemented |
| Filesystem.Overwrite | src/lib/neocities/NeocitiesFilesystem.ts:253-263 | an uncommitted remote file refuses; a committed one makes one upload of its path; read-only and dummy files refuse |
| Filesystem.InitiallyWrite | src/lib/neocities/NeocitiesFilesystem.ts:265-275 | a committed file refuses as already existing; an uncommitted remote file goes on to overwrite; a local file refuses when its disk path is taken |
| Filesystem.RemoteInitiallyWriteAlwaysFails | src/lib/neocities/NeocitiesFilesystem.ts:253-275 | a first write of a Neocities file never succeeds: committed means it already exists, uncommitted means overwrite refuses |
| Filesystem.Delete | src/lib/filesystem/Filesystem.ts:162-168 | a file whose back-reference names the holder is removed from it by path, any other file leaves the holder as it was, and the answer is the backend's delete |
| Filesystem.DeleteUnregistersEvenOnFailure | src/lib/filesystem/LocalFilesystem.ts:193-197 | a read-only local file refuses to delete, yet it has already left its collection |
| FileIgnoreFilter.SkipBlanks | src/lib/ignore/FileIgnoreFilter.ts:26 | the run of non-newline whitespace after an index ends at the first character that is not such whitespace |
| FileIgnoreFilter.MatchesAtFirstNonBlank | src/lib/ignore/FileIgnoreFilter.ts:26 | the pattern matches at an index exactly when a "#" there is followed, after the whole blank run, by "@neowrangler supporter" |
| FileIgnoreFilter.DirectiveFrom | src/lib/ignore/FileIgnoreFilter.ts:26-27 | the scan from an index is true exactly when a directive line begins at or after it |
| FileIgnoreFilter.HasSupporterDirective | src/lib/ignore/FileIgnoreFilter.ts:26-27 | true exactly when some line starts with "#", then optional non-newline whitespace, then "@neowrangler supporter" |
| FileIgnoreFilter.NewFilter | src/lib/ignore/FileIgnoreFilter.ts:23-28 | the filter holds the compiled patterns and sets the supporter flag exactly when the input carries a directive line |
| FileIgnoreFilter.Accepts | src/lib/ignore/FileIgnoreFilter.ts:9-19 | a file is accepted exactly when the patterns accept its website path and, if the flag is set, it is supported on free |
| FileIgnoreFilter.ReadFromPossiblePath | src/lib/ignore/FileIgnoreFilter.ts:36-44 | with no path (or an empty one) the filter is built from empty text, so the flag is off; otherwise a read failure is passed on, and a read gives the file's patterns with the supporter flag set exactly when the file holds the directive |
| FileIgnoreFilter.ReadDirectiveRefusesPaidFiles | src/lib/ignore/FileIgnoreFilter.ts:26-44 | an ignore file read from a path whose text holds a directive line yields a filter refusing every paid-only file |
| FileIgnoreFilter.FilterCollection | src/lib/filesystem/Filesystem.ts:79-87 | filtering a collection keeps exactly the files the ignore filter accepts |
| FileIgnoreFilter.DirectiveExcludesPaidFiles | src/lib/ignore/FileIgnoreFilter.ts:10-14 | a directive line anywhere leaves no paid-only file in a filtered collection, whatever the patterns say |
| FileIgnoreFilter.NoDirectivePatternsDecide | src/lib/ignore/FileIgnoreFilter.ts:16-18 | without a directive line, acceptance is the patterns' verdict on the website path |
| FileIgnoreFilter.DirectiveOnFirstLine | src/lib/ignore/FileIgnoreFilter.ts:26-27 | "# @neowrangler supporter" carries the directive |
| FileIgnoreFilter.DirectiveOnLaterLine | src/lib/ignore/FileIgnoreFilter.ts:26-27 | a directive on a second line, after a tab, is found |
| FileIgnoreFilter.NoHashNoDirective | src/lib/ignore/FileIgnoreFilter.ts:26-27 | text without "#" never carries the directive |
| NeocitiesFilesystem.ListedFile | src/lib/neocities/NeocitiesFilesystem.ts:282-288 | a file made from a listing entry is committed with that entry and sits at the entry's path |
| NeocitiesFilesystem.LoadEntry | src/lib/neocities/NeocitiesFilesystem.ts:17-34 | a directory entry changes nothing; an entry at a held path adds nothing; an entry at a new path adds one listed file with the next identity |
| NeocitiesFilesystem.LoadFromListing | src/lib/neocities/NeocitiesFilesystem.ts:16-38 | the collection keeps its identity and class; what happens to its files is stated by LoadEntry, LoadAllKeepsCommitted, ListedPathsCommitted and ListedFileStaysAfterDelete |
| NeocitiesFilesystem.LoadEntryCommitsInPlace | src/lib/neocities/NeocitiesFilesystem.ts:19-22 | an entry at a held path commits the held file in place: same length, same identities and paths, and the lookup answers the committed file |
| NeocitiesFilesystem.LoadEntryCommits | src/lib/neocities/NeocitiesFilesystem.ts:19-33 | after a file entry, the file at its path is committed |
| NeocitiesFilesystem.LoadEntryKeepsCommitted | src/lib/neocities/NeocitiesFilesystem.ts:17-34 | an entry never uncommits the file found at another path |
| NeocitiesFilesystem.LoadAllKeepsCommitted | src/lib/neocities/NeocitiesFilesystem.ts:16-38 | a committed file stays found and committed through the whole listing |
| NeocitiesFilesystem.ListedPathsCommitted | src/lib/neocities/NeocitiesFilesystem.ts:16-38 | after loading, every listed file path is held by a committed file |
| NeocitiesFilesystem.LoadOneIntoEmpty | src/lib/neocities/NeocitiesFilesystem.ts:24-33 | one entry loaded into an empty collection gives exactly that one listed file |
| NeocitiesFilesystem.ListedFileStaysAfterDelete | src/lib/neocities/NeocitiesFilesystem.ts:24-33 | as written: the added file names no collection, so deleting it leaves it in the collection |
| NeocitiesFilesystem.IntendedListedFileLeavesOnDelete | src/lib/neocities/NeocitiesFilesystem.ts:24-33 | with the back-reference on the added file, deleting it removes it from the collection |
| NeocitiesFilesystem.UploadedFile | src/lib/neocities/NeocitiesFilesystem.ts:64-82 | the new file is committed with an entry carrying the source's website path, hash and size, and names no collection |
| NeocitiesFilesystem.PrepareUploads | src/lib/neocities/NeocitiesFilesystem.ts:63-94 | the loop succeeds exactly when no file fails its checks, and then makes one committed file per source file, in order, with consecutive identities |
| NeocitiesFilesystem.PrepareUploadsFirstFailure | src/lib/neocities/NeocitiesFilesystem.ts:63-94 | a failed loop answers the failure of the first file that fails, all files before it passing |
| NeocitiesFilesystem.UploadNewFiles | src/lib/neocities/NeocitiesFilesystem.ts:53-105 | success needs every check passed, no held path unless forced, and the upload call succeeding; it returns one committed file per input at the input's path |
| NeocitiesFilesystem.UploadRefusesHeldPath | src/lib/neocities/NeocitiesFilesystem.ts:71-77 | without force, one file at a held path fails the whole upload |
| NeocitiesFilesystem.AddAllKeepsOthers | src/lib/neocities/NeocitiesFilesystem.ts:98-100 | adding the batch leaves every path it does not use untouched |
| NeocitiesFilesystem.AddAllLastWins | src/lib/neocities/NeocitiesFilesystem.ts:98-100 | a batch file whose path no later batch file repeats is the one entry at its path |
| NeocitiesFilesystem.UploadShape | src/lib/neocities/NeocitiesFilesystem.ts:96-102 | a successful upload answers the prepared files and the collection with them added in order |
| NeocitiesFilesystem.UploadedFilesAreHeld | src/lib/neocities/NeocitiesFilesystem.ts:96-102 | after a successful upload, each file whose path no later file repeats is the one entry at its path |
| NeocitiesFilesystem.AllHeld | src/lib/neocities/NeocitiesFilesystem.ts:111-117 | true exactly when the collection holds every file by identity |
| NeocitiesFilesystem.DeleteFilesInBulk | src/lib/neocities/NeocitiesFilesystem.ts:107-124 | a file not held by identity refuses the delete; otherwise one delete call goes out for all paths, in order; the collection is never changed |
| NeocitiesFilesystem.BulkDeleteRefusesLookalike | src/lib/neocities/NeocitiesFilesystem.ts:111-117 | a different file at a held path is still refused |
| SyncAction.Rank | src/lib/synchronizer/SyncAction.ts:12-25 | ranks lie in -1..6; only Unknown is -1 and only IndexHtml is 6 |
| SyncAction.RankInjective | src/lib/synchronizer/SyncAction.ts:12-25 | distinct tags have distinct ranks |
| SyncAction.TagOf | src/lib/synchronizer/SyncAction.ts:103-188 | a tag only for a one-file bulk step; IndexHtml exactly for an upload of "index.html", whatever force says; other uploads by force and html-ness; deletions by html-ness |
| SyncAction.PageUploadTag | src/lib/synchronizer/SyncAction.ts:112-129 | a lone new "about.html" upload is HtmlUpload |
| SyncAction.IndexUploadTag | src/lib/synchronizer/SyncAction.ts:108-110 | a lone "index.html" upload is IndexHtml |
| SyncAction.TryMerge | src/lib/synchronizer/SyncAction.ts:86-174 | a merge happens exactly for two uploads with equal force, or two deletions, whose files fit the first step's batch size; the merged step keeps the first step's destination, size and force and appends the second's files |
| SyncAction.MergeIgnoresTags | src/lib/synchronizer/SyncAction.ts:86-130 | steps with different tags still merge: an html upload absorbs the index upload after it |
| SyncAction.JoinCommaAppend | src/lib/synchronizer/SyncAction.ts:133-135 | joining two non-empty lists puts exactly one "," between their joins |
| SyncAction.DescribePrefixes | src/lib/synchronizer/SyncAction.ts:132-196 | each kind of step is recognisable from the start of its dry-run line |
| SyncAction.Describe | src/lib/synchronizer/SyncAction.ts:132-196 | the dry-run line of a step; what the lines hold is stated by SyncAction.DescribePrefixes and SyncAction.MergedDescription |
| SyncAction.MergedDescription | src/lib/synchronizer/SyncAction.ts:132-196 | a merged step's line is the first step's line, a ",", and the second step's file lines |
| SyncAction.RunAction | src/lib/synchronizer/SyncAction.ts:46-241 | what each step does: a delete unregisters the file from its owner, if any, whatever the backend then answers, and otherwise changes nothing; a failed bulk step or overwrite leaves the world as it was; a copy opens the source first and, once it has, keeps its placeholder whatever the first write answers; a successful upload uses one new identity per file, a copy one, and every other step none |
| SyncAction.RunDelete | src/lib/synchronizer/SyncAction.ts:46-48 | the backend's answer is the step's answer; an owned file leaves its owner by path, an unowned file changes nothing, and no identity is used |
| SyncAction.RunUpload | src/lib/synchronizer/SyncAction.ts:78-84 | a refused upload changes nothing and passes the error on; a successful one replaces the destination by the uploaded collection and uses one new identity per file |
| SyncAction.RunCopyCreate | src/lib/synchronizer/SyncAction.ts:228-241 | a source that cannot be opened changes nothing; otherwise the placeholder, with the next identity, is added to the destination before it is written, and the write's answer is the step's answer |
| SyncAction.CopyCreateKeepsPlaceholder | src/lib/synchronizer/SyncAction.ts:228-241 | once the source opens, the placeholder is the one entry at its path, whatever the first write answers |
| SyncAction.CopyCreateIntoNeocitiesFails | src/lib/synchronizer/SyncAction.ts:228-241 | a copy into a Neocities collection never succeeds |
| PlanOrdering.SortByTag | src/lib/synchronizer/Synchronizer.ts:205-212 | the result is a permutation of the plan, in ascending rank |
| PlanOrdering.SortIsStable | src/lib/synchronizer/Synchronizer.ts:205-212 | the steps of each tag keep their relative order |
| PlanOrdering.SortedEnds | src/lib/synchronizer/Synchronizer.ts:205-212 | untagged steps come first and the index page upload last |
| PlanOrdering.CompactInPlace | src/lib/synchronizer/Synchronizer.ts:214-226 | the in-place loop (merge and retry, else move on) computes the recursive compaction |
| PlanOrdering.Compact | src/lib/synchronizer/Synchronizer.ts:214-226 | never more steps than given, and some step if some was given; what the steps are is stated by CompactInPlace, CompactKeepsFiles, CompactKeepsCaps and CompactLeavesNothingToMerge |
| PlanOrdering.CompactKeepsFiles | src/lib/synchronizer/Synchronizer.ts:214-226 | compaction keeps the plan's files: none lost, added or reordered |
| PlanOrdering.CompactKeepsCaps | src/lib/synchronizer/Synchronizer.ts:214-226 | steps within their batch size stay within it |
| PlanOrdering.RefusedStaysRefused | src/lib/synchronizer/SyncAction.ts:86-174 | a step that could not absorb a neighbour cannot absorb it after the neighbour has grown |
| PlanOrdering.CompactLeavesNothingToMerge | src/lib/synchronizer/Synchronizer.ts:214-226 | no two neighbouring steps of the result could still merge |
| PlanOrdering.BatchCount | src/lib/synchronizer/Synchronizer.ts:214-226 | a batch of k files followed by n one-file steps of its kind gives ceil((k + n) / cap) batches of that kind, all full but the last |
| PlanOrdering.SinglesCompact | src/lib/synchronizer/Synchronizer.ts:214-226 | n one-file steps of one kind with batch size cap become ceil(n / cap) batches, all full but the last |
| Synchronizer.NewPlan | src/lib/synchronizer/Synchronizer.ts:19-30 | a fresh plan has no steps, batches of 20, and deleting, overwriting, sparing paid files and dry runs all off |
| Synchronizer.CompareFile | src/lib/synchronizer/Synchronizer.ts:77-141 | the decision table: fails only when both files exist, overwriting is on and a hash fails (the source's first); nothing when both are absent, when overwriting is off or the hashes agree, or when an orphan is kept; otherwise the step for the destination's kind, with the plan's batch sizes |
| Synchronizer.SourcePassMatchesAll | src/lib/synchronizer/Synchronizer.ts:152-171 | with distinct identities, the first loop compares every source file, in order, with the destination file at its path, and marks them all |
| Synchronizer.DestPassTakesUnmatched | src/lib/synchronizer/Synchronizer.ts:173-196 | once the source files are marked, the second loop compares exactly the unmarked destination files that have no source file at their path |
| Synchronizer.PairsAreMatchedThenUnmatched | src/lib/synchronizer/Synchronizer.ts:150-196 | the traversal compares each source file once, then each destination file with no source file at its path once |
| Synchronizer.Pairs | src/lib/synchronizer/Synchronizer.ts:150-196 | at most one comparison per file; which comparisons, in which order, is stated by PairsAreMatchedThenUnmatched and NoPathComparedTwice |
| Synchronizer.NoPathComparedTwice | src/lib/synchronizer/Synchronizer.ts:150-196 | with both sides free of duplicate paths, no website path is compared twice |
| Synchronizer.CompareAll | src/lib/synchronizer/Synchronizer.ts:162-192 | the scan succeeds exactly when every comparison does, and yields at most one step per comparison |
| Synchronizer.CompareAllStopsAtFailure | src/lib/synchronizer/Synchronizer.ts:162-192 | the first failing comparison ends the scan with its error, keeping the steps found before it |
| Synchronizer.Diff | src/lib/synchronizer/Synchronizer.ts:143-203 | the diff changes only the steps and succeeds exactly when every comparison does; then the steps carry exactly the files of the old and new steps sorted by tag, in that order, with nothing left mergeable; on failure the plan is the old steps followed by the steps found before the failing comparison, unsorted |
| Synchronizer.RunAll | src/lib/synchronizer/Synchronizer.ts:53-57 | running steps keeps every collection alive and filed under its own identity |
| Synchronizer.Run | src/lib/synchronizer/Synchronizer.ts:48-58 | a dry-run plan is refused outright and changes nothing; otherwise its steps run in order |
| Synchronizer.RunAllAppend | src/lib/synchronizer/Synchronizer.ts:53-57 | running two step lists is running the first and, only if it succeeded, the second from where it left off |
| Synchronizer.RunStopsAtFailure | src/lib/synchronizer/Synchronizer.ts:53-57 | once a step fails, no later step runs |
| Synchronizer.RunDry | src/lib/synchronizer/Synchronizer.ts:38-46 | one line per step, in plan order, each the step's description |
| Synchronizer.DryRunNamesKinds | src/lib/synchronizer/Synchronizer.ts:38-46 | a dry run's line names the kind of its step: new-file upload or bulk delete |
| SynchronizerExamples.QuietDiff | src/lib/synchronizer/Synchronizer.ts:143-203 | a diff whose comparisons all find nothing leaves an empty plan as it was |
| SynchronizerExamples.NewSiteUploadsInBatches | src/lib/synchronizer/Synchronizer.test.ts:14-40 | n source files against an empty Neocities site give ceil(n / B) new-file uploads, all full but the last |
| SynchronizerExamples.UploadsTest | src/lib/synchronizer/Synchronizer.test.ts:14-40 | 100 local files to an empty site give five uploads of 20 new files |
| SynchronizerExamples.StaleSiteDeletesInBatches | src/lib/synchronizer/Synchronizer.test.ts:42-67 | an empty source against a site of n deletable files gives ceil(n / B) bulk deletes, all full but the last |
| SynchronizerExamples.DeletesTest | src/lib/synchronizer/Synchronizer.test.ts:42-67 | 100 text files leave a site in five deletes of 20 |
| SynchronizerExamples.KeptOrphansNoSteps | src/lib/synchronizer/Synchronizer.ts:118-126 | when every destination file is kept, an empty source plans nothing |
| SynchronizerExamples.DoesNotDeleteByDefault | src/lib/synchronizer/Synchronizer.test.ts:69-82 | with deleting off, nothing in the destination goes |
| SynchronizerExamples.DoesNotOverwriteByDefault | src/lib/synchronizer/Synchronizer.test.ts:84-101 | the same page on both sides with overwriting off plans nothing |
| SynchronizerExamples.DoesNotDeleteSupporterFiles | src/lib/synchronizer/Synchronizer.test.ts:103-116 | the lone destination file "test.mp3" stays even with deleting on |
| SynchronizerExamples.ChangedFileIsReuploaded | src/lib/synchronizer/Synchronizer.ts:84-101 | one file each side at one path, hashes differing, overwriting on: exactly one overwriting upload of the source file |
| SynchronizerExamples.UploadsOnHashMismatch | src/lib/synchronizer/Synchronizer.test.ts:118-143 | a local index page whose hash differs from the remote one is re-uploaded with force, as the only step |
| SynchronizerExamples.SelfDiffNoSteps | src/lib/synchronizer/Synchronizer.ts:143-203 | a duplicate-free collection diffed against itself plans nothing |
| SynchronizerExamples.OwnPathFindsItself | src/lib/filesystem/Filesystem.ts:10-18 | in a duplicate-free collection, looking up a file's own path finds that file |
| SynchronizerExamples.PlaceholderSourceFailsDiff | src/lib/synchronizer/Synchronizer.ts:84-88 | with overwriting on, a dummy source file cannot hash, so the diff fails with nothing planned |

## Left out

- `refetch` (src/lib/neocities/NeocitiesFilesystem.ts:160-189) is not modelled. What an uncommitted remote file's hash and size come to is an `Io` answer, so the slow path of `getHash`/`getSize` is an oracle.
- From LocalFilesystem.ts and WritableLocalFilesystem.ts the model keeps the file kinds and their rules: the `LocalDir(root)` collection kind, the `LocalDisk(systemPath, writable)` backend, the existence check of a local `initiallyWrite`, the refusals of a read-only file, the read-only local clone and the local placeholder. Directory walking, SHA-1 hashing and disk writes are left out; they are `Io` answers.
- Filesystem.CreateUncommittedFile: a local directory's placeholder keeps the path as given and joins it to the root with one "/". The source first applies node's `path.posix.normalize` and then `path.join`, so "a/../b.html" becomes "b.html" there. Node's path normalisation is not modelled.
- Filesystem.ReadStream: a local file's stream always opens, as `createReadStream` opens lazily. An error raised later while the stream is read (a missing file, say) is disk I/O and is not modelled.
- The HTTP client is replaced by the `upload` and `remove` oracles: NeocitiesApi.ts, the mock API, form data and URLs.
- `Progress`, `predictProgress`, the progress display and `async`/`await` carry no planning logic and are left out. Each step is a function of its inputs.
- The gitignore pattern language is left out. `gitignore-parser` is a library outside the repository, so the compiled patterns are the parameter `compile`.
- `readFromPath` reads the ignore file from disk, so it is the parameter `readFile`.
- `getActionFromFileHashMismatch` (src/lib/synchronizer/Synchronizer.ts:60-75) is never called, so it is left out.
- `readAsString`, `readAsBuffer` and `toString` are left out. Only the label a file's `toString` prints enters the model, as `Filesystem.Label`.
- The command line in src/index.ts is left out.
- NeocitiesFilesystem.UploadedFilesAreHeld: assumes website paths do not start with "/", that is, raw paths carry at most one leading slash. The committed copies are created from the already stripped path, and stripping again would otherwise remove a second slash.
- NeocitiesFilesystem.LoadFromListing: its own contract states only that identity and kind are kept. What it does to the files is stated by LoadEntry, LoadAllKeepsCommitted, ListedPathsCommitted and ListedFileStaysAfterDelete.
- Filesystem.WebsitePath, Filesystem.MatchesPath and SyncAction.Describe carry no contract of their own. Almost every proof mentions them, and a clause on them would enter each of those proofs. The lemmas named in their rows state their meaning.
- Filesystem.DirectoryName: its own contract only rules out ".". The null cases and the parent directory are stated by DirectoryNameIsParent, a lemma kept apart for the same reason.
- Filesystem.Label: its own contract states only the brackets. LabelsTellPathsApart states that a label identifies its file's path within one class; the label's exact text is the one the source prints.
- Synchronizer.Pairs: its own contract is only a length bound. The traversal it performs is stated by SourcePassMatchesAll, DestPassTakesUnmatched, PairsAreMatchedThenUnmatched and NoPathComparedTwice.
- PlanOrdering.Compact: its own contract is only a length bound. Its meaning is stated by CompactInPlace, CompactKeepsFiles, CompactKeepsCaps and CompactLeavesNothingToMerge.
- PlanOrdering.SortByTag models `Array.prototype.sort` as a stable insertion sort. The order it produces is the one any stable sort produces. The comparator calls the engine makes are not modelled.

## Findings

| source | as written | input that shows it | evidently intended | confidence | as-written member | corrected member |
|---|---|---|---|---|---|---|
| src/lib/neocities/NeocitiesFilesystem.ts:24-33 | the back-reference is set on one new instance, but a second, fresh instance is added, and it names no collection | a listing with one new file path into an empty collection, then `delete()` of the file it added | the added file names its collection, so that `delete()` removes it | not executed | NeocitiesFilesystem.ListedFileStaysAfterDelete | NeocitiesFilesystem.IntendedListedFileLeavesOnDelete |
