/**
 * Whole diffs worked through: the situations the planner's own test suite
 * sets up, stated for every collection of their shape, plus diffing a
 * collection against itself and a diff that fails.
 */
module SynchronizerExamples {
  import opened Results
  import opened Filesystem
  import opened SyncAction
  import opened PlanOrdering
  import opened Synchronizer

  // ----------------------------------------------------------------- helpers

  /** A scan in which every comparison finds nothing to do. */
  lemma {:induction false} QuietScan(plan: Plan, to: Collection, ps: seq<Pair>, io: Io)
    requires forall i :: 0 <= i < |ps| ==> CompareFile(plan, to, ps[i].src, ps[i].dst, io) == Ok(None)
    ensures CompareAll(plan, to, ps, io) == Scan([], Done)
  {
    if ps != [] {
      var tail := ps[1..];
      forall i | 0 <= i < |tail|
        ensures CompareFile(plan, to, tail[i].src, tail[i].dst, io) == Ok(None)
      {
        assert tail[i] == ps[i + 1];
      }
      QuietScan(plan, to, tail, io);
    }
  }

  /** No destination file is left unmatched when each is marked or has a source file at its path. */
  lemma UnmatchedEmpty(files: seq<File>, from: Collection, compared: set<FileId>)
    requires forall k :: 0 <= k < |files| ==>
      files[k].id in compared || GetFromPath(from, WebsitePath(files[k])).Some?
    ensures Unmatched(files, from, compared) == []
  {
  }

  /** A diff whose comparisons all find nothing leaves an empty plan as it was. */
  lemma QuietDiff(plan: Plan, from: Collection, to: Collection, io: Io)
    requires plan.actions == []
    requires CompareAll(plan, to, Pairs(from, to), io) == Scan([], Done)
    ensures Diff(plan, from, to, io) == Diffed(plan, Done)
  {
    assert plan.actions + [] == [];
  }

  /** A scan of one comparison that finds a step holds that step alone. */
  lemma OnePairScan(plan: Plan, to: Collection, pr: Pair, io: Io, a: Action)
    requires CompareFile(plan, to, pr.src, pr.dst, io) == Ok(Some(a))
    ensures CompareAll(plan, to, [pr], io) == Scan([a], Done)
  {
    assert [pr][1..] == [];
    assert [a] + [] == [a];
  }

  /** A diff from an empty plan whose scan finds one step plans exactly that step. */
  lemma OneStepDiff(plan: Plan, from: Collection, to: Collection, io: Io, a: Action)
    requires plan.actions == []
    requires CompareAll(plan, to, Pairs(from, to), io) == Scan([a], Done)
    ensures Diff(plan, from, to, io) == Diffed(plan.(actions := [a]), Done)
  {
    assert plan.actions + [a] == [a];
    assert SortByTag([a]) == [a];
  }

  /** Against an empty Neocities site, every source file becomes its own new-file upload. */
  lemma {:induction false} NewFilesUpload(plan: Plan, to: Collection, files: seq<File>, io: Io)
    requires to.kind.Neocities? && to.files == []
    ensures var sc := CompareAll(plan, to, Matched(files, to), io);
      && sc.status == Done && |sc.actions| == |files|
      && forall i :: 0 <= i < |files| ==> sc.actions[i] == BulkUpload(to.id, [files[i]], plan.uploadBatchCount, false)
  {
    if files != [] {
      NewFilesUpload(plan, to, files[1..], io);
      assert Matched(files, to)[1..] == Matched(files[1..], to);
      assert Matched(files, to)[0] == Pair(Some(files[0]), None);
    }
  }

  /** With no source files, every destination file allowed to go becomes its own batch delete. */
  lemma {:induction false} OrphansDelete(plan: Plan, from: Collection, to: Collection, files: seq<File>, io: Io)
    requires to.kind.Neocities? && from.files == [] && plan.shouldDelete
    requires forall i :: 0 <= i < |files| ==> IsSupportedOnFree(files[i]) || plan.shouldDeleteSupporter
    ensures var sc := CompareAll(plan, to, Unmatched(files, from, {}), io);
      && sc.status == Done && |sc.actions| == |files|
      && forall i :: 0 <= i < |files| ==> sc.actions[i] == BulkDelete(to.id, [files[i]], plan.deleteBatchCount)
  {
    if files != [] {
      var tail := files[1..];
      forall i | 0 <= i < |tail|
        ensures IsSupportedOnFree(tail[i]) || plan.shouldDeleteSupporter
      {
        assert tail[i] == files[i + 1];
      }
      OrphansDelete(plan, from, to, tail, io);
      var ps := Unmatched(files, from, {});
      LoneOrphanFront(files, from);
      var a := BulkDelete(to.id, [files[0]], plan.deleteBatchCount);
      OrphanCompared(plan, to, files[0], io);
      ScanFront(plan, to, ps, io, a);
      var rest := CompareAll(plan, to, Unmatched(tail, from, {}), io);
      forall i | 0 <= i < |files|
        ensures ([a] + rest.actions)[i] == BulkDelete(to.id, [files[i]], plan.deleteBatchCount)
      {
        if i > 0 { assert files[i] == tail[i - 1]; }
      }
    }
  }

  /** With no source files, the first destination file is compared alone, ahead of the rest. */
  lemma LoneOrphanFront(files: seq<File>, from: Collection)
    requires files != [] && from.files == []
    ensures var ps := Unmatched(files, from, {});
      ps != [] && ps[0] == Pair(None, Some(files[0])) && ps[1..] == Unmatched(files[1..], from, {})
  {
    assert GetFromPath(from, WebsitePath(files[0])).None?;
    assert Unmatched(files, from, {}) == [Pair(None, Some(files[0]))] + Unmatched(files[1..], from, {});
  }

  /** A deletable destination file without a source file becomes a one-file batch delete. */
  lemma OrphanCompared(plan: Plan, to: Collection, f: File, io: Io)
    requires to.kind.Neocities? && plan.shouldDelete && (IsSupportedOnFree(f) || plan.shouldDeleteSupporter)
    ensures CompareFile(plan, to, None, Some(f), io) == Ok(Some(BulkDelete(to.id, [f], plan.deleteBatchCount)))
  {
  }

  /** A first comparison that finds a step puts it in front of the steps of the rest of the scan. */
  lemma ScanFront(plan: Plan, to: Collection, ps: seq<Pair>, io: Io, a: Action)
    requires ps != [] && CompareFile(plan, to, ps[0].src, ps[0].dst, io) == Ok(Some(a))
    ensures var rest := CompareAll(plan, to, ps[1..], io);
      CompareAll(plan, to, ps, io) == Scan([a] + rest.actions, rest.status)
  {
  }

  /** One-file steps of one kind stay one-file steps of that kind when sorted. */
  lemma SortKeepsSingles(s: seq<Action>, a: Action, cap: int)
    requires Singles(s, a, cap)
    ensures |SortByTag(s)| == |s| && Singles(SortByTag(s), a, cap)
  {
    var r := SortByTag(s);
    assert |multiset(r)| == |multiset(s)|;
    forall i | 0 <= i < |r|
      ensures SameBatchKind(a, r[i]) && |r[i].files| == 1 && r[i].batchSize == cap
    {
      assert r[i] in multiset(r);
      var k :| 0 <= k < |s| && s[k] == r[i];
    }
  }

  /** Bulk steps of one kind: a step of the same kind as one of them is of the same kind as all. */
  lemma SingleKind(s: seq<Action>, a: Action, cap: int)
    requires |s| > 0 && IsBulk(a) && Singles(s, a, cap)
    ensures IsBulk(s[0]) && Singles(s, s[0], cap)
    ensures forall b :: SameBatchKind(s[0], b) ==> SameBatchKind(a, b)
  {
  }

  /** Batches of singles: sorting and compacting `n` of them with cap `cap` gives ceil(n / cap) batches. */
  lemma SinglesBatch(s: seq<Action>, a: Action, cap: int)
    requires |s| > 0 && cap >= 1 && IsBulk(a) && Singles(s, a, cap)
    ensures var r := Compact(SortByTag(s));
      && |r| == Batches(|s|, cap)
      && forall i :: 0 <= i < |r| ==> SameBatchKind(a, r[i]) && (i < |r| - 1 ==> |r[i].files| == cap)
  {
    var t := SortByTag(s);
    SortKeepsSingles(s, a, cap);
    SingleKind(t, a, cap);
    SinglesCompact(t, cap);
  }

  /**
   * A diff from an empty plan whose comparisons all succeed with `n`
   * one-file steps of one bulk kind plans ceil(n / cap) batches of that kind.
   */
  lemma BatchedDiff(plan: Plan, from: Collection, to: Collection, io: Io, a: Action, cap: int, n: int)
    requires plan.actions == [] && cap >= 1 && IsBulk(a)
    requires CompareAll(plan, to, Pairs(from, to), io).status == Done
    requires |CompareAll(plan, to, Pairs(from, to), io).actions| == n > 0
    requires Singles(CompareAll(plan, to, Pairs(from, to), io).actions, a, cap)
    ensures var r := Diff(plan, from, to, io).plan.actions;
      && Diff(plan, from, to, io).status == Done
      && |r| == Batches(n, cap)
      && forall i :: 0 <= i < |r| ==> SameBatchKind(a, r[i]) && (i < |r| - 1 ==> |r[i].files| == cap)
  {
    var s := CompareAll(plan, to, Pairs(from, to), io).actions;
    assert plan.actions + s == s;
    SinglesBatch(s, a, cap);
  }

  // ------------------------------------------------------------ the scenarios

  /** Against an empty Neocities site, the comparisons yield one new-file upload per source file. */
  lemma NewSiteScan(plan: Plan, from: Collection, to: Collection, io: Io)
    requires to.kind.Neocities? && to.files == [] && DistinctIds(from.files)
    ensures var sc := CompareAll(plan, to, Pairs(from, to), io);
      && sc.status == Done && |sc.actions| == |from.files|
      && Singles(sc.actions, BulkUpload(to.id, [], plan.uploadBatchCount, false), plan.uploadBatchCount)
  {
    PairsOfEmptySite(from, to);
    NewFilesUpload(plan, to, from.files, io);
    var sc := CompareAll(plan, to, Matched(from.files, to), io);
    var u := BulkUpload(to.id, [], plan.uploadBatchCount, false);
    forall i | 0 <= i < |sc.actions|
      ensures SameBatchKind(u, sc.actions[i]) && |sc.actions[i].files| == 1 && sc.actions[i].batchSize == plan.uploadBatchCount
    {
    }
  }

  /** Against an empty destination, the comparisons are the source files matched in order. */
  lemma PairsOfEmptySite(from: Collection, to: Collection)
    requires to.files == [] && DistinctIds(from.files)
    ensures Pairs(from, to) == Matched(from.files, to)
  {
    PairsAreMatchedThenUnmatched(from, to);
    assert Unmatched(to.files, from, IdsOf(from.files)) == [];
    assert Matched(from.files, to) + [] == Matched(from.files, to);
  }

  /**
   * A source of `n` files diffed against an empty Neocities site: ceil(n / B)
   * new-file uploads of batch size B, each full but the last.
   */
  lemma NewSiteUploadsInBatches(plan: Plan, from: Collection, to: Collection, io: Io)
    requires to.kind.Neocities? && to.files == [] && |from.files| > 0 && DistinctIds(from.files)
    requires plan.actions == [] && plan.uploadBatchCount >= 1
    ensures var r := Diff(plan, from, to, io);
      && r.status == Done
      && |r.plan.actions| == Batches(|from.files|, plan.uploadBatchCount)
      && forall i :: 0 <= i < |r.plan.actions| ==>
           r.plan.actions[i].BulkUpload? && !r.plan.actions[i].force &&
           (i < |r.plan.actions| - 1 ==> |r.plan.actions[i].files| == plan.uploadBatchCount)
  {
    var a := BulkUpload(to.id, [], plan.uploadBatchCount, false);
    NewSiteScan(plan, from, to, io);
    BatchedDiff(plan, from, to, io, a, plan.uploadBatchCount, |from.files|);
    var r := Diff(plan, from, to, io).plan.actions;
    forall i | 0 <= i < |r|
      ensures r[i].BulkUpload? && !r[i].force
    {
      assert SameBatchKind(a, r[i]);
    }
  }

  /** The "uploads" test: a hundred local files reach an empty site in five full batches of new files. */
  lemma UploadsTest(plan: Plan, from: Collection, to: Collection, io: Io)
    requires plan == NewPlan()
    requires to.kind.Neocities? && to.files == [] && |from.files| == 100 && DistinctIds(from.files)
    ensures var r := Diff(plan, from, to, io);
      && r.status == Done && |r.plan.actions| == 5
      && r.plan.actions[0].BulkUpload? && !r.plan.actions[0].force && |r.plan.actions[0].files| == 20
  {
    NewSiteUploadsInBatches(plan, from, to, io);
  }

  /** With no source files and deleting on, the comparisons yield one batch delete per deletable site file. */
  lemma StaleSiteScan(plan: Plan, from: Collection, to: Collection, io: Io)
    requires to.kind.Neocities? && from.files == [] && DistinctIds(to.files) && plan.shouldDelete
    requires forall i :: 0 <= i < |to.files| ==> IsSupportedOnFree(to.files[i]) || plan.shouldDeleteSupporter
    ensures var sc := CompareAll(plan, to, Pairs(from, to), io);
      && sc.status == Done && |sc.actions| == |to.files|
      && Singles(sc.actions, BulkDelete(to.id, [], plan.deleteBatchCount), plan.deleteBatchCount)
  {
    PairsOfEmptySource(from, to);
    OrphansDelete(plan, from, to, to.files, io);
    var sc := CompareAll(plan, to, Unmatched(to.files, from, {}), io);
    var d := BulkDelete(to.id, [], plan.deleteBatchCount);
    forall i | 0 <= i < |sc.actions|
      ensures SameBatchKind(d, sc.actions[i]) && |sc.actions[i].files| == 1 && sc.actions[i].batchSize == plan.deleteBatchCount
    {
    }
  }

  /** With no source files, the comparisons are the destination files alone, in order. */
  lemma PairsOfEmptySource(from: Collection, to: Collection)
    requires from.files == [] && DistinctIds(to.files)
    ensures Pairs(from, to) == Unmatched(to.files, from, {})
  {
    PairsAreMatchedThenUnmatched(from, to);
    assert IdsOf(from.files) == {};
    assert Matched(from.files, to) == [];
    assert [] + Unmatched(to.files, from, {}) == Unmatched(to.files, from, {});
  }

  /**
   * An empty source diffed against a Neocities site of `n` files, deleting
   * on and every file deletable: ceil(n / B) batch deletes, each full but the last.
   */
  lemma StaleSiteDeletesInBatches(plan: Plan, from: Collection, to: Collection, io: Io)
    requires to.kind.Neocities? && from.files == [] && |to.files| > 0 && DistinctIds(to.files)
    requires plan.actions == [] && plan.deleteBatchCount >= 1 && plan.shouldDelete
    requires forall i :: 0 <= i < |to.files| ==> IsSupportedOnFree(to.files[i]) || plan.shouldDeleteSupporter
    ensures var r := Diff(plan, from, to, io);
      && r.status == Done
      && |r.plan.actions| == Batches(|to.files|, plan.deleteBatchCount)
      && forall i :: 0 <= i < |r.plan.actions| ==>
           r.plan.actions[i].BulkDelete? &&
           (i < |r.plan.actions| - 1 ==> |r.plan.actions[i].files| == plan.deleteBatchCount)
  {
    var a := BulkDelete(to.id, [], plan.deleteBatchCount);
    StaleSiteScan(plan, from, to, io);
    BatchedDiff(plan, from, to, io, a, plan.deleteBatchCount, |to.files|);
    var r := Diff(plan, from, to, io).plan.actions;
    forall i | 0 <= i < |r|
      ensures r[i].BulkDelete?
    {
      assert SameBatchKind(a, r[i]);
    }
  }

  /** "txt" is on the free list. */
  lemma TextIsFree(f: File)
    requires FileExtension(f) == "txt"
    ensures IsSupportedOnFree(f)
  {
    IncludesAt(Consts.FreeFileTypes, "txt");
    assert "txt" in Consts.FreeFileTypes;
  }

  /** Text files may go on a free account. */
  lemma TextFilesDeletable(plan: Plan, to: Collection)
    requires forall i :: 0 <= i < |to.files| ==> FileExtension(to.files[i]) == "txt"
    ensures forall i :: 0 <= i < |to.files| ==> IsSupportedOnFree(to.files[i]) || plan.shouldDeleteSupporter
  {
    forall i | 0 <= i < |to.files|
      ensures IsSupportedOnFree(to.files[i])
    {
      TextIsFree(to.files[i]);
    }
  }

  /** The "deletes" test: a hundred text files leave a site in five full batch deletes. */
  lemma DeletesTest(plan: Plan, from: Collection, to: Collection, io: Io)
    requires plan == NewPlan().(shouldDelete := true)
    requires to.kind.Neocities? && from.files == [] && |to.files| == 100 && DistinctIds(to.files)
    requires forall i :: 0 <= i < |to.files| ==> FileExtension(to.files[i]) == "txt"
    ensures var r := Diff(plan, from, to, io);
      && r.status == Done && |r.plan.actions| == 5
      && r.plan.actions[0].BulkDelete? && |r.plan.actions[0].files| == 20
  {
    TextFilesDeletable(plan, to);
    StaleSiteDeletesInBatches(plan, from, to, io);
  }

  /** With no source files and every destination file kept, the diff plans nothing. */
  lemma KeptOrphansNoSteps(plan: Plan, from: Collection, to: Collection, io: Io)
    requires from.files == [] && plan.actions == [] && DistinctIds(to.files)
    requires forall i :: 0 <= i < |to.files| ==> KeepsOrphan(plan, to.files[i])
    ensures Diff(plan, from, to, io) == Diffed(plan, Done)
  {
    PairsAreMatchedThenUnmatched(from, to);
    assert IdsOf(from.files) == {};
    var ps := Pairs(from, to);
    UnmatchedShape(to.files, from, {});
    forall i | 0 <= i < |ps|
      ensures CompareFile(plan, to, ps[i].src, ps[i].dst, io) == Ok(None)
    {
      assert ps[i] in ps;
      var k :| 0 <= k < |to.files| && to.files[k] == ps[i].dst.value;
    }
    QuietScan(plan, to, ps, io);
    QuietDiff(plan, from, to, io);
  }

  /** With deleting off, every destination file is kept. */
  lemma NoDeleteKeepsAll(plan: Plan, to: Collection)
    requires !plan.shouldDelete
    ensures forall i :: 0 <= i < |to.files| ==> KeepsOrphan(plan, to.files[i])
  {
  }

  /** A single destination file that is kept. */
  lemma LoneOrphanKept(plan: Plan, to: Collection)
    requires |to.files| == 1 && KeepsOrphan(plan, to.files[0])
    ensures DistinctIds(to.files)
    ensures forall i :: 0 <= i < |to.files| ==> KeepsOrphan(plan, to.files[i])
  {
    forall i | 0 <= i < |to.files|
      ensures KeepsOrphan(plan, to.files[i])
    {
      assert i == 0;
    }
  }

  /** The "doesn't delete by default" test: deleting is off, so nothing in the destination goes. */
  lemma DoesNotDeleteByDefault(plan: Plan, from: Collection, to: Collection, io: Io)
    requires plan == NewPlan().(shouldOverwrite := true)
    requires from.files == [] && DistinctIds(to.files)
    ensures Diff(plan, from, to, io) == Diffed(plan, Done)
  {
    NoDeleteKeepsAll(plan, to);
    KeptOrphansNoSteps(plan, from, to, io);
  }

  /** The "doesn't delete supporter files by default" test: an mp3 file stays even with deleting on. */
  lemma DoesNotDeleteSupporterFiles(plan: Plan, from: Collection, to: Collection, io: Io)
    requires plan == NewPlan().(shouldDelete := true)
    requires from.files == [] && |to.files| == 1 && to.files[0].rawPath == "test.mp3"
    ensures Diff(plan, from, to, io) == Diffed(plan, Done)
  {
    MpThreeIsNotFree(to.files[0], "test");
    LoneOrphanKept(plan, to);
    KeptOrphansNoSteps(plan, from, to, io);
  }

  /** Each side holding a file at every path of the other, with overwriting off, the diff plans nothing. */
  lemma SamePathsNoOverwriteNoSteps(plan: Plan, from: Collection, to: Collection, io: Io)
    requires !plan.shouldOverwrite && plan.actions == []
    requires DistinctIds(from.files) && DistinctIds(to.files)
    requires forall i :: 0 <= i < |from.files| ==> GetFromPath(to, WebsitePath(from.files[i])).Some?
    requires forall i :: 0 <= i < |to.files| ==> GetFromPath(from, WebsitePath(to.files[i])).Some?
    ensures Diff(plan, from, to, io) == Diffed(plan, Done)
  {
    PairsAreMatchedThenUnmatched(from, to);
    var m := Matched(from.files, to);
    var u := Unmatched(to.files, from, IdsOf(from.files));
    UnmatchedShape(to.files, from, IdsOf(from.files));
    UnmatchedEmpty(to.files, from, IdsOf(from.files));
    assert Pairs(from, to) == m;
    MatchedQuiet(plan, from, to, io);
    QuietScan(plan, to, m, io);
    QuietDiff(plan, from, to, io);
  }

  /** With overwriting off, a source file with a destination file at its path needs nothing. */
  lemma MatchedQuiet(plan: Plan, from: Collection, to: Collection, io: Io)
    requires !plan.shouldOverwrite
    requires forall i :: 0 <= i < |from.files| ==> GetFromPath(to, WebsitePath(from.files[i])).Some?
    ensures var m := Matched(from.files, to);
      forall i :: 0 <= i < |m| ==> CompareFile(plan, to, m[i].src, m[i].dst, io) == Ok(None)
  {
    var m := Matched(from.files, to);
    forall i | 0 <= i < |m|
      ensures CompareFile(plan, to, m[i].src, m[i].dst, io) == Ok(None)
    {
      assert m[i].src.Some? && m[i].dst.Some?;
    }
  }

  /** One file on each side, at the same path: each finds the other. */
  lemma LonePairMatched(from: Collection, to: Collection)
    requires |from.files| == 1 && |to.files| == 1 && WebsitePath(from.files[0]) == WebsitePath(to.files[0])
    ensures DistinctIds(from.files) && DistinctIds(to.files)
    ensures forall i :: 0 <= i < |from.files| ==> GetFromPath(to, WebsitePath(from.files[i])).Some?
    ensures forall i :: 0 <= i < |to.files| ==> GetFromPath(from, WebsitePath(to.files[i])).Some?
  {
    assert MatchesPath(to.files[0], WebsitePath(from.files[0]));
    assert MatchesPath(from.files[0], WebsitePath(to.files[0]));
  }

  /** The "doesn't overwrite by default" test: the same page on both sides, overwriting off, nothing planned. */
  lemma DoesNotOverwriteByDefault(plan: Plan, from: Collection, to: Collection, io: Io)
    requires plan == NewPlan().(shouldDelete := true)
    requires |from.files| == 1 && |to.files| == 1
    requires WebsitePath(from.files[0]) == "index.html" && WebsitePath(to.files[0]) == "index.html"
    ensures Diff(plan, from, to, io) == Diffed(plan, Done)
  {
    LonePairMatched(from, to);
    SamePathsNoOverwriteNoSteps(plan, from, to, io);
  }

  /**
   * One file on each side at the same path, with different content and
   * overwriting on: a single overwriting upload of the source file.
   */
  lemma ChangedFileIsReuploaded(plan: Plan, from: Collection, to: Collection, io: Io)
    requires to.kind.Neocities? && plan.shouldOverwrite && plan.actions == []
    requires |from.files| == 1 && |to.files| == 1 && from.files[0].id != to.files[0].id
    requires WebsitePath(from.files[0]) == WebsitePath(to.files[0])
    requires GetHash(from.files[0], io).Ok? && GetHash(to.files[0], io).Ok?
    requires GetHash(from.files[0], io) != GetHash(to.files[0], io)
    ensures Diff(plan, from, to, io) ==
      Diffed(plan.(actions := [BulkUpload(to.id, [from.files[0]], plan.uploadBatchCount, true)]), Done)
  {
    var f, g := from.files[0], to.files[0];
    PairsAreMatchedThenUnmatched(from, to);
    assert IdsOf(from.files) == {f.id};
    assert MatchesPath(f, WebsitePath(g));
    UnmatchedEmpty(to.files, from, {f.id});
    assert Pairs(from, to) == [Pair(Some(f), Some(g))];
    var a := BulkUpload(to.id, [f], plan.uploadBatchCount, true);
    assert CompareFile(plan, to, Some(f), Some(g), io) == Ok(Some(a));
    OnePairScan(plan, to, Pair(Some(f), Some(g)), io, a);
    OneStepDiff(plan, from, to, io, a);
  }

  /** The "uploads on hash mismatch" test: a local page whose hash differs from the remote one is re-uploaded, overwriting. */
  lemma UploadsOnHashMismatch(plan: Plan, from: Collection, to: Collection, io: Io)
    requires plan == NewPlan().(shouldOverwrite := true)
    requires to.kind.Neocities? && |from.files| == 1 && |to.files| == 1
    requires from.files[0].backend.LocalDisk? && to.files[0].backend == Remote(Uncommitted)
    requires from.files[0].id != to.files[0].id
    requires WebsitePath(from.files[0]) == "index.html" && WebsitePath(to.files[0]) == "index.html"
    requires io.hash(from.files[0]).Ok? && io.hash(to.files[0]).Ok? && io.hash(from.files[0]) != io.hash(to.files[0])
    ensures var r := Diff(plan, from, to, io);
      r.status == Done && r.plan.actions == [BulkUpload(to.id, [from.files[0]], DefaultBatchSize, true)]
  {
    ChangedFileIsReuploaded(plan, from, to, io);
  }

  /** A collection free of duplicate paths, diffed against itself, needs nothing (when its files hash, if asked to). */
  lemma SelfDiffNoSteps(plan: Plan, c: Collection, io: Io)
    requires plan.actions == [] && DistinctIds(c.files) && PathUnique(c.files)
    requires plan.shouldOverwrite ==> forall i :: 0 <= i < |c.files| ==> GetHash(c.files[i], io).Ok?
    ensures Diff(plan, c, c, io) == Diffed(plan, Done)
  {
    SelfPairs(c);
    var m := Matched(c.files, c);
    forall i | 0 <= i < |m|
      ensures CompareFile(plan, c, m[i].src, m[i].dst, io) == Ok(None)
    {
      OwnPathFindsItself(c, i);
      SameFileQuiet(plan, c, c.files[i], io);
    }
    QuietScan(plan, c, m, io);
    QuietDiff(plan, c, c, io);
  }

  /** A collection compared with itself pairs each file with the file at its own path, and nothing more. */
  lemma SelfPairs(c: Collection)
    requires DistinctIds(c.files)
    ensures Pairs(c, c) == Matched(c.files, c)
  {
    PairsAreMatchedThenUnmatched(c, c);
    UnmatchedEmpty(c.files, c, IdsOf(c.files));
    assert Matched(c.files, c) + [] == Matched(c.files, c);
  }

  /** A file compared with itself needs nothing (when it hashes, if asked to). */
  lemma SameFileQuiet(plan: Plan, c: Collection, f: File, io: Io)
    requires plan.shouldOverwrite ==> GetHash(f, io).Ok?
    ensures CompareFile(plan, c, Some(f), Some(f), io) == Ok(None)
  {
  }

  /** In a collection free of duplicate paths, looking up a file's own path finds that file. */
  lemma OwnPathFindsItself(c: Collection, i: int)
    requires 0 <= i < |c.files| && PathUnique(c.files)
    ensures GetFromPath(c, WebsitePath(c.files[i])) == Some(c.files[i])
  {
    var p := WebsitePath(c.files[i]);
    var k := IndexOfPath(c.files, p);
    assert MatchesPath(c.files[i], p);
    assert 0 <= k <= i;
    assert WebsitePath(c.files[k]) == WebsitePath(c.files[i]);
    assert k == i;
  }

  /** With overwriting on, a source file the base class stands for cannot hash, and the diff fails before planning. */
  lemma PlaceholderSourceFailsDiff(plan: Plan, from: Collection, to: Collection, io: Io)
    requires plan.shouldOverwrite && |from.files| == 1 && from.files[0].backend.Dummy?
    requires GetFromPath(to, WebsitePath(from.files[0])).Some?
    ensures var r := Diff(plan, from, to, io);
      r.status == Err(Unimplemented) && r.plan == plan
  {
    var ps := Pairs(from, to);
    assert SourcePass(from.files, to, {}).0 == [Pair(Some(from.files[0]), GetFromPath(to, WebsitePath(from.files[0])))];
    assert ps[0] == Pair(Some(from.files[0]), GetFromPath(to, WebsitePath(from.files[0])));
    CompareAllStopsAtFailure(plan, to, ps, io, 0);
    assert plan.actions + [] == plan.actions;
  }
}
