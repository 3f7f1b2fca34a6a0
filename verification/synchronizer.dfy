/**
 * The planner (`SyncActionPlan`): it compares a source collection with a
 * destination collection file by file, gathers the steps that would make
 * the destination follow the source, sorts and batches them, and then runs
 * them one after another, or only describes them.
 */
module Synchronizer {
  import opened Results
  import opened Filesystem
  import opened SyncAction
  import opened PlanOrdering

  /** Files per remote upload or delete call unless the plan says otherwise. */
  const DefaultBatchSize: int := 20

  /** The plan: its steps and the switches the command line sets. */
  datatype Plan = Plan(
    actions: seq<Action>,
    uploadBatchCount: int,
    deleteBatchCount: int,
    shouldDelete: bool,
    shouldOverwrite: bool,
    shouldDeleteSupporter: bool,
    shouldDryRun: bool)

  /** A fresh plan: no steps, batches of twenty, nothing deleted, overwritten or skipped. */
  function NewPlan(): (p: Plan)
    ensures p.actions == []
    ensures p.uploadBatchCount == DefaultBatchSize && p.deleteBatchCount == DefaultBatchSize
    ensures !p.shouldDelete && !p.shouldOverwrite && !p.shouldDeleteSupporter && !p.shouldDryRun
  {
    Plan([], DefaultBatchSize, DefaultBatchSize, false, false, false, false)
  }

  // -------------------------------------------------------- comparing a file

  /** A destination file without a source stays: deleting is off, or it is paid-only and those are spared. */
  predicate KeepsOrphan(plan: Plan, dst: File) {
    !plan.shouldDelete || (!IsSupportedOnFree(dst) && !plan.shouldDeleteSupporter)
  }

  /** Both sides hash, to the same value. */
  predicate SameContent(src: File, dst: File, io: Io) {
    GetHash(src, io).Ok? && GetHash(dst, io) == GetHash(src, io)
  }

  /**
   * `compareFile`: the step, if any, that brings the destination's file at
   * one website path in line with the source's. Only the two hashes can
   * fail, the source's first.
   */
  function CompareFile(plan: Plan, to: Collection, src: Option<File>, dst: Option<File>, io: Io): (r: Answer<Option<Action>>)
    ensures r.Err? <==>
      (src.Some? && dst.Some? && plan.shouldOverwrite && (GetHash(src.value, io).Err? || GetHash(dst.value, io).Err?))
    ensures r.Err? && GetHash(src.value, io).Err? ==> r.error == GetHash(src.value, io).error
    ensures r.Err? && GetHash(src.value, io).Ok? ==> r.error == GetHash(dst.value, io).error
    ensures r == Ok(None) <==>
      || (src.None? && dst.None?)
      || (src.Some? && dst.Some? && (!plan.shouldOverwrite || SameContent(src.value, dst.value, io)))
      || (src.None? && dst.Some? && KeepsOrphan(plan, dst.value))
    ensures r.Ok? && r.value.Some? ==>
      var a := r.value.value;
      && Subjects(a) == (if src.Some? then [src.value] else [dst.value])
      && (IsBulk(a) <==> to.kind.Neocities?)
      && (a.BulkUpload? || a.CopyReplace? || a.CopyCreate? <==> src.Some?)
      && (a.BulkUpload? ==> a.dest == to.id && a.batchSize == plan.uploadBatchCount && (a.force <==> dst.Some?))
      && (a.BulkDelete? ==> a.dest == to.id && a.batchSize == plan.deleteBatchCount)
      && (a.CopyReplace? ==> dst == Some(a.target))
      && (a.CopyCreate? ==> dst.None? && a.dest == to.id && a.destKind == to.kind)
  {
    if src.Some? && dst.Some? then
      if !plan.shouldOverwrite then Ok(None)
      else
        var hashFrom := GetHash(src.value, io);
        if hashFrom.Err? then Err(hashFrom.error)
        else
          var hashTo := GetHash(dst.value, io);
          if hashTo.Err? then Err(hashTo.error)
          else if hashFrom.value == hashTo.value then Ok(None)
          else if to.kind.Neocities? then Ok(Some(BulkUpload(to.id, [src.value], plan.uploadBatchCount, true)))
          else Ok(Some(CopyReplace(src.value, dst.value)))
    else if src.Some? then
      if to.kind.Neocities? then Ok(Some(BulkUpload(to.id, [src.value], plan.uploadBatchCount, false)))
      else Ok(Some(CopyCreate(src.value, to.id, to.kind)))
    else if dst.Some? then
      if !plan.shouldDelete then Ok(None)
      else if !IsSupportedOnFree(dst.value) && !plan.shouldDeleteSupporter then Ok(None)
      else if to.kind.Neocities? then Ok(Some(BulkDelete(to.id, [dst.value], plan.deleteBatchCount)))
      else Ok(Some(Delete(dst.value)))
    else Ok(None)
  }

  // ------------------------------------------------------- pairing the files

  /** One comparison: the source file and the destination file at one website path. */
  datatype Pair = Pair(src: Option<File>, dst: Option<File>)

  /** The identities of `files`. */
  function IdsOf(files: seq<File>): set<FileId> {
    set i | 0 <= i < |files| :: files[i].id
  }

  /**
   * The first loop, over the source files: each one not yet compared is
   * marked and paired with the destination's file at its path. Also
   * answers the identities marked by the end.
   */
  function SourcePass(files: seq<File>, to: Collection, compared: set<FileId>): (r: (seq<Pair>, set<FileId>))
    ensures |r.0| <= |files|
  {
    if files == [] then ([], compared)
    else if files[0].id in compared then SourcePass(files[1..], to, compared)
    else
      var rest := SourcePass(files[1..], to, compared + {files[0].id});
      ([Pair(Some(files[0]), GetFromPath(to, WebsitePath(files[0])))] + rest.0, rest.1)
  }

  /**
   * The second loop, over the destination files: each one not yet compared
   * is marked, and compared unless the source's file at its path was.
   */
  function DestPass(files: seq<File>, from: Collection, compared: set<FileId>): (r: seq<Pair>)
    ensures |r| <= |files|
  {
    if files == [] then []
    else if files[0].id in compared then DestPass(files[1..], from, compared)
    else
      var now := compared + {files[0].id};
      var src := GetFromPath(from, WebsitePath(files[0]));
      var rest := DestPass(files[1..], from, now);
      if src.Some? && src.value.id in now then rest
      else [Pair(src, Some(files[0]))] + rest
  }

  /** Every comparison `diffFilesystems` makes, in order. */
  function Pairs(from: Collection, to: Collection): (r: seq<Pair>)
    ensures |r| <= |from.files| + |to.files|
  {
    var first := SourcePass(from.files, to, {});
    first.0 + DestPass(to.files, from, first.1)
  }

  /** Reference: every source file with the destination's file at its path. */
  function Matched(files: seq<File>, to: Collection): (r: seq<Pair>)
    ensures |r| == |files|
    ensures forall i :: 0 <= i < |files| ==> r[i] == Pair(Some(files[i]), GetFromPath(to, WebsitePath(files[i])))
  {
    seq(|files|, i requires 0 <= i < |files| => Pair(Some(files[i]), GetFromPath(to, WebsitePath(files[i]))))
  }

  /** Reference: the destination files neither marked nor matched by a source path, alone, in order. */
  function Unmatched(files: seq<File>, from: Collection, compared: set<FileId>): seq<Pair> {
    if files == [] then []
    else
      (if files[0].id !in compared && GetFromPath(from, WebsitePath(files[0])).None?
       then [Pair(None, Some(files[0]))] else [])
      + Unmatched(files[1..], from, compared)
  }

  lemma MatchedCons(files: seq<File>, to: Collection)
    requires files != []
    ensures Matched(files, to) == [Pair(Some(files[0]), GetFromPath(to, WebsitePath(files[0])))] + Matched(files[1..], to)
  {
  }

  lemma IdsOfCons(files: seq<File>)
    requires files != []
    ensures IdsOf(files) == {files[0].id} + IdsOf(files[1..])
  {
    forall id | id in IdsOf(files)
      ensures id in {files[0].id} + IdsOf(files[1..])
    {
      var i :| 0 <= i < |files| && files[i].id == id;
      if i > 0 {
        assert files[1..][i - 1].id == id;
      }
    }
    forall id | id in IdsOf(files[1..])
      ensures id in IdsOf(files)
    {
      var i :| 0 <= i < |files[1..]| && files[1..][i].id == id;
      assert files[i + 1].id == id;
    }
  }

  /** With distinct identities none of them marked, the first loop compares every source file, in order. */
  lemma {:induction false} SourcePassMatchesAll(files: seq<File>, to: Collection, compared: set<FileId>)
    requires DistinctIds(files)
    requires forall i :: 0 <= i < |files| ==> files[i].id !in compared
    ensures SourcePass(files, to, compared).0 == Matched(files, to)
    ensures SourcePass(files, to, compared).1 == compared + IdsOf(files)
  {
    if files != [] {
      var tail := files[1..];
      forall i | 0 <= i < |tail|
        ensures tail[i].id !in compared + {files[0].id}
      {
        assert tail[i] == files[i + 1];
      }
      assert DistinctIds(tail) by {
        forall i, j | 0 <= i < j < |tail|
          ensures tail[i].id != tail[j].id
        {
          assert tail[i] == files[i + 1] && tail[j] == files[j + 1];
        }
      }
      SourcePassMatchesAll(tail, to, compared + {files[0].id});
      MatchedCons(files, to);
      IdsOfCons(files);
    }
  }

  /** Marking an identity no file has changes nothing about which files stay unmatched. */
  lemma {:induction false} UnmatchedIgnoresOthers(files: seq<File>, from: Collection, compared: set<FileId>, id: FileId)
    requires forall i :: 0 <= i < |files| ==> files[i].id != id
    ensures Unmatched(files, from, compared + {id}) == Unmatched(files, from, compared)
  {
    if files != [] {
      forall i | 0 <= i < |files[1..]|
        ensures files[1..][i].id != id
      {
        assert files[1..][i] == files[i + 1];
      }
      UnmatchedIgnoresOthers(files[1..], from, compared, id);
    }
  }

  /** The file `GetFromPath` answers is one of the collection's own. */
  lemma FoundIsHeld(c: Collection, p: string)
    requires GetFromPath(c, p).Some?
    ensures GetFromPath(c, p).value.id in IdsOf(c.files)
  {
    var k :| 0 <= k < |c.files| && c.files[k] == GetFromPath(c, p).value;
  }

  /** Once every source file is marked, the second loop compares exactly the unmatched destination files. */
  lemma {:induction false} DestPassTakesUnmatched(files: seq<File>, from: Collection, compared: set<FileId>)
    requires DistinctIds(files)
    requires IdsOf(from.files) <= compared
    ensures DestPass(files, from, compared) == Unmatched(files, from, compared)
  {
    if files != [] {
      var tail := files[1..];
      assert DistinctIds(tail) by {
        forall i, j | 0 <= i < j < |tail|
          ensures tail[i].id != tail[j].id
        {
          assert tail[i] == files[i + 1] && tail[j] == files[j + 1];
        }
      }
      if files[0].id in compared {
        DestPassTakesUnmatched(tail, from, compared);
      } else {
        var now := compared + {files[0].id};
        DestPassTakesUnmatched(tail, from, now);
        forall i | 0 <= i < |tail|
          ensures tail[i].id != files[0].id
        {
          assert tail[i] == files[i + 1];
        }
        UnmatchedIgnoresOthers(tail, from, compared, files[0].id);
        var src := GetFromPath(from, WebsitePath(files[0]));
        if src.Some? {
          FoundIsHeld(from, WebsitePath(files[0]));
        }
      }
    }
  }

  /**
   * `diffFilesystems` compares every source file once, against the
   * destination's file at its path, and then, once each, the destination
   * files that are not source files and have no source file at their path.
   */
  lemma PairsAreMatchedThenUnmatched(from: Collection, to: Collection)
    requires DistinctIds(from.files) && DistinctIds(to.files)
    ensures Pairs(from, to) == Matched(from.files, to) + Unmatched(to.files, from, IdsOf(from.files))
  {
    SourcePassMatchesAll(from.files, to, {});
    assert {} + IdsOf(from.files) == IdsOf(from.files);
    DestPassTakesUnmatched(to.files, from, IdsOf(from.files));
  }

  /** The website path a comparison is about. */
  function PairPath(p: Pair): string {
    if p.src.Some? then WebsitePath(p.src.value)
    else if p.dst.Some? then WebsitePath(p.dst.value)
    else ""
  }

  /** A comparison of a destination file alone, with no source file at its path. */
  predicate Lone(p: Pair, files: seq<File>, from: Collection) {
    p.src.None? && p.dst.Some? && p.dst.value in files && GetFromPath(from, WebsitePath(p.dst.value)).None?
  }

  /** No two comparisons are about the same website path. */
  predicate PathsDistinct(ps: seq<Pair>) {
    forall i, j :: 0 <= i < j < |ps| ==> PairPath(ps[i]) != PairPath(ps[j])
  }

  /** Each unmatched comparison is a destination file alone, with no source file at its path. */
  lemma {:induction false} UnmatchedShape(files: seq<File>, from: Collection, compared: set<FileId>)
    ensures forall p :: p in Unmatched(files, from, compared) ==> Lone(p, files, from)
  {
    if files != [] {
      UnmatchedShape(files[1..], from, compared);
    }
  }

  lemma TailPathUnique(files: seq<File>)
    requires files != [] && PathUnique(files)
    ensures PathUnique(files[1..])
    ensures forall g :: g in files[1..] ==> WebsitePath(g) != WebsitePath(files[0])
  {
    var tail := files[1..];
    forall i, j | 0 <= i < j < |tail|
      ensures WebsitePath(tail[i]) != WebsitePath(tail[j])
    {
      assert tail[i] == files[i + 1] && tail[j] == files[j + 1];
    }
    forall g | g in tail
      ensures WebsitePath(g) != WebsitePath(files[0])
    {
      var m :| 0 <= m < |tail| && tail[m] == g;
      assert files[m + 1] == g;
    }
  }

  /** Unmatched comparisons inherit the destination's distinct paths. */
  lemma {:induction false} UnmatchedPathsDistinct(files: seq<File>, from: Collection, compared: set<FileId>)
    requires PathUnique(files)
    ensures PathsDistinct(Unmatched(files, from, compared))
  {
    if files != [] {
      var tail := files[1..];
      TailPathUnique(files);
      UnmatchedPathsDistinct(tail, from, compared);
      UnmatchedShape(tail, from, compared);
      var rest := Unmatched(tail, from, compared);
      if files[0].id !in compared && GetFromPath(from, WebsitePath(files[0])).None? {
        assert Unmatched(files, from, compared) == [Pair(None, Some(files[0]))] + rest;
        LonePrependDistinct(files[0], rest, tail, from);
      } else {
        assert Unmatched(files, from, compared) == [] + rest;
        assert [] + rest == rest;
      }
    }
  }

  /** A lone destination file goes in front of lone files at other paths without a clash. */
  lemma LonePrependDistinct(f: File, rest: seq<Pair>, tail: seq<File>, from: Collection)
    requires PathsDistinct(rest)
    requires forall p :: p in rest ==> Lone(p, tail, from)
    requires forall g :: g in tail ==> WebsitePath(g) != WebsitePath(f)
    ensures PathsDistinct([Pair(None, Some(f))] + rest)
  {
    var u := [Pair(None, Some(f))] + rest;
    forall i, j | 0 <= i < j < |u|
      ensures PairPath(u[i]) != PairPath(u[j])
    {
      assert u[j] == rest[j - 1];
      if i > 0 {
        assert u[i] == rest[i - 1];
      } else {
        assert rest[j - 1] in rest;
        assert Lone(rest[j - 1], tail, from);
      }
    }
  }

  /** A source path and an unmatched destination path never coincide. */
  lemma SourceAndLoneDiffer(from: Collection, i: int, p: Pair, files: seq<File>)
    requires 0 <= i < |from.files| && Lone(p, files, from)
    ensures WebsitePath(from.files[i]) != PairPath(p)
  {
    assert !MatchesPath(from.files[i], PairPath(p));
  }

  /** Two source-pass comparisons are about two different source paths. */
  lemma MatchedPairsDiffer(from: Collection, to: Collection, i: int, j: int)
    requires PathUnique(from.files) && 0 <= i < j < |from.files|
    ensures var m := Matched(from.files, to); PairPath(m[i]) != PairPath(m[j])
  {
    var m := Matched(from.files, to);
    assert PairPath(m[i]) == WebsitePath(from.files[i]);
    assert PairPath(m[j]) == WebsitePath(from.files[j]);
  }

  /** A source-pass comparison and a lone destination comparison are about different paths. */
  lemma MatchedAndLoneDiffer(from: Collection, to: Collection, i: int, u: seq<Pair>, j: int)
    requires 0 <= i < |from.files| && 0 <= j < |u|
    requires forall p :: p in u ==> Lone(p, to.files, from)
    ensures PairPath(Matched(from.files, to)[i]) != PairPath(u[j])
  {
    assert PairPath(Matched(from.files, to)[i]) == WebsitePath(from.files[i]);
    assert u[j] in u;
    SourceAndLoneDiffer(from, i, u[j], to.files);
  }

  /** Two lists of comparisons, each about distinct paths and about no common path, join into one. */
  lemma AppendPathsDistinct(m: seq<Pair>, u: seq<Pair>)
    requires PathsDistinct(m) && PathsDistinct(u)
    requires forall i, j :: 0 <= i < |m| && 0 <= j < |u| ==> PairPath(m[i]) != PairPath(u[j])
    ensures PathsDistinct(m + u)
  {
    var ps := m + u;
    forall i, j | 0 <= i < j < |ps|
      ensures PairPath(ps[i]) != PairPath(ps[j])
    {
      if j < |m| {
        assert ps[i] == m[i] && ps[j] == m[j];
      } else if i < |m| {
        assert ps[i] == m[i] && ps[j] == u[j - |m|];
      } else {
        assert ps[i] == u[i - |m|] && ps[j] == u[j - |m|];
      }
    }
  }

  /** With each side free of duplicate paths, no website path is compared twice. */
  lemma NoPathComparedTwice(from: Collection, to: Collection)
    requires DistinctIds(from.files) && DistinctIds(to.files)
    requires PathUnique(from.files) && PathUnique(to.files)
    ensures PathsDistinct(Pairs(from, to))
  {
    PairsAreMatchedThenUnmatched(from, to);
    var m := Matched(from.files, to);
    var u := Unmatched(to.files, from, IdsOf(from.files));
    UnmatchedShape(to.files, from, IdsOf(from.files));
    UnmatchedPathsDistinct(to.files, from, IdsOf(from.files));
    forall i, j | 0 <= i < j < |m|
      ensures PairPath(m[i]) != PairPath(m[j])
    {
      MatchedPairsDiffer(from, to, i, j);
    }
    forall i, j | 0 <= i < |m| && 0 <= j < |u|
      ensures PairPath(m[i]) != PairPath(u[j])
    {
      MatchedAndLoneDiffer(from, to, i, u, j);
    }
    AppendPathsDistinct(m, u);
  }

  // ------------------------------------------------------- comparing them all

  /** The steps gathered, and whether every comparison answered. */
  datatype Scan = Scan(actions: seq<Action>, status: Status)

  /** The comparisons in order; the first failure ends the scan, keeping the steps gathered before it. */
  function CompareAll(plan: Plan, to: Collection, ps: seq<Pair>, io: Io): (r: Scan)
    ensures |r.actions| <= |ps|
    ensures r.status.Ok? <==> forall i :: 0 <= i < |ps| ==> CompareFile(plan, to, ps[i].src, ps[i].dst, io).Ok?
  {
    if ps == [] then Scan([], Done)
    else
      var c := CompareFile(plan, to, ps[0].src, ps[0].dst, io);
      if c.Err? then Scan([], Err(c.error))
      else
        var rest := CompareAll(plan, to, ps[1..], io);
        Scan((if c.value.Some? then [c.value.value] else []) + rest.actions, rest.status)
  }

  /** A failing comparison ends the scan with its error, and the steps are those of the comparisons before it. */
  lemma {:induction false} CompareAllStopsAtFailure(plan: Plan, to: Collection, ps: seq<Pair>, io: Io, k: nat)
    requires k < |ps| && CompareFile(plan, to, ps[k].src, ps[k].dst, io).Err?
    requires forall j :: 0 <= j < k ==> CompareFile(plan, to, ps[j].src, ps[j].dst, io).Ok?
    ensures CompareAll(plan, to, ps, io).status == Err(CompareFile(plan, to, ps[k].src, ps[k].dst, io).error)
    ensures CompareAll(plan, to, ps, io).actions == CompareAll(plan, to, ps[..k], io).actions
  {
    if k > 0 {
      var tail := ps[1..];
      forall j | 0 <= j < k - 1
        ensures CompareFile(plan, to, tail[j].src, tail[j].dst, io).Ok?
      {
        assert tail[j] == ps[j + 1];
      }
      assert tail[k - 1] == ps[k];
      CompareAllStopsAtFailure(plan, to, tail, io, k - 1);
      assert ps[..k][1..] == tail[..k - 1];
    }
  }

  // ------------------------------------------------------------------- diffing

  /** The plan after a diff and whether the diff answered. */
  datatype Diffed = Diffed(plan: Plan, status: Status)

  /**
   * `diffFilesystems`: compare, then sort and compact the whole plan. A
   * failing comparison rejects the diff and leaves the steps gathered so far
   * appended to the plan, unsorted.
   */
  function Diff(plan: Plan, from: Collection, to: Collection, io: Io): (r: Diffed)
    ensures r.plan == plan.(actions := r.plan.actions)
    ensures r.status.Ok? <==>
      forall i :: 0 <= i < |Pairs(from, to)| ==> CompareFile(plan, to, Pairs(from, to)[i].src, Pairs(from, to)[i].dst, io).Ok?
    ensures r.status.Err? ==>
      |plan.actions| <= |r.plan.actions| <= |plan.actions| + |from.files| + |to.files| &&
      r.plan.actions[..|plan.actions|] == plan.actions
    ensures r.status.Ok? ==> |r.plan.actions| <= |plan.actions| + |from.files| + |to.files|
    ensures r.status.Ok? ==>
      forall i :: 0 <= i < |r.plan.actions| - 1 ==> TryMerge(r.plan.actions[i], r.plan.actions[i + 1]).None?
    ensures r.status.Err? ==> r.plan.actions == plan.actions + CompareAll(plan, to, Pairs(from, to), io).actions
    ensures r.status.Ok? ==>
      Flatten(r.plan.actions) == Flatten(SortByTag(plan.actions + CompareAll(plan, to, Pairs(from, to), io).actions))
  {
    var scan := CompareAll(plan, to, Pairs(from, to), io);
    if scan.status.Err? then
      assert (plan.actions + scan.actions)[..|plan.actions|] == plan.actions;
      Diffed(plan.(actions := plan.actions + scan.actions), scan.status)
    else
      var all := plan.actions + scan.actions;
      assert |SortByTag(all)| == |all| by {
        assert |multiset(SortByTag(all))| == |multiset(all)|;
      }
      CompactLeavesNothingToMerge(SortByTag(all));
      CompactKeepsFiles(SortByTag(all));
      Diffed(plan.(actions := Compact(SortByTag(all))), Done)
  }

  // ------------------------------------------------------------------ running

  /** A step bound in one world is bound in any world with the same collections alive. */
  lemma BoundKeys(w: World, v: World, a: Action)
    requires Bound(w, a) && v.collections.Keys == w.collections.Keys
    ensures Bound(v, a)
  {
  }

  /** The steps in order; the first failure stops the run with that failure. */
  function RunAll(w: World, actions: seq<Action>, io: Io): (r: Outcome)
    requires Consistent(w) && forall i :: 0 <= i < |actions| ==> Bound(w, actions[i])
    ensures Consistent(r.world) && r.world.collections.Keys == w.collections.Keys
    ensures r.world.nextId >= w.nextId
    decreases |actions|
  {
    if actions == [] then Outcome(w, Done)
    else
      var o := RunAction(w, actions[0], io);
      if o.status.Err? then o
      else
        forall i | 0 <= i < |actions[1..]|
          ensures Bound(o.world, actions[1..][i])
        {
          BoundKeys(w, o.world, actions[i + 1]);
        }
        RunAll(o.world, actions[1..], io)
  }

  /**
   * `run`: refused outright when the plan is a dry run; otherwise the
   * steps run one at a time, in order.
   */
  function Run(plan: Plan, w: World, io: Io): (r: Outcome)
    requires Consistent(w) && forall i :: 0 <= i < |plan.actions| ==> Bound(w, plan.actions[i])
    ensures plan.shouldDryRun ==> r == Outcome(w, Err(DryRunEnabled))
    ensures !plan.shouldDryRun ==> r == RunAll(w, plan.actions, io)
    ensures Consistent(r.world) && r.world.collections.Keys == w.collections.Keys
  {
    if plan.shouldDryRun then Outcome(w, Err(DryRunEnabled)) else RunAll(w, plan.actions, io)
  }

  /** Running two lists of steps is running the first and, if it succeeded, the second from where it left off. */
  lemma {:induction false} RunAllAppend(w: World, xs: seq<Action>, ys: seq<Action>, io: Io)
    requires Consistent(w)
    requires forall i :: 0 <= i < |xs| ==> Bound(w, xs[i])
    requires forall i :: 0 <= i < |ys| ==> Bound(w, ys[i])
    ensures forall i :: 0 <= i < |xs + ys| ==> Bound(w, (xs + ys)[i])
    ensures var o := RunAll(w, xs, io);
      && (forall i :: 0 <= i < |ys| ==> Bound(o.world, ys[i]))
      && RunAll(w, xs + ys, io) == (if o.status.Err? then o else RunAll(o.world, ys, io))
    decreases |xs|
  {
    var o := RunAll(w, xs, io);
    forall i | 0 <= i < |ys|
      ensures Bound(o.world, ys[i])
    {
      BoundKeys(w, o.world, ys[i]);
    }
    if xs == [] {
      assert xs + ys == ys;
    } else {
      var first := RunAction(w, xs[0], io);
      assert (xs + ys)[1..] == xs[1..] + ys;
      if first.status.Ok? {
        forall i | 0 <= i < |xs[1..]|
          ensures Bound(first.world, xs[1..][i])
        {
          BoundKeys(w, first.world, xs[i + 1]);
        }
        forall i | 0 <= i < |ys|
          ensures Bound(first.world, ys[i])
        {
          BoundKeys(w, first.world, ys[i]);
        }
        RunAllAppend(first.world, xs[1..], ys, io);
      }
    }
  }

  /** Once a step has failed, no later step runs. */
  lemma RunStopsAtFailure(w: World, xs: seq<Action>, ys: seq<Action>, io: Io)
    requires Consistent(w)
    requires forall i :: 0 <= i < |xs| ==> Bound(w, xs[i])
    requires forall i :: 0 <= i < |ys| ==> Bound(w, ys[i])
    requires RunAll(w, xs, io).status.Err?
    ensures forall i :: 0 <= i < |xs + ys| ==> Bound(w, (xs + ys)[i])
    ensures RunAll(w, xs + ys, io) == RunAll(w, xs, io)
  {
    RunAllAppend(w, xs, ys, io);
  }

  /** `runDry`: one line per step, in plan order. */
  function RunDry(plan: Plan): (r: seq<string>)
    ensures |r| == |plan.actions|
    ensures forall i :: 0 <= i < |r| ==> r[i] == Describe(plan.actions[i])
  {
    seq(|plan.actions|, i requires 0 <= i < |plan.actions| => Describe(plan.actions[i]))
  }

  /** A dry run of a compacted upload batch lists its files after the batch header. */
  lemma DryRunNamesKinds(plan: Plan, i: nat)
    requires i < |plan.actions|
    ensures plan.actions[i].BulkUpload? && !plan.actions[i].force ==>
      WebPath.StartsWith(RunDry(plan)[i], "Bulk Upload (new files): ")
    ensures plan.actions[i].BulkDelete? ==> WebPath.StartsWith(RunDry(plan)[i], "Bulk Delete: ")
  {
    DescribePrefixes(plan.actions[i]);
  }
}
