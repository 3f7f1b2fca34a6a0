/**
 * The two passes a finished diff makes over its plan: a stable sort by tag
 * rank (`sortActions`), then a left-to-right merge of neighbouring bulk
 * steps (`compactActions`).
 */
module PlanOrdering {
  import opened Results
  import opened Filesystem
  import opened SyncAction

  // ------------------------------------------------------------------ sorting

  /*
   * The sort is stated for any integer key, so that its proofs never look
   * inside the tag computation; `SortByTag` instantiates it with `Key`.
   */

  /** The sort key: the rank of the step's tag. */
  function Key(a: Action): int {
    Rank(TagOf(a))
  }

  predicate SortedBy(s: seq<Action>, key: Action -> int) {
    forall i, j :: 0 <= i < j < |s| ==> key(s[i]) <= key(s[j])
  }

  predicate Sorted(s: seq<Action>) {
    SortedBy(s, Key)
  }

  /** Places `x` after every step whose key is not above its own. */
  function Insert(x: Action, s: seq<Action>, key: Action -> int): seq<Action> {
    if s == [] || key(x) < key(s[0]) then [x] + s
    else [s[0]] + Insert(x, s[1..], key)
  }

  /** Insertion adds exactly the one step. */
  lemma {:induction false} InsertAddsOne(x: Action, s: seq<Action>, key: Action -> int)
    ensures multiset(Insert(x, s, key)) == multiset(s) + multiset{x}
  {
    if s != [] && key(s[0]) <= key(x) {
      InsertAddsOne(x, s[1..], key);
      assert s == [s[0]] + s[1..];
    }
  }

  /** A bound below `x` and every step of `s` stays below every step of the insertion. */
  lemma {:induction false} InsertAbove(x: Action, s: seq<Action>, key: Action -> int, lo: int)
    requires lo <= key(x) && forall k :: 0 <= k < |s| ==> lo <= key(s[k])
    ensures forall k :: 0 <= k < |Insert(x, s, key)| ==> lo <= key(Insert(x, s, key)[k])
  {
    if s != [] && key(s[0]) <= key(x) {
      var tail := s[1..];
      forall k | 0 <= k < |tail|
        ensures lo <= key(tail[k])
      {
        assert tail[k] == s[k + 1];
      }
      InsertAbove(x, tail, key, lo);
      var r := Insert(x, s, key);
      assert r == [s[0]] + Insert(x, tail, key);
      forall k | 0 <= k < |r|
        ensures lo <= key(r[k])
      {
        if k > 0 {
          assert r[k] == Insert(x, tail, key)[k - 1];
        }
      }
    }
  }

  /** A step no higher than everything in a sorted plan can go in front of it. */
  lemma ConsKeepsSorted(a: Action, t: seq<Action>, key: Action -> int)
    requires SortedBy(t, key) && forall k :: 0 <= k < |t| ==> key(a) <= key(t[k])
    ensures SortedBy([a] + t, key)
  {
    var r := [a] + t;
    forall i, j | 0 <= i < j < |r|
      ensures key(r[i]) <= key(r[j])
    {
      var u := t[j - 1];
      assert r[j] == u;
      if i == 0 {
        assert r[i] == a;
      } else {
        var v := t[i - 1];
        assert r[i] == v;
        assert key(v) <= key(u);
      }
    }
  }

  /** The tail of a sorted plan is sorted and no lower than its head. */
  lemma SortedTail(s: seq<Action>, key: Action -> int)
    requires SortedBy(s, key) && s != []
    ensures SortedBy(s[1..], key)
    ensures forall k :: 0 <= k < |s[1..]| ==> key(s[0]) <= key(s[1..][k])
  {
    var tail := s[1..];
    forall k | 0 <= k < |tail|
      ensures key(s[0]) <= key(tail[k])
    {
      assert tail[k] == s[k + 1];
    }
    forall i, j | 0 <= i < j < |tail|
      ensures key(tail[i]) <= key(tail[j])
    {
      assert tail[i] == s[i + 1] && tail[j] == s[j + 1];
    }
  }

  /** A sorted plan has nothing below its head. */
  lemma SortedHead(s: seq<Action>, key: Action -> int)
    requires SortedBy(s, key) && s != []
    ensures forall k :: 0 <= k < |s| ==> key(s[0]) <= key(s[k])
  {
    forall k | 0 <= k < |s|
      ensures key(s[0]) <= key(s[k])
    {
      if k > 0 {
        assert key(s[0]) <= key(s[k]);
      }
    }
  }

  lemma {:induction false} InsertKeepsSorted(x: Action, s: seq<Action>, key: Action -> int)
    requires SortedBy(s, key)
    ensures SortedBy(Insert(x, s, key), key)
  {
    if s == [] || key(x) < key(s[0]) {
      if s != [] {
        SortedHead(s, key);
      }
      ConsKeepsSorted(x, s, key);
      assert Insert(x, s, key) == [x] + s;
    } else {
      var tail := s[1..];
      SortedTail(s, key);
      InsertKeepsSorted(x, tail, key);
      InsertAbove(x, tail, key, key(s[0]));
      ConsKeepsSorted(s[0], Insert(x, tail, key), key);
      assert Insert(x, s, key) == [s[0]] + Insert(x, tail, key);
    }
  }

  /** Insertion sort taking the steps in order. */
  function SortBy(s: seq<Action>, key: Action -> int): (r: seq<Action>)
    ensures multiset(r) == multiset(s)
    ensures SortedBy(r, key)
    decreases |s|
  {
    if s == [] then []
    else
      var init := s[..|s| - 1];
      assert s == init + [s[|s| - 1]];
      InsertAddsOne(s[|s| - 1], SortBy(init, key), key);
      InsertKeepsSorted(s[|s| - 1], SortBy(init, key), key);
      Insert(s[|s| - 1], SortBy(init, key), key)
  }

  /**
   * `sortActions`: `Array.prototype.sort` is stable, so this is insertion
   * sort by tag rank taking the steps in order.
   */
  function SortByTag(s: seq<Action>): (r: seq<Action>)
    ensures multiset(r) == multiset(s)
    ensures Sorted(r)
  {
    SortBy(s, Key)
  }

  /** The steps whose key is `k`, in order. */
  function OfKey(s: seq<Action>, key: Action -> int, k: int): seq<Action> {
    if s == [] then [] else (if key(s[0]) == k then [s[0]] else []) + OfKey(s[1..], key, k)
  }

  lemma {:induction false} OfKeyAppend(a: seq<Action>, b: seq<Action>, key: Action -> int, k: int)
    ensures OfKey(a + b, key, k) == OfKey(a, key, k) + OfKey(b, key, k)
  {
    if a != [] {
      assert (a + b)[1..] == a[1..] + b;
      OfKeyAppend(a[1..], b, key, k);
    } else {
      assert a + b == b;
    }
  }

  lemma {:induction false} OfKeyNone(s: seq<Action>, key: Action -> int, k: int)
    requires forall i :: 0 <= i < |s| ==> key(s[i]) != k
    ensures OfKey(s, key, k) == []
  {
    if s != [] {
      var tail := s[1..];
      forall i | 0 <= i < |tail|
        ensures key(tail[i]) != k
      {
        assert tail[i] == s[i + 1];
      }
      OfKeyNone(tail, key, k);
    }
  }

  /** A step placed in front of higher-keyed steps is the only one of its key. */
  lemma InsertFrontStable(x: Action, s: seq<Action>, key: Action -> int, k: int)
    requires SortedBy(s, key) && s != [] && key(x) < key(s[0])
    ensures OfKey([x] + s, key, k) == OfKey(s, key, k) + OfKey([x], key, k)
  {
    OfKeyAppend([x], s, key, k);
    if key(x) == k {
      SortedHead(s, key);
      OfKeyNone(s, key, k);
    }
  }

  /** Inserting into a sorted plan puts the new step after every step of its own key. */
  lemma {:induction false} InsertStable(x: Action, s: seq<Action>, key: Action -> int, k: int)
    requires SortedBy(s, key)
    ensures OfKey(Insert(x, s, key), key, k) == OfKey(s, key, k) + OfKey([x], key, k)
  {
    if s == [] {
      assert Insert(x, s, key) == [x];
    } else if key(x) < key(s[0]) {
      InsertFrontStable(x, s, key, k);
    } else {
      SortedTail(s, key);
      InsertStable(x, s[1..], key, k);
      InsertBehindStable(x, s, key, k);
    }
  }

  /** Inserting behind the head: stability of the tail carries over to the whole plan. */
  lemma InsertBehindStable(x: Action, s: seq<Action>, key: Action -> int, k: int)
    requires s != [] && key(x) >= key(s[0])
    requires OfKey(Insert(x, s[1..], key), key, k) == OfKey(s[1..], key, k) + OfKey([x], key, k)
    ensures OfKey(Insert(x, s, key), key, k) == OfKey(s, key, k) + OfKey([x], key, k)
  {
    var rest := Insert(x, s[1..], key);
    var r := [s[0]] + rest;
    assert Insert(x, s, key) == r;
    assert r[0] == s[0] && r[1..] == rest;
    var h := if key(s[0]) == k then [s[0]] else [];
    assert OfKey(r, key, k) == h + OfKey(rest, key, k);
    assert OfKey(s, key, k) == h + OfKey(s[1..], key, k);
    ConcatAssoc(h, OfKey(s[1..], key, k), OfKey([x], key, k));
  }

  lemma ConcatAssoc(a: seq<Action>, b: seq<Action>, c: seq<Action>)
    ensures a + (b + c) == (a + b) + c
  {
  }

  /** The insertion sort is stable: the steps of each key keep their relative order. */
  lemma {:induction false} SortByIsStable(s: seq<Action>, key: Action -> int, k: int)
    ensures OfKey(SortBy(s, key), key, k) == OfKey(s, key, k)
    decreases |s|
  {
    if s != [] {
      var init, last := s[..|s| - 1], s[|s| - 1];
      assert SortBy(s, key) == Insert(last, SortBy(init, key), key);
      SortByIsStable(init, key, k);
      InsertStable(last, SortBy(init, key), key, k);
      OfKeyAppend(init, [last], key, k);
      assert init + [last] == s;
    }
  }

  /** The steps carrying tag `t`, in order. */
  function OfTag(s: seq<Action>, t: Tag): seq<Action> {
    if s == [] then [] else (if TagOf(s[0]) == t then [s[0]] else []) + OfTag(s[1..], t)
  }

  /** Ranks tell tags apart, so the steps of a tag are the steps of its rank. */
  lemma {:induction false} OfTagIsOfRank(s: seq<Action>, t: Tag)
    ensures OfTag(s, t) == OfKey(s, Key, Rank(t))
  {
    if s != [] {
      RankInjective(TagOf(s[0]), t);
      OfTagIsOfRank(s[1..], t);
    }
  }

  /** `sortActions` is stable: the steps of each tag keep their relative order. */
  lemma SortIsStable(s: seq<Action>, t: Tag)
    ensures OfTag(SortByTag(s), t) == OfTag(s, t)
  {
    SortByIsStable(s, Key, Rank(t));
    OfTagIsOfRank(SortByTag(s), t);
    OfTagIsOfRank(s, t);
  }

  /** After sorting, the steps untagged come first and the index page upload comes last. */
  lemma SortedEnds(s: seq<Action>)
    ensures var r := SortByTag(s);
      forall i, j :: 0 <= i < j < |r| && TagOf(r[i]) == IndexHtml ==> TagOf(r[j]) == IndexHtml
    ensures var r := SortByTag(s);
      forall i, j :: 0 <= i < j < |r| && TagOf(r[j]) == Unknown ==> TagOf(r[i]) == Unknown
  {
    var r := SortByTag(s);
    forall i, j | 0 <= i < j < |r|
      ensures Key(r[i]) <= Key(r[j])
    {
    }
  }

  // ---------------------------------------------------------------- compacting

  /** The files a step is about: the batch, or the one file it touches on the source side when there is one. */
  function Subjects(a: Action): (r: seq<File>)
    ensures IsBulk(a) ==> r == a.files
    ensures |r| == 1 || IsBulk(a)
  {
    match a
    case Delete(target) => [target]
    case BulkUpload(_, files, _, _) => files
    case BulkDelete(_, files, _) => files
    case CopyReplace(from, _) => [from]
    case CopyCreate(from, _, _) => [from]
  }

  /** The files of the whole plan, step after step. */
  function Flatten(s: seq<Action>): seq<File> {
    if s == [] then [] else Subjects(s[0]) + Flatten(s[1..])
  }

  /** A bulk step holds no more files than its batch size. */
  predicate WithinCap(a: Action) {
    IsBulk(a) ==> |a.files| <= a.batchSize
  }

  /**
   * `compactActions`: each step absorbs as many following steps as it can
   * before the next one gets its turn.
   */
  function Compact(s: seq<Action>): (r: seq<Action>)
    ensures |r| <= |s|
    ensures |s| > 0 ==> |r| > 0
    decreases |s|
  {
    if |s| <= 1 then s
    else
      match TryMerge(s[0], s[1])
      case Some(m) => Compact([m] + s[2..])
      case None => [s[0]] + Compact(s[1..])
  }

  /**
   * The loop as written: the step at `i` takes in its neighbour (which
   * leaves the plan) and is tried again; when it cannot, the loop moves on.
   */
  method CompactInPlace(s: seq<Action>) returns (r: seq<Action>)
    ensures r == Compact(s)
  {
    r := s;
    var i := 0;
    while i < |r| - 1
      invariant 0 <= i <= |r|
      invariant Compact(s) == r[..i] + Compact(r[i..])
      decreases 2 * |r| - i
    {
      var m := TryMerge(r[i], r[i + 1]);
      if m.Some? {
        MergeStepKeeps(s, r, i, m.value);
        r := r[..i] + [m.value] + r[i + 2..];
      } else {
        SkipStepKeeps(s, r, i);
        i := i + 1;
      }
    }
    assert r[..i] + r[i..] == r;
  }

  /** The loop's invariant survives merging the steps at `i` and `i + 1`. */
  lemma MergeStepKeeps(s: seq<Action>, r: seq<Action>, i: int, m: Action)
    requires 0 <= i < |r| - 1 && TryMerge(r[i], r[i + 1]) == Some(m)
    requires Compact(s) == r[..i] + Compact(r[i..])
    ensures var r' := r[..i] + [m] + r[i + 2..];
      |r'| == |r| - 1 && Compact(s) == r'[..i] + Compact(r'[i..])
  {
    var pre, t, rest := r[..i], r[i..], r[i + 2..];
    assert t[0] == r[i] && t[1] == r[i + 1];
    assert t[2..] == rest;
    CompactAtMerge(t, m);
    var r' := pre + [m] + rest;
    assert r'[..i] == pre;
    assert r'[i..] == [m] + rest;
  }

  /** The loop's invariant survives moving past a step that cannot take in its neighbour. */
  lemma SkipStepKeeps(s: seq<Action>, r: seq<Action>, i: int)
    requires 0 <= i < |r| - 1 && TryMerge(r[i], r[i + 1]).None?
    requires Compact(s) == r[..i] + Compact(r[i..])
    ensures Compact(s) == r[..i + 1] + Compact(r[i + 1..])
  {
    var pre, t := r[..i], r[i..];
    assert t[0] == r[i] && t[1] == r[i + 1];
    assert t[1..] == r[i + 1..];
    CompactAtKeep(t);
    assert r[..i + 1] == pre + [r[i]];
    assert pre + ([r[i]] + Compact(r[i + 1..])) == (pre + [r[i]]) + Compact(r[i + 1..]);
  }

  /** Two mergeable neighbours at the front are compacted as their merge. */
  lemma CompactAtMerge(t: seq<Action>, m: Action)
    requires |t| >= 2 && TryMerge(t[0], t[1]) == Some(m)
    ensures Compact(t) == Compact([m] + t[2..])
  {
  }

  /** A front step that cannot take in its neighbour stays as it is. */
  lemma CompactAtKeep(t: seq<Action>)
    requires |t| >= 2 && TryMerge(t[0], t[1]).None?
    ensures Compact(t) == [t[0]] + Compact(t[1..])
  {
  }

  lemma FlattenCons(a: Action, s: seq<Action>)
    ensures Flatten([a] + s) == Subjects(a) + Flatten(s)
  {
    assert ([a] + s)[1..] == s;
  }

  /** Compaction regroups the plan's files without losing, adding or reordering any. */
  lemma {:induction false} CompactKeepsFiles(s: seq<Action>)
    ensures Flatten(Compact(s)) == Flatten(s)
    decreases |s|
  {
    if |s| > 1 {
      assert s == [s[0]] + ([s[1]] + s[2..]);
      FlattenCons(s[0], [s[1]] + s[2..]);
      FlattenCons(s[1], s[2..]);
      match TryMerge(s[0], s[1])
      case Some(m) =>
        CompactKeepsFiles([m] + s[2..]);
        FlattenCons(m, s[2..]);
      case None =>
        CompactKeepsFiles(s[1..]);
        FlattenCons(s[0], Compact(s[1..]));
    }
  }

  /** Every step compaction produces is one of the plan's own or a merge that fits its batch size. */
  lemma {:induction false} CompactKeepsCaps(s: seq<Action>)
    requires forall i :: 0 <= i < |s| ==> WithinCap(s[i])
    ensures forall i :: 0 <= i < |Compact(s)| ==> WithinCap(Compact(s)[i])
    decreases |s|
  {
    if |s| > 1 {
      match TryMerge(s[0], s[1])
      case Some(m) =>
        CompactKeepsCaps([m] + s[2..]);
      case None =>
        CompactKeepsCaps(s[1..]);
    }
  }

  /** `h` is `a`, or `a` grown by merges: same kind, same flag, at least as many files. */
  predicate Extends(h: Action, a: Action) {
    if IsBulk(a) then
      h.BulkUpload? == a.BulkUpload? && h.BulkDelete? == a.BulkDelete? &&
      |h.files| >= |a.files| && (a.BulkUpload? ==> h.force == a.force)
    else h == a
  }

  /** What a step could not take in, it cannot take in once that neighbour has grown. */
  lemma RefusedStaysRefused(x: Action, a: Action, h: Action)
    requires TryMerge(x, a).None? && Extends(h, a)
    ensures TryMerge(x, h).None?
  {
  }

  lemma {:induction false} HeadExtends(s: seq<Action>)
    requires |s| > 0
    ensures Extends(Compact(s)[0], s[0])
    decreases |s|
  {
    if |s| > 1 {
      match TryMerge(s[0], s[1])
      case Some(m) =>
        HeadExtends([m] + s[2..]);
      case None =>
    }
  }

  /** Compaction is complete: no two neighbouring steps of its result could still merge. */
  lemma {:induction false} CompactLeavesNothingToMerge(s: seq<Action>)
    ensures forall i :: 0 <= i < |Compact(s)| - 1 ==> TryMerge(Compact(s)[i], Compact(s)[i + 1]).None?
    decreases |s|
  {
    if |s| > 1 {
      match TryMerge(s[0], s[1])
      case Some(m) =>
        CompactLeavesNothingToMerge([m] + s[2..]);
      case None =>
        CompactLeavesNothingToMerge(s[1..]);
        HeadExtends(s[1..]);
        RefusedStaysRefused(s[0], s[1], Compact(s[1..])[0]);
    }
  }

  // ----------------------------------------------------------- batch counting

  /** Two bulk steps of which one can absorb the other, size aside. */
  predicate SameBatchKind(a: Action, b: Action) {
    (a.BulkUpload? && b.BulkUpload? && a.force == b.force) || (a.BulkDelete? && b.BulkDelete?)
  }

  /** One-file bulk steps of `a`'s kind, all with batch size `cap`. */
  predicate Singles(s: seq<Action>, a: Action, cap: int) {
    forall i :: 0 <= i < |s| ==> SameBatchKind(a, s[i]) && |s[i].files| == 1 && s[i].batchSize == cap
  }

  lemma DivUnique(a: int, cap: int, q: int, r: int)
    requires cap > 0 && 0 <= r < cap && a == q * cap + r
    ensures a / cap == q
  {
    var d := a / cap - q;
    assert d * cap == r - a % cap;
    MulFarFromZero(d, cap);
  }

  lemma MulFarFromZero(d: int, cap: int)
    requires cap > 0
    ensures d >= 1 ==> d * cap >= cap
    ensures d <= -1 ==> d * cap <= -cap
  {
  }

  lemma DivStep(x: int, cap: int)
    requires cap > 0 && x >= 0
    ensures (x + cap) / cap == x / cap + 1
  {
    DivUnique(x + cap, cap, x / cap + 1, x % cap);
  }

  lemma DivOne(x: int, cap: int)
    requires cap > 0 && cap <= x < 2 * cap
    ensures x / cap == 1
  {
    DivUnique(x, cap, 1, x - cap);
  }

  /** ceil(n / cap): how many batches of at most `cap` hold `n` files. */
  function Batches(n: int, cap: int): int
    requires cap >= 1
  {
    (n + cap - 1) / cap
  }

  /** Up to `cap` files fill one batch. */
  lemma BatchesOne(k: int, cap: int)
    requires 1 <= k <= cap
    ensures Batches(k, cap) == 1
  {
    DivOne(k + cap - 1, cap);
  }

  /** `cap` more files take one more batch. */
  lemma BatchesStep(n: int, cap: int)
    requires cap >= 1 && n >= 0
    ensures Batches(n + cap, cap) == Batches(n, cap) + 1
  {
    DivStep(n + cap - 1, cap);
  }

  /** One-file steps of `a`'s kind are one-file steps of the kind of any step of that kind. */
  lemma SinglesRekind(s: seq<Action>, a: Action, b: Action, cap: int)
    requires Singles(s, a, cap) && SameBatchKind(a, b)
    ensures Singles(s, b, cap)
  {
  }

  /**
   * A batch of `k` files followed by `n` one-file steps of its kind, all
   * with batch size `cap`, compacts to ceil((k + n) / cap) batches, every
   * one full except the last.
   */
  lemma {:induction false} BatchCount(acc: Action, rest: seq<Action>, cap: int)
    requires IsBulk(acc) && acc.batchSize == cap && 1 <= |acc.files| <= cap
    requires Singles(rest, acc, cap)
    ensures |Compact([acc] + rest)| == Batches(|acc.files| + |rest|, cap)
    ensures var r := Compact([acc] + rest);
      forall i :: 0 <= i < |r| ==> SameBatchKind(acc, r[i]) && (i < |r| - 1 ==> |r[i].files| == cap)
    decreases |rest|
  {
    var s := [acc] + rest;
    if rest == [] {
      assert s == [acc];
      BatchesOne(|acc.files|, cap);
    } else {
      var b, tail := rest[0], rest[1..];
      assert s[0] == acc && s[1] == b;
      assert SameBatchKind(acc, b) && |b.files| == 1 && b.batchSize == cap;
      assert Singles(tail, acc, cap) by {
        forall i | 0 <= i < |tail| ensures SameBatchKind(acc, tail[i]) && |tail[i].files| == 1 && tail[i].batchSize == cap {
          assert tail[i] == rest[i + 1];
        }
      }
      if |acc.files| < cap {
        var m := TryMerge(acc, b).value;
        assert s[2..] == tail;
        assert Compact(s) == Compact([m] + tail);
        SinglesRekind(tail, acc, m, cap);
        BatchCount(m, tail, cap);
      } else {
        assert TryMerge(acc, b).None?;
        assert s[1..] == rest;
        var c := Compact(rest);
        assert Compact(s) == [acc] + c;
        assert rest == [b] + tail;
        SinglesRekind(tail, acc, b, cap);
        BatchCount(b, tail, cap);
        BatchesStep(|rest|, cap);
        forall i | 0 <= i < |[acc] + c|
          ensures SameBatchKind(acc, ([acc] + c)[i]) && (i < |c| ==> |([acc] + c)[i].files| == cap)
        {
          if i > 0 { assert ([acc] + c)[i] == c[i - 1]; }
        }
      }
    }
  }

  /** `n` one-file steps of one kind with batch size `cap` compact to ceil(n / cap) full batches and a remainder. */
  lemma SinglesCompact(s: seq<Action>, cap: int)
    requires |s| > 0 && cap >= 1 && IsBulk(s[0]) && Singles(s, s[0], cap)
    ensures |Compact(s)| == Batches(|s|, cap)
    ensures var r := Compact(s);
      forall i :: 0 <= i < |r| ==> SameBatchKind(s[0], r[i]) && (i < |r| - 1 ==> |r[i].files| == cap)
  {
    var rest := s[1..];
    assert s == [s[0]] + rest;
    assert Singles(rest, s[0], cap) by {
      forall i | 0 <= i < |rest| ensures SameBatchKind(s[0], rest[i]) && |rest[i].files| == 1 && rest[i].batchSize == cap {
        assert rest[i] == s[i + 1];
      }
    }
    BatchCount(s[0], rest, cap);
  }
}
