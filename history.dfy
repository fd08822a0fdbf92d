/** The history aggregation and listing of `SimpleGit.ls`: the last commit of each file
    (the first commit of the log whose tree lists it), the last commit of each directory
    (the most recent one among the files it holds), and the sorted listing of a
    working-tree directory. */
module History {
  import opened Text
  import opened GitTree

  /** What `ls` keeps of a commit: id, author, message and the committer timestamp. */
  datatype CommitInfo = CommitInfo(sha: Sha, author: string, message: string, date: int)

  /** One commit of `log()`, newest first, with the file paths `_get_tree_files` finds
      in its tree; None when that call raised (the commit is then skipped). */
  datatype LogEntry = LogEntry(info: CommitInfo, files: Option<seq<string>>)

  /** An item of the `file_last_commit` dict, in insertion order. */
  datatype FileEntry = FileEntry(path: string, info: CommitInfo)

  predicate Lists(e: LogEntry, p: string)
  {
    e.files.Some? && p in e.files.value
  }

  /** The position of the first commit of `log` whose tree lists `p`. */
  function FirstListing(log: seq<LogEntry>, p: string): (r: Option<nat>)
    ensures r.Some? ==> r.value < |log| && Lists(log[r.value], p)
    ensures r.Some? ==> forall j :: 0 <= j < r.value ==> !Lists(log[j], p)
    ensures r.None? ==> forall j :: 0 <= j < |log| ==> !Lists(log[j], p)
  {
    if log == [] then None
    else
      var r := FirstListing(log[..|log| - 1], p);
      if r.Some? then r
      else if Lists(log[|log| - 1], p) then Some(|log| - 1)
      else None
  }

  /** One more commit of the log. */
  lemma FirstListingStep(log: seq<LogEntry>, i: nat, p: string)
    requires i < |log|
    ensures FirstListing(log[..i + 1], p) ==
      if FirstListing(log[..i], p).Some? then FirstListing(log[..i], p)
      else if Lists(log[i], p) then Some(i) else None
  {
    assert log[..i + 1][..i] == log[..i];
  }

  /** A path listed by commit `i` and by none before it is first listed there. */
  lemma FirstAt(log: seq<LogEntry>, i: nat, p: string)
    requires i < |log| && Lists(log[i], p)
    requires !(FirstListing(log, p).Some? && FirstListing(log, p).value < i)
    ensures FirstListing(log, p) == Some(i)
  {
  }

  /** The position of the first occurrence of `x` in `s`. */
  function FirstPos(s: seq<string>, x: string): (r: nat)
    requires x in s
    ensures r < |s| && s[r] == x && x !in s[..r]
  {
    if x in s[..|s| - 1] then
      var r := FirstPos(s[..|s| - 1], x);
      assert s[..|s| - 1][..r] == s[..r];
      r
    else |s| - 1
  }

  /** An occurrence found before the appended element is still the first one. */
  lemma FirstPosAppend(s: seq<string>, p: string, x: string)
    requires x in s
    ensures FirstPos(s + [p], x) == FirstPos(s, x)
  {
    assert (s + [p])[..|s|] == s;
  }

  /** `p` is met before `q` when `file_last_commit` walks the log: it is first listed by an
      earlier commit, or by the same commit earlier in its list of files. */
  ghost predicate SeenBefore(log: seq<LogEntry>, p: string, q: string)
    requires FirstListing(log, p).Some? && FirstListing(log, q).Some?
  {
    var i, j := FirstListing(log, p).value, FirstListing(log, q).value;
    i < j || (i == j && FirstPos(log[i].files.value, p) < FirstPos(log[i].files.value, q))
  }

  /** The keys are in the order `file_last_commit` meets them. */
  ghost predicate Ranked(log: seq<LogEntry>, order: seq<string>)
  {
    && (forall k :: 0 <= k < |order| ==> FirstListing(log, order[k]).Some?)
    && (forall k, l :: 0 <= k < l < |order| ==> SeenBefore(log, order[k], order[l]))
  }

  /** Appending the keys first listed by commit `i`, in the order of its list of files,
      after keys first listed before it. */
  lemma RankedAfter(log: seq<LogEntry>, i: nat, order: seq<string>, order': seq<string>)
    requires i < |log| && log[i].files.Some? && Ranked(log, order)
    requires forall k :: 0 <= k < |order| ==> FirstListing(log, order[k]).value < i
    requires |order| <= |order'| && order'[..|order|] == order
    requires forall k :: |order| <= k < |order'| ==> FirstListing(log, order'[k]) == Some(i)
    requires forall k, l :: |order| <= k < l < |order'| ==>
      order'[k] in log[i].files.value && order'[l] in log[i].files.value
      && FirstPos(log[i].files.value, order'[k]) < FirstPos(log[i].files.value, order'[l])
    ensures Ranked(log, order')
  {
    forall k | 0 <= k < |order'| ensures FirstListing(log, order'[k]).Some? {
      if k < |order| {
        assert order'[k] == order[k];
      }
    }
    forall k, l | 0 <= k < l < |order'| ensures SeenBefore(log, order'[k], order'[l]) {
      if l < |order| {
        assert order'[k] == order[k] && order'[l] == order[l];
      } else if k < |order| {
        assert order'[k] == order[k];
      }
    }
  }

  predicate Distinct(s: seq<string>)
  {
    forall k, l :: 0 <= k < l < |s| ==> s[k] != s[l]
  }

  /** The dict `last'` with insertion order `order'` is the dict `last` with order
      `order` after the paths `fs` not in it yet were added with commit `info`. */
  ghost predicate AddedFrom(order: seq<string>, last: map<string, CommitInfo>, fs: seq<string>, info: CommitInfo,
                            order': seq<string>, last': map<string, CommitInfo>)
  {
    && Distinct(order') && (forall k :: 0 <= k < |order'| ==> order'[k] in last')
    && (forall p | p in last' :: p in order')
    && (forall p :: p in last' <==> p in last || p in fs)
    && (forall p | p in last' :: last'[p] == if p in last then last[p] else info)
    && |order| <= |order'| && order'[..|order|] == order
    && (forall k :: |order| <= k < |order'| ==> order'[k] !in last && order'[k] in fs)
    && (forall k, l :: |order| <= k < l < |order'| ==> FirstPos(fs, order'[k]) < FirstPos(fs, order'[l]))
  }

  /** One iteration of the inner loop of `file_last_commit`. */
  lemma AddStep(order: seq<string>, last: map<string, CommitInfo>, fs: seq<string>, info: CommitInfo,
                order': seq<string>, last': map<string, CommitInfo>, p: string)
    requires AddedFrom(order, last, fs, info, order', last')
    ensures p in last' ==> AddedFrom(order, last, fs + [p], info, order', last')
    ensures p !in last' ==> AddedFrom(order, last, fs + [p], info, order' + [p], last'[p := info])
  {
    forall k | |order| <= k < |order'| ensures FirstPos(fs + [p], order'[k]) == FirstPos(fs, order'[k]) {
      FirstPosAppend(fs, p, order'[k]);
    }
    if p !in last' {
      var o, l := order' + [p], last'[p := info];
      assert o[..|order|] == order' [..|order|];
      forall k | |order| <= k < |o| ensures o[k] !in last && o[k] in fs + [p] {
        if k < |order'| {
          assert o[k] == order'[k];
        }
      }
      assert FirstPos(fs + [p], p) == |fs|;
      forall k, l | |order| <= k < l < |o| ensures FirstPos(fs + [p], o[k]) < FirstPos(fs + [p], o[l]) {
        assert o[k] == order'[k];
        if l < |order'| {
          assert o[l] == order'[l];
        }
      }
    }
  }

  /** The inner loop of `file_last_commit` over one commit's files: each path not in the
      dict yet is added with that commit's data. */
  method AddUnseen(order: seq<string>, last: map<string, CommitInfo>, files: seq<string>, info: CommitInfo)
      returns (order': seq<string>, last': map<string, CommitInfo>)
    requires Distinct(order) && (forall k :: 0 <= k < |order| ==> order[k] in last)
    requires forall p | p in last :: p in order
    ensures AddedFrom(order, last, files, info, order', last')
  {
    order', last' := order, last;
    var j := 0;
    assert files[..0] == [];
    while j < |files|
      invariant 0 <= j <= |files|
      invariant AddedFrom(order, last, files[..j], info, order', last')
    {
      var p := files[j];
      assert files[..j + 1] == files[..j] + [p];
      AddStep(order, last, files[..j], info, order', last', p);
      if p !in last' {
        order', last' := order' + [p], last'[p := info];
      }
      j := j + 1;
    }
    assert files[..|files|] == files;
  }

  /** The dict `last`, with insertion order `order`, after the commits before `i`: it holds
      exactly the paths those commits list, each with the first commit that lists it. */
  ghost predicate FirstSeenUpTo(log: seq<LogEntry>, i: int, order: seq<string>, last: map<string, CommitInfo>)
  {
    && Distinct(order) && (forall k :: 0 <= k < |order| ==> order[k] in last)
    && (forall p | p in last :: p in order)
    && (forall p :: p in last <==> FirstListing(log, p).Some? && FirstListing(log, p).value < i)
    && (forall p | p in last :: last[p] == log[FirstListing(log, p).value].info)
    && Ranked(log, order)
  }

  /** One iteration of the outer loop of `file_last_commit`. */
  lemma FirstSeenStep(log: seq<LogEntry>, i: nat, order: seq<string>, last: map<string, CommitInfo>,
                      order': seq<string>, last': map<string, CommitInfo>)
    requires i < |log| && FirstSeenUpTo(log, i, order, last)
    requires log[i].files.None? ==> order' == order && last' == last
    requires log[i].files.Some? ==> AddedFrom(order, last, log[i].files.value, log[i].info, order', last')
    ensures FirstSeenUpTo(log, i + 1, order', last')
  {
    StepKeys(log, i, last, last');
    StepValues(log, i, last, last');
    if log[i].files.Some? {
      forall k | |order| <= k < |order'| ensures FirstListing(log, order'[k]) == Some(i) {
        FirstAt(log, i, order'[k]);
      }
      RankedAfter(log, i, order, order');
    }
  }

  lemma StepKeys(log: seq<LogEntry>, i: nat, last: map<string, CommitInfo>, last': map<string, CommitInfo>)
    requires i < |log|
    requires forall p :: p in last <==> FirstListing(log, p).Some? && FirstListing(log, p).value < i
    requires forall p :: p in last' <==> p in last || Lists(log[i], p)
    ensures forall p :: p in last' <==> FirstListing(log, p).Some? && FirstListing(log, p).value < i + 1
  {
    forall p ensures p in last' <==> FirstListing(log, p).Some? && FirstListing(log, p).value < i + 1 {
      var r := FirstListing(log, p);
      if p in last {
        assert r.Some? && r.value < i;
      } else if Lists(log[i], p) {
        FirstAt(log, i, p);
      } else {
        assert !(r.Some? && r.value < i);
        assert r.Some? ==> r.value != i;
      }
    }
  }

  lemma StepValues(log: seq<LogEntry>, i: nat, last: map<string, CommitInfo>, last': map<string, CommitInfo>)
    requires i < |log|
    requires forall p :: p in last <==> FirstListing(log, p).Some? && FirstListing(log, p).value < i
    requires forall p | p in last :: last[p] == log[FirstListing(log, p).value].info
    requires forall p :: p in last' <==> p in last || Lists(log[i], p)
    requires forall p | p in last' :: last'[p] == if p in last then last[p] else log[i].info
    ensures forall p | p in last' :: last'[p] == log[FirstListing(log, p).value].info
  {
    forall p | p in last' ensures last'[p] == log[FirstListing(log, p).value].info {
      if p !in last {
        FirstAt(log, i, p);
      }
    }
  }

  /** The `file_last_commit` loop: for each commit in log order whose files could be
      listed, every path not seen yet gets that commit. The dict is `last`; `order` is
      its insertion order. */
  method FileLastCommit(log: seq<LogEntry>) returns (order: seq<string>, last: map<string, CommitInfo>)
    ensures Distinct(order) && (forall k :: 0 <= k < |order| ==> order[k] in last)
    ensures forall p | p in last :: p in order
    ensures forall p :: p in last <==> FirstListing(log, p).Some?
    ensures forall p | p in last :: last[p] == log[FirstListing(log, p).value].info
    ensures Ranked(log, order)
  {
    order, last := [], map[];
    var i := 0;
    while i < |log|
      invariant 0 <= i <= |log|
      invariant FirstSeenUpTo(log, i, order, last)
    {
      ghost var order0, last0 := order, last;
      if log[i].files.Some? {
        order, last := AddUnseen(order, last, log[i].files.value, log[i].info);
      }
      FirstSeenStep(log, i, order0, last0, order, last);
      i := i + 1;
    }
  }

  // ---------------------------------------------------------------------------
  // dir_last_commit

  /** `file_last_commit.items()`. */
  function Items(order: seq<string>, last: map<string, CommitInfo>): (r: seq<FileEntry>)
    requires forall k :: 0 <= k < |order| ==> order[k] in last
    ensures |r| == |order| && forall k :: 0 <= k < |order| ==> r[k] == FileEntry(order[k], last[order[k]])
  {
    seq(|order|, k requires 0 <= k < |order| => FileEntry(order[k], last[order[k]]))
  }

  /** The directory credited at depth `i` of a path split into `parts`:
      `str(Path(*parts[:i + 1]).parent)` for `i > 0`, the root "" for `i == 0`. */
  function DirAt(parts: seq<string>, i: nat): string
    requires i < |parts|
  {
    if i == 0 then "" else Join(parts[..i])
  }

  /** The directories credited at the depths below `i`. */
  function DirsUpTo(parts: seq<string>, i: nat): set<string>
    requires i <= |parts|
  {
    set j | 0 <= j < i :: DirAt(parts, j)
  }

  /** The directories credited with the file `p`: the root and each directory on its way. */
  function DirKeys(p: string): set<string>
  {
    DirsUpTo(Split(p), |Split(p)|)
  }

  /** A directory takes the commit `info` when it has none yet or an older one. */
  predicate Takes(dirLast: map<string, CommitInfo>, d: string, info: CommitInfo)
  {
    d !in dirLast || info.date > dirLast[d].date
  }

  /** `r` is `dirLast` after the directories credited at the depths below `i` of a path
      split into `parts` took the commit `info` wherever it is more recent. */
  ghost predicate CreditedUpTo(dirLast: map<string, CommitInfo>, parts: seq<string>, i: nat, info: CommitInfo,
                               r: map<string, CommitInfo>)
    requires i <= |parts|
  {
    && (forall d :: d in r <==> d in dirLast || d in DirsUpTo(parts, i))
    && (forall d | d in r :: r[d] == if d in DirsUpTo(parts, i) && Takes(dirLast, d, info) then info else dirLast[d])
  }

  /** One iteration of the inner loop of `dir_last_commit`. */
  lemma CreditStep(dirLast: map<string, CommitInfo>, parts: seq<string>, i: nat, info: CommitInfo,
                   r: map<string, CommitInfo>)
    requires i < |parts| && CreditedUpTo(dirLast, parts, i, info, r)
    ensures var d := DirAt(parts, i);
      CreditedUpTo(dirLast, parts, i + 1, info, if Takes(r, d, info) then r[d := info] else r)
  {
    assert DirsUpTo(parts, i + 1) == DirsUpTo(parts, i) + {DirAt(parts, i)};
  }

  /** The inner loop of `dir_last_commit` for one file `p` with commit `info`. */
  method CreditDirs(dirLast: map<string, CommitInfo>, p: string, info: CommitInfo) returns (r: map<string, CommitInfo>)
    ensures forall d :: d in r <==> d in dirLast || d in DirKeys(p)
    ensures forall d | d in r :: r[d] == if d in DirKeys(p) && Takes(dirLast, d, info) then info else dirLast[d]
  {
    var parts := Split(p);
    r := dirLast;
    var i := 0;
    while i < |parts|
      invariant 0 <= i <= |parts|
      invariant CreditedUpTo(dirLast, parts, i, info, r)
    {
      var d := if i > 0 then Join(parts[..i]) else "";
      CreditStep(dirLast, parts, i, info, r);
      if d !in r || info.date > r[d].date {
        r := r[d := info];
      }
      i := i + 1;
    }
  }

  /** The positions among the first `n` items of the files credited to `d`. */
  function Credited(items: seq<FileEntry>, n: int, d: string): set<int>
    requires n <= |items|
  {
    set l | 0 <= l < n && d in DirKeys(items[l].path)
  }

  /** Item `k` is the most recent of the candidates `cands` and, among the most recent
      ones, the first. */
  ghost predicate Latest(items: seq<FileEntry>, cands: set<int>, k: int)
  {
    && 0 <= k < |items| && k in cands
    && (forall l | l in cands :: 0 <= l < |items| && items[l].info.date <= items[k].info.date)
    && (forall l | l in cands && l < k :: items[l].info.date < items[k].info.date)
  }

  /** A later candidate takes over only when strictly more recent. */
  lemma LatestAdd(items: seq<FileEntry>, cands: set<int>, k: int, n: int)
    requires Latest(items, cands, k) && 0 <= n < |items| && forall l | l in cands :: l < n
    ensures items[n].info.date > items[k].info.date ==> Latest(items, cands + {n}, n)
    ensures items[n].info.date <= items[k].info.date ==> Latest(items, cands + {n}, k)
  {
  }

  /** `dirLast` after the first `n` items, with the item each directory took its commit
      from in `win`. */
  ghost predicate DirsUpToItem(items: seq<FileEntry>, n: int, dirLast: map<string, CommitInfo>, win: map<string, int>)
    requires 0 <= n <= |items|
  {
    && (forall d :: d in dirLast <==> Credited(items, n, d) != {})
    && (forall d | d in dirLast :: d in win && Latest(items, Credited(items, n, d), win[d]) && dirLast[d] == items[win[d]].info)
  }

  /** Where each directory's commit comes from after crediting item `n`. */
  ghost function NextWin(dirLast: map<string, CommitInfo>, win: map<string, int>, r: map<string, CommitInfo>,
                         p: string, info: CommitInfo, n: int): map<string, int>
  {
    map d | d in r :: if d in DirKeys(p) && Takes(dirLast, d, info) then n else if d in win then win[d] else 0
  }

  /** One iteration of the outer loop of `dir_last_commit`. */
  lemma DirStep(items: seq<FileEntry>, n: int, dirLast: map<string, CommitInfo>, win: map<string, int>, r: map<string, CommitInfo>)
    requires 0 <= n < |items| && DirsUpToItem(items, n, dirLast, win)
    requires forall d :: d in r <==> d in dirLast || d in DirKeys(items[n].path)
    requires forall d | d in r :: r[d] == if d in DirKeys(items[n].path) && Takes(dirLast, d, items[n].info) then items[n].info else dirLast[d]
    ensures DirsUpToItem(items, n + 1, r, NextWin(dirLast, win, r, items[n].path, items[n].info, n))
  {
    var win' := NextWin(dirLast, win, r, items[n].path, items[n].info, n);
    forall d ensures d in r <==> Credited(items, n + 1, d) != {}
      ensures d in r ==> d in win' && Latest(items, Credited(items, n + 1, d), win'[d]) && r[d] == items[win'[d]].info
    {
      DirStepAt(items, n, dirLast, win, r, d);
    }
  }

  /** The same, for one directory `d`. */
  lemma DirStepAt(items: seq<FileEntry>, n: int, dirLast: map<string, CommitInfo>, win: map<string, int>,
                  r: map<string, CommitInfo>, d: string)
    requires 0 <= n < |items|
    requires d in dirLast <==> Credited(items, n, d) != {}
    requires d in dirLast ==> d in win && Latest(items, Credited(items, n, d), win[d]) && dirLast[d] == items[win[d]].info
    requires d in r <==> d in dirLast || d in DirKeys(items[n].path)
    requires d in r ==> r[d] == if d in DirKeys(items[n].path) && Takes(dirLast, d, items[n].info) then items[n].info else dirLast[d]
    ensures d in r <==> Credited(items, n + 1, d) != {}
    ensures var w := if d in DirKeys(items[n].path) && Takes(dirLast, d, items[n].info) then n else if d in win then win[d] else 0;
      d in r ==> Latest(items, Credited(items, n + 1, d), w) && r[d] == items[w].info
  {
    var p := items[n].path;
    assert Credited(items, n + 1, d) == Credited(items, n, d) + (if d in DirKeys(p) then {n} else {});
    if d in DirKeys(p) {
      if d in dirLast {
        LatestAdd(items, Credited(items, n, d), win[d], n);
      } else {
        assert Credited(items, n, d) == {};
      }
    }
  }

  /** The `dir_last_commit` loop: every directory credited with some file gets the most
      recent commit among its files, the first visited on a tie. */
  method DirLastCommit(items: seq<FileEntry>) returns (dirLast: map<string, CommitInfo>)
    ensures forall d :: d in dirLast <==> Credited(items, |items|, d) != {}
    ensures forall d | d in dirLast :: exists k :: Latest(items, Credited(items, |items|, d), k) && dirLast[d] == items[k].info
  {
    dirLast := map[];
    ghost var win: map<string, int> := map[];
    var n := 0;
    while n < |items|
      invariant 0 <= n <= |items|
      invariant DirsUpToItem(items, n, dirLast, win)
    {
      var r := CreditDirs(dirLast, items[n].path, items[n].info);
      DirStep(items, n, dirLast, win, r);
      dirLast, win := r, NextWin(dirLast, win, r, items[n].path, items[n].info, n);
      n := n + 1;
    }
  }

  /** The fallback of `ls` for a directory missing from `dir_last_commit`: the most recent
      commit of the files whose path starts with `rel + "/"`, the first visited on a tie. */
  function Under(items: seq<FileEntry>, n: int, rel: string): set<int>
    requires n <= |items|
  {
    set l | 0 <= l < n && rel + "/" <= items[l].path
  }

  method MostRecentUnder(items: seq<FileEntry>, rel: string) returns (mostRecent: Option<CommitInfo>)
    ensures mostRecent.None? <==> Under(items, |items|, rel) == {}
    ensures mostRecent.Some? ==> exists k :: Latest(items, Under(items, |items|, rel), k) && mostRecent.value == items[k].info
  {
    mostRecent := None;
    ghost var win := 0;
    var n := 0;
    while n < |items|
      invariant 0 <= n <= |items|
      invariant mostRecent.None? <==> Under(items, n, rel) == {}
      invariant mostRecent.Some? ==> Latest(items, Under(items, n, rel), win) && mostRecent.value == items[win].info
    {
      assert Under(items, n + 1, rel) == Under(items, n, rel) + (if rel + "/" <= items[n].path then {n} else {});
      if rel + "/" <= items[n].path {
        if mostRecent.None? || items[n].info.date > mostRecent.value.date {
          if mostRecent.Some? {
            LatestAdd(items, Under(items, n, rel), win, n);
          }
          mostRecent, win := Some(items[n].info), n;
        } else {
          LatestAdd(items, Under(items, n, rel), win, n);
        }
      }
      n := n + 1;
    }
  }

  /** A file below `rel` credits `rel` itself. */
  lemma BelowIsCredited(rel: string, p: string)
    requires rel + "/" <= p
    ensures rel in DirKeys(p)
  {
    var rest := p[|rel| + 1..];
    assert p == rel + "/" + rest;
    SplitAppend(rel, rest);
    var parts := Split(p);
    var i := |Split(rel)|;
    assert parts[..i] == Split(rel);
    JoinSplit(rel);
    assert DirAt(parts, i) == rel;
  }

  /** Every file the fallback looks at credits the directory itself, so the fallback
      never finds anything for a directory missing from `dir_last_commit`. */
  lemma UnderIsCredited(items: seq<FileEntry>, rel: string)
    ensures Under(items, |items|, rel) <= Credited(items, |items|, rel)
  {
    forall l | l in Under(items, |items|, rel) ensures l in Credited(items, |items|, rel) {
      BelowIsCredited(rel, items[l].path);
    }
  }

  // ---------------------------------------------------------------------------
  // the listing

  /** The least name of a non-empty set. */
  method Least(s: set<string>) returns (m: string)
    requires s != {}
    ensures m in s && forall x | x in s && x != m :: Before(m, x)
  {
    m :| m in s;
    var rest := s - {m};
    while rest != {}
      invariant rest <= s && m in s && m !in rest
      invariant forall x | x in s - rest && x != m :: Before(m, x)
      decreases rest
    {
      var x :| x in rest;
      if Before(x, m) {
        forall y | y in s - rest && y != x ensures Before(x, y) {
          if y != m {
            BeforeTransitive(x, m, y);
          }
        }
        m := x;
      } else {
        BeforeTotal(x, m);
      }
      rest := rest - {x};
    }
  }

  /** `sorted(names)`: the names in increasing order, each once. */
  method Sorted(s: set<string>) returns (r: seq<string>)
    ensures forall i, j :: 0 <= i < j < |r| ==> Before(r[i], r[j])
    ensures forall x :: x in r <==> x in s
  {
    r := [];
    var todo := s;
    while todo != {}
      invariant todo <= s
      invariant forall x :: x in r <==> x in s && x !in todo
      invariant forall i, j :: 0 <= i < j < |r| ==> Before(r[i], r[j])
      invariant forall i, x :: 0 <= i < |r| && x in todo ==> Before(r[i], x)
      decreases todo
    {
      var m := Least(todo);
      r := r + [m];
      todo := todo - {m};
    }
  }

  /** A strictly increasing sequence repeats no name. */
  lemma SortedIsDistinct(r: seq<string>)
    requires forall i, j :: 0 <= i < j < |r| ==> Before(r[i], r[j])
    ensures Distinct(r)
  {
    forall k, l | 0 <= k < l < |r| ensures r[k] != r[l] {
      BeforeIrreflexive(r[k]);
    }
  }

  /** The name under which `Path.iterdir` of directory `d` lists the path `p`, if it lists it. */
  function EntryName(d: string, p: string): Option<string>
  {
    var name := if d == "" then p else if d + "/" <= p then p[|d| + 1..] else "";
    if name != "" && '/' !in name then Some(name) else None
  }

  /** `p` is listed in `d` exactly when it is the child path of a name without "/". */
  lemma EntryNameExact(d: string, p: string, n: string)
    ensures EntryName(d, p) == Some(n) <==> n != "" && '/' !in n && p == Child(d, n)
  {
    if d != "" && p == d + "/" + n {
      assert d + "/" <= p && p[|d| + 1..] == n;
    }
  }

  /** The names `iterdir` gives for directory `d` of a working tree whose files and
      directories are `paths`, `.git` skipped. */
  function Listed(paths: set<string>, d: string): set<string>
  {
    set p | p in paths && EntryName(d, p).Some? && EntryName(d, p).value != ".git" :: EntryName(d, p).value
  }

  /** What is listed: every name, other than `.git`, of an entry of `d`. */
  lemma ListedExact(paths: set<string>, d: string, n: string)
    ensures n in Listed(paths, d) <==> n != "" && '/' !in n && n != ".git" && Child(d, n) in paths
  {
    if n in Listed(paths, d) {
      var p :| p in paths && EntryName(d, p) == Some(n);
      EntryNameExact(d, p, n);
    }
    if n != "" && '/' !in n && n != ".git" && Child(d, n) in paths {
      EntryNameExact(d, Child(d, n), n);
    }
  }

  datatype Kind = File | Directory

  /** A result row of `ls`. */
  datatype LsEntry = LsEntry(name: string, kind: Kind, path: string, sha: Option<Sha>, date: Option<int>,
                             author: Option<string>, message: string)

  /** The message of an entry without history. */
  const Uncommitted: string := "Non commit\U{00E9}"

  /** The row for an entry with commit data `commit`, or without history. */
  function Row(name: string, kind: Kind, path: string, commit: Option<CommitInfo>): (e: LsEntry)
    ensures e.name == name && e.kind == kind && e.path == path
    ensures commit.Some? ==>
              e.sha == Some(commit.value.sha) && e.date == Some(commit.value.date)
              && e.author == Some(commit.value.author) && e.message == commit.value.message
    ensures commit.None? ==> e.sha.None? && e.date.None? && e.author.None? && e.message == Uncommitted
  {
    match commit
    case Some(c) => LsEntry(name, kind, path, Some(c.sha), Some(c.date), Some(c.author), c.message)
    case None => LsEntry(name, kind, path, None, None, None, Uncommitted)
  }

  /** The commit data a row shows; None for a row without history. */
  function Shown(e: LsEntry): Option<CommitInfo>
  {
    if e.sha.Some? && e.date.Some? && e.author.Some? then Some(CommitInfo(e.sha.value, e.author.value, e.message, e.date.value))
    else None
  }

  /** A row shows the commit data it was built from. */
  lemma ShownRow(name: string, kind: Kind, path: string, commit: Option<CommitInfo>)
    ensures Shown(Row(name, kind, path, commit)) == commit
  {
  }

  /** Row `e` is the one `ls` gives for the entry `name` of directory `d`: a file shows
      its entry of `file_last_commit` (dict `last`), a directory its entry of
      `dir_last_commit`, or else the most recent commit of the files below it in the
      items `items` (the first of them on a tie); no history shows `Uncommitted`. */
  ghost predicate RowFor(d: string, name: string, dirs: set<string>, items: seq<FileEntry>,
                         last: map<string, CommitInfo>, dirLast: map<string, CommitInfo>, e: LsEntry)
  {
    var rel := Child(d, name);
    var under := Under(items, |items|, rel);
    && e.name == name && e.path == rel && e.kind == (if rel in dirs then Directory else File)
    && (Shown(e).None? ==> e.message == Uncommitted)
    && (rel !in dirs ==> Shown(e) == if rel in last then Some(last[rel]) else None)
    && (rel in dirs && rel in dirLast ==> Shown(e) == Some(dirLast[rel]))
    && (rel in dirs && rel !in dirLast ==>
          && (Shown(e).None? <==> under == {})
          && (Shown(e).Some? ==> exists k :: Latest(items, under, k) && Shown(e).value == items[k].info))
  }

  /** The loop of `ls` over the sorted names of directory `d`: one row per name, in order. */
  method Listing(d: string, names: seq<string>, dirs: set<string>, items: seq<FileEntry>,
                 last: map<string, CommitInfo>, dirLast: map<string, CommitInfo>) returns (results: seq<LsEntry>)
    ensures |results| == |names|
    ensures forall i :: 0 <= i < |names| ==> RowFor(d, names[i], dirs, items, last, dirLast, results[i])
  {
    results := [];
    var i := 0;
    while i < |names|
      invariant 0 <= i <= |names| && |results| == i
      invariant forall j :: 0 <= j < i ==> RowFor(d, names[j], dirs, items, last, dirLast, results[j])
    {
      var name := names[i];
      var rel := if d != "" then d + "/" + name else name;
      var kind := if rel in dirs then Directory else File;
      var commit: Option<CommitInfo>;
      if kind == File {
        commit := if rel in last then Some(last[rel]) else None;
      } else {
        commit := if rel in dirLast then Some(dirLast[rel]) else None;
        if commit.None? {
          commit := MostRecentUnder(items, rel);
        }
      }
      ShownRow(name, kind, rel, commit);
      results := results + [Row(name, kind, rel, commit)];
      i := i + 1;
    }
  }

  // ---------------------------------------------------------------------------
  // the rows, stated from the log alone

  /** The commit `file_last_commit` ends up holding for `p`: that of the first commit of
      the log whose tree lists `p`; None when no commit lists it. */
  function FileCommit(log: seq<LogEntry>, p: string): (r: Option<CommitInfo>)
    ensures r.Some? <==> FirstListing(log, p).Some?
    ensures r.Some? <==> exists i :: 0 <= i < |log| && Lists(log[i], p)
    ensures r.Some? ==>
      exists i :: 0 <= i < |log| && Lists(log[i], p) && r.value == log[i].info && forall j :: 0 <= j < i ==> !Lists(log[j], p)
  {
    match FirstListing(log, p)
    case None => None
    case Some(i) => Some(log[i].info)
  }

  /** What `FileLastCommit` returns: `order` lists the keys of `last` once each, and each
      key holds the first commit listing it. */
  ghost predicate FirstSeen(log: seq<LogEntry>, order: seq<string>, last: map<string, CommitInfo>)
  {
    && (forall k :: 0 <= k < |order| ==> order[k] in last)
    && (forall p | p in last :: p in order)
    && (forall p :: p in last <==> FirstListing(log, p).Some?)
    && (forall p | p in last :: last[p] == log[FirstListing(log, p).value].info)
  }

  /** What `DirLastCommit` returns. */
  ghost predicate DirsLatest(items: seq<FileEntry>, dirLast: map<string, CommitInfo>)
  {
    && (forall d :: d in dirLast <==> Credited(items, |items|, d) != {})
    && (forall d | d in dirLast :: exists k :: Latest(items, Credited(items, |items|, d), k) && dirLast[d] == items[k].info)
  }

  /** `p` is the file whose commit directory `rel` shows: among the files credited to
      `rel` that have history, its commit is the most recent, and among those equally
      recent it is the first `file_last_commit` met. */
  ghost predicate DirWinner(log: seq<LogEntry>, rel: string, p: string)
  {
    && rel in DirKeys(p) && FirstListing(log, p).Some?
    && (forall q :: rel in DirKeys(q) && FileCommit(log, q).Some? ==>
          FileCommit(log, q).value.date <= FileCommit(log, p).value.date)
    && (forall q ::
          (rel in DirKeys(q) && FileCommit(log, q).Some? && q != p
           && FileCommit(log, q).value.date == FileCommit(log, p).value.date) ==> SeenBefore(log, p, q))
  }

  /** Row `e` is what `ls` shows for the entry `e.name` of directory `d`, stated from the
      log alone: a file shows the first commit listing it; a directory shows the commit of
      the file `DirWinner` picks among those credited to it; an entry without history
      shows `Uncommitted`. */
  ghost predicate LogRow(log: seq<LogEntry>, d: string, dirs: set<string>, e: LsEntry)
  {
    var rel := Child(d, e.name);
    && e.path == rel && e.kind == (if rel in dirs then Directory else File)
    && (Shown(e).None? ==> e.message == Uncommitted)
    && (rel !in dirs ==> Shown(e) == FileCommit(log, rel))
    && (rel in dirs ==> (Shown(e).None? <==> forall p :: rel in DirKeys(p) ==> FileCommit(log, p).None?))
    && (rel in dirs && Shown(e).Some? ==> exists p :: DirWinner(log, rel, p) && FileCommit(log, p) == Shown(e))
  }

  /** A file with history credited to `rel` is one of the items credited to `rel`. */
  lemma CreditedItem(log: seq<LogEntry>, order: seq<string>, last: map<string, CommitInfo>, rel: string, p: string)
    returns (k: int)
    requires FirstSeen(log, order, last)
    requires rel in DirKeys(p) && FileCommit(log, p).Some?
    ensures 0 <= k < |order| && order[k] == p
    ensures k in Credited(Items(order, last), |order|, rel)
    ensures Items(order, last)[k].info == FileCommit(log, p).value
  {
    assert p in last;
    k :| 0 <= k < |order| && order[k] == p;
  }

  /** A directory is credited with some item exactly when some file credited to it has
      history. */
  lemma CreditedHistory(log: seq<LogEntry>, order: seq<string>, last: map<string, CommitInfo>, rel: string)
    requires FirstSeen(log, order, last)
    ensures Credited(Items(order, last), |order|, rel) == {} <==> forall p :: rel in DirKeys(p) ==> FileCommit(log, p).None?
  {
    var items := Items(order, last);
    var cands := Credited(items, |order|, rel);
    forall p | rel in DirKeys(p) && FileCommit(log, p).Some? ensures cands != {} {
      var k := CreditedItem(log, order, last, rel, p);
    }
    if cands != {} {
      var k :| k in cands;
      assert rel in DirKeys(order[k]) && order[k] in last;
    }
  }

  /** The rows `ls` builds from `file_last_commit` and `dir_last_commit` are the rows the
      log determines. */
  lemma RowFromLog(log: seq<LogEntry>, order: seq<string>, last: map<string, CommitInfo>, dirLast: map<string, CommitInfo>,
                   d: string, name: string, dirs: set<string>, e: LsEntry)
    requires FirstSeen(log, order, last) && Ranked(log, order)
    requires DirsLatest(Items(order, last), dirLast)
    requires RowFor(d, name, dirs, Items(order, last), last, dirLast, e)
    ensures LogRow(log, d, dirs, e)
  {
    var items := Items(order, last);
    var rel := Child(d, name);
    if rel in dirs {
      CreditedHistory(log, order, last, rel);
      if rel in dirLast {
        DirRowFromLog(log, order, last, dirLast, rel, e);
      } else {
        UnderIsCredited(items, rel);
      }
    }
  }

  /** A directory in `dir_last_commit` shows the commit of the file `DirWinner` picks. */
  lemma DirRowFromLog(log: seq<LogEntry>, order: seq<string>, last: map<string, CommitInfo>, dirLast: map<string, CommitInfo>,
                      rel: string, e: LsEntry)
    requires FirstSeen(log, order, last) && Ranked(log, order)
    requires DirsLatest(Items(order, last), dirLast)
    requires rel in dirLast && Shown(e) == Some(dirLast[rel])
    ensures exists p :: DirWinner(log, rel, p) && FileCommit(log, p) == Shown(e)
  {
    var items := Items(order, last);
    var cands := Credited(items, |items|, rel);
    var k :| Latest(items, cands, k) && dirLast[rel] == items[k].info;
    var p := items[k].path;
    assert FileCommit(log, p) == Shown(e);
    forall q | rel in DirKeys(q) && FileCommit(log, q).Some?
      ensures FileCommit(log, q).value.date <= FileCommit(log, p).value.date
    {
      NotMoreRecent(log, order, last, rel, k, q);
    }
    forall q | rel in DirKeys(q) && FileCommit(log, q).Some? && q != p
        && FileCommit(log, q).value.date == FileCommit(log, p).value.date
      ensures SeenBefore(log, p, q)
    {
      TieGoesToFirstSeen(log, order, last, rel, k, q);
    }
    assert DirWinner(log, rel, p);
  }

  /** Among equally recent files credited to `rel`, the latest item is the first met. */
  lemma TieGoesToFirstSeen(log: seq<LogEntry>, order: seq<string>, last: map<string, CommitInfo>, rel: string, k: int, q: string)
    requires FirstSeen(log, order, last) && Ranked(log, order)
    requires Latest(Items(order, last), Credited(Items(order, last), |order|, rel), k)
    requires rel in DirKeys(q) && FileCommit(log, q).Some? && q != order[k]
    requires FileCommit(log, q).value.date == Items(order, last)[k].info.date
    ensures SeenBefore(log, order[k], q)
  {
    var l := CreditedItem(log, order, last, rel, q);
    assert l != k;
  }

  /** No file credited to `rel` has a commit more recent than the latest item. */
  lemma NotMoreRecent(log: seq<LogEntry>, order: seq<string>, last: map<string, CommitInfo>, rel: string, k: int, q: string)
    requires FirstSeen(log, order, last)
    requires Latest(Items(order, last), Credited(Items(order, last), |order|, rel), k)
    requires rel in DirKeys(q) && FileCommit(log, q).Some?
    ensures FileCommit(log, q).value.date <= Items(order, last)[k].info.date
  {
    var l := CreditedItem(log, order, last, rel, q);
  }
}
