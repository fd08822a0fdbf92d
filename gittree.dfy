/** Git trees as values: flattening a tree into its blob paths (`collect_tree_paths`),
    following a "/"-separated path down a tree (`TrueGit.read`), the `.git` test of
    `is_in_git`, and the directory guard of `checkout`. */
module GitTree {
  import opened Text

  datatype Option<T> = None | Some(value: T)

  newtype byte = x: int | 0 <= x < 256
  type Bytes = seq<byte>
  type Sha = string

  /** A git object reachable from a commit: a blob with its id and bytes,
      or a tree mapping entry names to objects. */
  datatype Tree = Blob(sha: Sha, data: Bytes) | Dir(entries: map<string, Tree>)

  /** Git's rules for trees written by `add` and `commit`: entry names are non-empty
      and contain no "/", and no subtree is empty (an index cannot hold an empty directory). */
  ghost predicate WellFormed(t: Tree)
  {
    match t
    case Blob(_, _) => true
    case Dir(m) =>
      forall name | name in m ::
        name != "" && '/' !in name && (m[name].Dir? ==> m[name].entries != map[]) && WellFormed(m[name])
  }

  /** The path of entry `name` below `base`: `name if base == "" else f"{base}/{name}"`. */
  function Child(base: string, name: string): string
  {
    if base == "" then name else base + "/" + name
  }

  /** `collect_tree_paths(tree_obj, base)`: the paths of the blobs at or below `t`,
      where `t` sits at path `base`. */
  function CollectTreePaths(t: Tree, base: string): set<string>
  {
    match t
    case Blob(_, _) => {base}
    case Dir(m) => set name, p | name in m && p in CollectTreePaths(m[name], Child(base, name)) :: p
  }

  /** Follows the segments `parts` down from `t`; None when a segment is missing or
      names an entry of a blob. */
  function Lookup(t: Tree, parts: seq<string>): Option<Tree>
  {
    if parts == [] then Some(t)
    else match t
      case Blob(_, _) => None
      case Dir(m) => if parts[0] in m then Lookup(m[parts[0]], parts[1..]) else None
  }

  /** Following the "/"-separated path `p` from `t` ends on a blob. */
  predicate IsBlobAt(t: Tree, p: string)
  {
    var r := Lookup(t, Split(p));
    r.Some? && r.value.Blob?
  }

  /** The blob a blob path leads to. */
  function BlobAt(t: Tree, p: string): (b: Tree)
    requires IsBlobAt(t, p)
    ensures b.Blob?
  {
    Lookup(t, Split(p)).value
  }

  /** `is_in_git`: the path is the `.git` directory or lies inside it. */
  predicate InGit(p: string)
  {
    p == ".git" || ".git/" <= p
  }

  /** `d` is a directory on the way to `p`. */
  predicate IsAncestor(d: string, p: string)
  {
    d != "" && d + "/" <= p
  }

  /** The guard of checkout's directory pass as written: some expected path equals `d`
      or starts with `d + "/"`. */
  predicate HasExpectedUnderAsWritten(expected: set<string>, d: string)
  {
    exists p | p in expected :: p == d || d + "/" <= p
  }

  /** The corrected guard: some expected path lies strictly beneath `d`. */
  predicate HasExpectedBeneath(expected: set<string>, d: string)
  {
    exists p | p in expected :: d + "/" <= p
  }

  /** Puts blob `b` at the path `parts` below `t`, creating missing subtrees, as staging
      a file and committing the index does; None when a blob stands where a subtree is
      needed or a subtree stands where the blob goes. */
  function Put(t: Tree, parts: seq<string>, b: Tree): Option<Tree>
    requires b.Blob?
    requires |parts| >= 1
    decreases |parts|
  {
    match t
    case Blob(_, _) => None
    case Dir(m) =>
      var name := parts[0];
      if |parts| == 1 then
        if name in m && m[name].Dir? then None else Some(Dir(m[name := b]))
      else
        var sub := if name in m then m[name] else Dir(map[]);
        match Put(sub, parts[1..], b)
        case None => None
        case Some(sub') => Some(Dir(m[name := sub']))
  }

  // ---------------------------------------------------------------------------
  // Lemmas about paths of segments

  lemma {:induction false} LookupAppend(t: Tree, a: seq<string>, b: seq<string>)
    ensures Lookup(t, a + b) == (match Lookup(t, a) case None => None case Some(u) => Lookup(u, b))
  {
    if a != [] {
      assert (a + b)[0] == a[0] && (a + b)[1..] == a[1..] + b;
      match t
      case Blob(_, _) =>
      case Dir(m) =>
        if a[0] in m {
          LookupAppend(m[a[0]], a[1..], b);
        }
    } else {
      assert a + b == b;
    }
  }

  /** Splitting `a + "/" + b` splits `a` and `b` separately. */
  lemma {:induction false} SplitAppend(a: string, b: string)
    ensures Split(a + "/" + b) == Split(a) + Split(b)
  {
    if a == [] {
      SplitAtFirstSlash(a, b);
    } else {
      assert (a + "/" + b)[1..] == a[1..] + "/" + b;
      SplitAppend(a[1..], b);
    }
  }

  /** Every path collected under `base != ""` starts with `base + "/"` or is `base`. */
  lemma {:induction false} CollectedUnderBase(t: Tree, base: string, q: string)
    requires q in CollectTreePaths(t, base)
    requires base != ""
    ensures q == base || base + "/" <= q
    ensures t.Dir? ==> base + "/" <= q
  {
    match t
    case Blob(_, _) =>
    case Dir(m) =>
      var name :| name in m && q in CollectTreePaths(m[name], Child(base, name));
      CollectedUnderBase(m[name], base + "/" + name, q);
      assert base + "/" <= base + "/" + name;
  }

  /** A path collected at the root reappears under `base + "/"` when collecting below `base`. */
  lemma {:induction false} CollectShiftIn(t: Tree, base: string, r: string)
    requires t.Dir? && WellFormed(t) && base != ""
    requires r in CollectTreePaths(t, "")
    ensures base + "/" + r in CollectTreePaths(t, base)
    decreases t
  {
    var m := t.entries;
    var name := CollectElim(m, "", r);
    if m[name].Blob? {
      CollectBlobEntry(m, "", name);
      CollectBlobEntry(m, base, name);
    } else {
      CollectedUnderBase(m[name], name, r);
      var r' := DropPrefix(name, r);
      CollectShiftOut(m[name], name, r');
      CollectShiftIn(m[name], base + "/" + name, r');
      Regroup(base, name, r');
    }
    CollectIntro(m, base, name, base + "/" + r);
  }

  /** A path collected below `base` as `base + "/" + r` is collected as `r` at the root. */
  lemma {:induction false} CollectShiftOut(t: Tree, base: string, r: string)
    requires t.Dir? && WellFormed(t) && base != ""
    requires base + "/" + r in CollectTreePaths(t, base)
    ensures r in CollectTreePaths(t, "")
    decreases t
  {
    var m := t.entries;
    var q := base + "/" + r;
    var name := CollectElim(m, base, q);
    var child := base + "/" + name;
    if m[name].Blob? {
      CollectBlobEntry(m, base, name);
      CancelPrefix(base, r, name);
      CollectBlobEntry(m, "", name);
    } else {
      CollectedUnderBase(m[name], child, q);
      var r' := DropPrefix(child, q);
      CollectShiftOut(m[name], child, r');
      CollectShiftIn(m[name], name, r');
      Regroup(base, name, r');
      CancelPrefix(base, r, name + "/" + r');
    }
    CollectIntro(m, "", name, r);
  }

  /** A blob entry collects its own path only. */
  lemma CollectBlobEntry(m: map<string, Tree>, base: string, name: string)
    requires name in m && m[name].Blob?
    ensures CollectTreePaths(m[name], Child(base, name)) == {Child(base, name)}
  {
  }

  lemma Regroup(base: string, name: string, r: string)
    ensures base + "/" + name + "/" + r == base + "/" + (name + "/" + r)
  {
  }

  /** The rest of `q` after the directory `d`. */
  lemma DropPrefix(d: string, q: string) returns (rest: string)
    requires d + "/" <= q
    ensures q == d + "/" + rest
  {
    rest := q[|d| + 1..];
    assert q == q[..|d| + 1] + rest;
  }

  lemma CancelPrefix(base: string, r: string, x: string)
    requires base + "/" + r == base + "/" + x
    ensures r == x
  {
    assert r == (base + "/" + r)[|base| + 1..];
  }

  /** The entry of a tree a collected path comes from. */
  lemma CollectElim(m: map<string, Tree>, base: string, q: string) returns (name: string)
    requires q in CollectTreePaths(Dir(m), base)
    ensures name in m && q in CollectTreePaths(m[name], Child(base, name))
  {
    name :| name in m && q in CollectTreePaths(m[name], Child(base, name));
  }

  /** A path collected from one entry of a tree is collected from the tree. */
  lemma CollectIntro(m: map<string, Tree>, base: string, name: string, q: string)
    requires name in m && q in CollectTreePaths(m[name], Child(base, name))
    ensures q in CollectTreePaths(Dir(m), base)
  {
  }

  /** Every path `collect_tree_paths` returns leads to a blob. */
  lemma {:induction false} CollectedIsBlob(t: Tree, p: string)
    requires t.Dir? && WellFormed(t)
    requires p in CollectTreePaths(t, "")
    ensures IsBlobAt(t, p)
  {
    var m := t.entries;
    var name :| name in m && p in CollectTreePaths(m[name], Child("", name));
    match m[name]
    case Blob(_, _) =>
      assert p == name;
      SplitNoSlash(name);
      assert Lookup(t, Split(p)) == Lookup(m[name], []);
    case Dir(_) =>
      CollectedUnderBase(m[name], name, p);
      var r := p[|name| + 1..];
      assert p == name + "/" + r;
      CollectShiftOut(m[name], name, r);
      CollectedIsBlob(m[name], r);
      SplitAtFirstSlash(name, r);
      assert Split(p) == [name] + Split(r);
      assert Lookup(t, Split(p)) == Lookup(m[name], Split(r));
  }

  /** Every path that leads to a blob is returned by `collect_tree_paths`. */
  lemma {:induction false} BlobIsCollected(t: Tree, p: string)
    requires t.Dir? && WellFormed(t)
    requires IsBlobAt(t, p)
    ensures p in CollectTreePaths(t, "")
  {
    var m := t.entries;
    var parts := Split(p);
    var name := parts[0];
    SplitPiecesHaveNoSlash(p);
    JoinSplit(p);
    assert name in m && Lookup(t, parts) == Lookup(m[name], parts[1..]);
    if |parts| == 1 {
      assert p == Join(parts) == name;
      assert m[name].Blob?;
      assert CollectTreePaths(m[name], Child("", name)) == {name};
      CollectIntro(m, "", name, p);
    } else {
      assert m[name].Dir?;
      var r := Join(parts[1..]);
      assert p == Join(parts) == name + "/" + r;
      SplitJoin(parts[1..]);
      BlobIsCollected(m[name], r);
      CollectShiftIn(m[name], name, r);
      CollectIntro(m, "", name, p);
    }
  }

  /** `collect_tree_paths(tree)` is exactly the set of paths that lead to a blob:
      every collected path ends on a blob, a subtree's own path is never collected,
      and every blob leaf is. */
  lemma CollectTreePathsExact(t: Tree, p: string)
    requires t.Dir? && WellFormed(t)
    ensures p in CollectTreePaths(t, "") <==> IsBlobAt(t, p)
    ensures (var n := Lookup(t, Split(p)); n.Some? && n.value.Dir?) ==> p !in CollectTreePaths(t, "")
  {
    if p in CollectTreePaths(t, "") {
      CollectedIsBlob(t, p);
    }
    if IsBlobAt(t, p) {
      BlobIsCollected(t, p);
    }
  }

  /** No blob path of a tree is a directory on the way to another blob path. */
  lemma CollectedPathsArePrefixFree(t: Tree, p: string, q: string)
    requires t.Dir? && WellFormed(t)
    requires p in CollectTreePaths(t, "") && q in CollectTreePaths(t, "")
    ensures !(p + "/" <= q)
  {
    if p + "/" <= q {
      CollectTreePathsExact(t, p);
      CollectTreePathsExact(t, q);
      var rest := q[|p + "/"|..];
      assert q == p + "/" + rest;
      SplitAppend(p, rest);
      LookupAppend(t, Split(p), Split(rest));
    }
  }

  /** With the corrected guard, a directory kept alive by the expected paths is never
      itself an expected blob path, so no write of a blob can land on a directory. */
  lemma KeptDirIsNotExpected(t: Tree, d: string)
    requires t.Dir? && WellFormed(t)
    requires HasExpectedBeneath(CollectTreePaths(t, ""), d)
    ensures d !in CollectTreePaths(t, "")
  {
    var p :| p in CollectTreePaths(t, "") && d + "/" <= p;
    if d in CollectTreePaths(t, "") {
      CollectedPathsArePrefixFree(t, d, p);
    }
  }

  /** The directory guard as written keeps a directory at the very path where the
      target branch has a blob: checking out a tree whose blob is `a` over a working
      tree with a directory `a` keeps the directory, and writing the blob then fails. */
  lemma GuardAsWrittenKeepsBlobPath()
    ensures var t := Dir(map["a" := Blob("b1", [])]);
      CollectTreePaths(t, "") == {"a"} && HasExpectedUnderAsWritten(CollectTreePaths(t, ""), "a")
    ensures KeptDirsAsWritten({"a"}, {"a"}) == {"a"}
    ensures WriteConflict(map[], KeptDirsAsWritten({"a"}, {"a"}), "a")
  {
    var t := Dir(map["a" := Blob("b1", [])]);
    assert "a" in CollectTreePaths(t.entries["a"], Child("", "a"));
    assert "a" in CollectTreePaths(t, "");
  }

  /** In general, the guard as written keeps every working directory that is itself an
      expected blob path, so a write of that blob meets a directory in its place. */
  lemma GuardAsWrittenKeepsExpectedDir(files: map<string, Bytes>, dirs: set<string>,
                                       expected: set<string>, d: string)
    requires d in dirs && d in expected
    ensures d in KeptDirsAsWritten(dirs, expected)
    ensures WriteConflict(files, KeptDirsAsWritten(dirs, expected), d)
  {
    assert HasExpectedUnderAsWritten(expected, d);
  }

  /** The corrected guard releases that directory, and the blob can then be written. */
  lemma GuardReleasesBlobPath()
    ensures !HasExpectedBeneath({"a"}, "a")
    ensures KeptDirs({"a"}, {"a"}) == {}
    ensures !WriteConflict(map[], KeptDirs({"a"}, {"a"}), "a")
  {
    assert Ancestors("a") == {};
  }

  /** The "/" in the guard: an expected `ab/x` keeps `ab` alive but not `a`. */
  lemma GuardNeedsSeparator()
    ensures !HasExpectedBeneath({"ab/x"}, "a") && HasExpectedBeneath({"ab/x"}, "ab")
    ensures !HasExpectedUnderAsWritten({"ab/x"}, "a")
  {
    assert "ab" + "/" <= "ab/x";
    assert !("a" + "/" <= "ab/x") by { assert "ab/x"[1] == 'b'; }
  }

  /** Reading back what was put: `parts` leads to the new blob, and every other path leads
      to a blob afterwards exactly when it led to one before, and to the same one. */
  lemma {:induction false} PutThenLookup(t: Tree, parts: seq<string>, b: Tree, other: seq<string>)
    requires b.Blob? && |parts| >= 1
    requires Put(t, parts, b).Some?
    ensures Lookup(Put(t, parts, b).value, parts) == Some(b)
    ensures other != parts ==>
      var n, o := Lookup(Put(t, parts, b).value, other), Lookup(t, other);
      && (n.Some? && n.value.Blob? <==> o.Some? && o.value.Blob?)
      && (o.Some? && o.value.Blob? ==> n == o)
    decreases |parts|
  {
    var m := t.entries;
    var name := parts[0];
    var u := Put(t, parts, b).value;
    if |parts| == 1 {
      assert u == Dir(m[name := b]);
      if other != [] && other != parts {
        if other[0] != name {
          assert other[0] in u.entries <==> other[0] in m;
          if other[0] in m {
            assert u.entries[other[0]] == m[other[0]];
          }
        } else {
          assert other == [other[0]] + other[1..];
          assert other[1..] != [];
        }
      }
    } else {
      var sub := if name in m then m[name] else Dir(map[]);
      PutThenLookup(sub, parts[1..], b, []);
      var sub' := Put(sub, parts[1..], b).value;
      assert u == Dir(m[name := sub']);
      assert parts == [name] + parts[1..];
      if other != [] && other != parts {
        if other[0] != name {
          assert other[0] in u.entries <==> other[0] in m;
          if other[0] in m {
            assert u.entries[other[0]] == m[other[0]];
          }
        } else {
          assert other == [other[0]] + other[1..];
          PutThenLookup(sub, parts[1..], b, other[1..]);
          if name !in m && other[1..] != [] {
            assert Lookup(sub, other[1..]) == None;
          }
        }
      }
    }
  }

  /** Putting blob `b` at `path`: `path` becomes a blob path holding `b`, and every other
      path is a blob path afterwards exactly when it was one before, with the same blob. */
  lemma PutBlobPaths(t: Tree, path: string, b: Tree, p: string)
    requires b.Blob? && Put(t, Split(path), b).Some?
    ensures var u := Put(t, Split(path), b).value;
      && (IsBlobAt(u, p) <==> p == path || IsBlobAt(t, p))
      && (IsBlobAt(u, p) ==> BlobAt(u, p) == if p == path then b else BlobAt(t, p))
  {
    PutThenLookup(t, Split(path), b, Split(p));
    if Split(p) == Split(path) {
      JoinSplit(p);
      JoinSplit(path);
    }
  }

  // ---------------------------------------------------------------------------
  // The working tree during checkout

  /** The directories `path.parent.mkdir(parents=True)` creates for the file at `p`:
      every proper "/"-prefix of `p`. */
  function Ancestors(p: string): set<string>
  {
    set i | 0 < i < |p| && p[i] == '/' :: p[..i]
  }

  lemma AncestorsExact(d: string, p: string)
    ensures d in Ancestors(p) <==> IsAncestor(d, p)
  {
    if IsAncestor(d, p) {
      assert p[..|d|] == d && p[|d|] == '/' by { assert (d + "/")[|d|] == '/'; }
    }
    if d in Ancestors(p) {
      var i :| 0 < i < |p| && p[i] == '/' && p[..i] == d;
      assert d + "/" == p[..i + 1];
    }
  }

  /** A directory above a path inside `.git` is `.git` or lies inside it. */
  lemma {:induction false} AboveGitIsGit(d: string, e: string)
    requires d + "/" <= e && InGit(e)
    ensures InGit(d)
  {
    var dd := d + "/";
    assert dd[|d|] == '/' && e[|d|] == '/';
    if |d| == 4 {
      assert d == e[..4] && e[..4] == ".git";
    } else if |d| > 4 {
      assert e[..5] == ".git/" && d[..5] == e[..5];
    }
  }

  /** A path below `.git` is in `.git`. */
  lemma BelowGitIsGit(d: string, p: string)
    requires IsAncestor(d, p) && InGit(d)
    ensures InGit(p)
  {
    if d == ".git" {
      assert ".git/" <= p;
    } else {
      assert ".git/" <= d && d <= p;
    }
  }

  /** Whether a directory of the working tree survives checkout's directory pass
      (the corrected guard). */
  predicate KeepDir(expected: set<string>, d: string)
  {
    InGit(d) || HasExpectedBeneath(expected, d)
  }

  /** A directory below one the pass removes is removed too (`shutil.rmtree`). */
  lemma RemovedBelowRemoved(expected: set<string>, d: string, e: string)
    requires !KeepDir(expected, d) && d + "/" <= e
    ensures !KeepDir(expected, e)
  {
    if InGit(e) {
      AboveGitIsGit(d, e);
    }
  }

  /** The files that survive checkout's first pass: those inside `.git` and the expected ones. */
  function KeptFiles(files: map<string, Bytes>, expected: set<string>): (r: map<string, Bytes>)
    ensures forall p :: p in r <==> p in files && (InGit(p) || p in expected)
    ensures forall p | p in r :: r[p] == files[p]
  {
    map p | p in files && (InGit(p) || p in expected) :: files[p]
  }

  /** The directories that survive the directory pass. */
  function KeptDirs(dirs: set<string>, expected: set<string>): (r: set<string>)
    ensures forall d :: d in r <==> d in dirs && KeepDir(expected, d)
  {
    set d | d in dirs && KeepDir(expected, d)
  }

  /** The same pass with the guard as written. */
  function KeptDirsAsWritten(dirs: set<string>, expected: set<string>): (r: set<string>)
    ensures forall d :: d in r <==> d in dirs && (InGit(d) || HasExpectedUnderAsWritten(expected, d))
  {
    set d | d in dirs && (InGit(d) || HasExpectedUnderAsWritten(expected, d))
  }

  /** Writing the blob at `p` fails: `p` is a directory (IsADirectoryError), or a file
      stands where one of its parent directories must be (FileExistsError). */
  predicate WriteConflict(files: map<string, Bytes>, dirs: set<string>, p: string)
  {
    p in dirs || exists a | a in Ancestors(p) :: a in files
  }

  /** The files checkout writes: each expected blob outside `.git`, with its bytes. */
  function WrittenFiles(t: Tree, expected: set<string>): (r: map<string, Bytes>)
    requires forall p | p in expected :: IsBlobAt(t, p)
    ensures forall p :: p in r <==> p in expected && !InGit(p)
    ensures forall p | p in r :: r[p] == BlobAt(t, p).data
  {
    map p | p in expected && !InGit(p) :: BlobAt(t, p).data
  }

  /** The directories checkout creates: the parents of the files it writes. */
  function CreatedDirs(expected: set<string>): (r: set<string>)
    ensures forall d :: d in r <==> exists p | p in expected && !InGit(p) :: d in Ancestors(p)
  {
    set p, d | p in expected && !InGit(p) && d in Ancestors(p) :: d
  }

  /** The working tree once checkout's pass 3 is over: every file outside `.git` is
      expected, and every directory is one the pass keeps. */
  ghost predicate Cleared(files: map<string, Bytes>, dirs: set<string>, expected: set<string>)
  {
    && (forall q | q in files :: InGit(q) || q in expected)
    && (forall d | d in dirs :: KeepDir(expected, d))
  }

  /** In a cleared working tree no expected blob outside `.git` meets a conflict, and
      writing it leaves the tree cleared. */
  lemma {:induction false} NoWriteConflict(t: Tree, files: map<string, Bytes>, dirs: set<string>, p: string, data: Bytes)
    requires t.Dir? && WellFormed(t)
    requires Cleared(files, dirs, CollectTreePaths(t, ""))
    requires p in CollectTreePaths(t, "") && !InGit(p)
    ensures !WriteConflict(files, dirs, p)
    ensures Cleared(files[p := data], dirs + Ancestors(p), CollectTreePaths(t, ""))
  {
    var expected := CollectTreePaths(t, "");
    if p in dirs {
      var q :| q in expected && p + "/" <= q;
      CollectedPathsArePrefixFree(t, p, q);
    }
    if a :| a in Ancestors(p) && a in files {
      AncestorsExact(a, p);
      if InGit(a) {
        BelowGitIsGit(a, p);
      } else {
        CollectedPathsArePrefixFree(t, a, p);
      }
    }
    forall d | d in Ancestors(p) ensures KeepDir(expected, d) {
      AncestorsExact(d, p);
    }
  }

  /** `collect_tree_paths(tree)` on a commit's root tree, with what makes each path readable. */
  function Expected(t: Tree): (r: set<string>)
    requires t.Dir? && WellFormed(t)
    ensures forall p | p in r :: IsBlobAt(t, p)
  {
    forall p | p in CollectTreePaths(t, "") ensures IsBlobAt(t, p) {
      CollectTreePathsExact(t, p);
    }
    CollectTreePaths(t, "")
  }

  /** A path the model writes to: outside `.git`, with no "/" segment empty, "." or "..". */
  predicate PlainPath(p: string)
  {
    !InGit(p) && forall i :: 0 <= i < |Split(p)| ==> Split(p)[i] !in {"", ".", ".."}
  }

  /** Putting a blob under well-formed names keeps a tree well formed and non-empty. */
  lemma {:induction false} PutWellFormed(t: Tree, parts: seq<string>, b: Tree)
    requires b.Blob? && |parts| >= 1 && WellFormed(t)
    requires forall i :: 0 <= i < |parts| ==> parts[i] != "" && '/' !in parts[i]
    requires Put(t, parts, b).Some?
    ensures var u := Put(t, parts, b).value; u.Dir? && u.entries != map[] && WellFormed(u)
    decreases |parts|
  {
    var m := t.entries;
    var name := parts[0];
    if |parts| > 1 {
      var sub := if name in m then m[name] else Dir(map[]);
      assert forall i :: 0 <= i < |parts[1..]| ==> parts[1..][i] == parts[i + 1];
      PutWellFormed(sub, parts[1..], b);
      var sub' := Put(sub, parts[1..], b).value;
      assert Put(t, parts, b).value == Dir(m[name := sub']);
      assert name != "" && '/' !in name;
      var m' := m[name := sub'];
      assert forall n | n in m' :: n != "" && '/' !in n && (m'[n].Dir? ==> m'[n].entries != map[]) && WellFormed(m'[n]);
    } else {
      assert name != "" && '/' !in name;
      var m' := m[name := b];
      assert forall n | n in m' :: n != "" && '/' !in n && (m'[n].Dir? ==> m'[n].entries != map[]) && WellFormed(m'[n]);
    }
  }

  /** What checkout leaves of the files: inside `.git` the old files untouched; outside
      it exactly the blob paths of the tree, each holding its blob's bytes. */
  lemma CheckoutFilesExact(t: Tree, files: map<string, Bytes>, p: string)
    requires t.Dir? && WellFormed(t)
    ensures var r := KeptFiles(files, Expected(t)) + WrittenFiles(t, Expected(t));
      && (!InGit(p) ==> (p in r <==> IsBlobAt(t, p)) && (p in r ==> r[p] == BlobAt(t, p).data))
      && (InGit(p) ==> (p in r <==> p in files) && (p in r ==> r[p] == files[p]))
  {
    CollectTreePathsExact(t, p);
  }

  /** What checkout leaves of the directories: inside `.git` the old ones; outside it
      exactly the parent directories of the tree's blobs, none of them at a blob path. */
  lemma {:induction false} CheckoutDirsExact(t: Tree, dirs: set<string>, d: string)
    requires t.Dir? && WellFormed(t)
    ensures var r := KeptDirs(dirs, Expected(t)) + CreatedDirs(Expected(t));
      && (!InGit(d) ==> (d in r <==> d in CreatedDirs(Expected(t))))
      && (InGit(d) ==> (d in r <==> d in dirs))
      && (d in Expected(t) && !InGit(d) ==> d !in r)
  {
    var expected := Expected(t);
    if !InGit(d) && d in KeptDirs(dirs, expected) {
      var q :| q in expected && d + "/" <= q;
      if InGit(q) {
        AboveGitIsGit(d, q);
      }
      AncestorsExact(d, q);
    }
    if InGit(d) && d in CreatedDirs(expected) {
      var q :| q in expected && !InGit(q) && d in Ancestors(q);
      AncestorsExact(d, q);
      BelowGitIsGit(d, q);
    }
    if d in expected && !InGit(d) {
      if d in KeptDirs(dirs, expected) {
        KeptDirIsNotExpected(t, d);
      }
      if d in CreatedDirs(expected) {
        var q :| q in expected && !InGit(q) && d in Ancestors(q);
        AncestorsExact(d, q);
        CollectedPathsArePrefixFree(t, d, q);
      }
    }
  }

  /** A commit id as dulwich writes it: forty lower-case hexadecimal digits. */
  predicate IsObjectId(s: string)
  {
    |s| == 40 && forall i :: 0 <= i < |s| ==> HexAt(s, i)
  }

  /** The character at `i` is a lower-case hexadecimal digit. */
  predicate HexAt(s: string, i: int)
    requires 0 <= i < |s|
  {
    '0' <= s[i] <= '9' || 'a' <= s[i] <= 'f'
  }

  /** A plain path neither starts nor ends with "/" and is not empty, so stripping "/"
      leaves it as it is. */
  lemma PlainPathEnds(p: string)
    requires PlainPath(p)
    ensures p != "" && p[0] != '/' && p[|p| - 1] != '/'
    ensures Strip(p, {'/'}) == p
  {
    assert Split(p)[0] != "";
    LastSegmentIsSuffix(p);
    StripClean(p, {'/'});
  }
}
