/** `TrueGit`: a git repository as in-memory state. The ref table, the text of the HEAD
    file, the commit store, the working tree and the index are fields that the
    operations update in place. */
module TrueGit {
  import opened Text
  import opened GitTree
  import opened TextMode

  /** What the source raises. */
  datatype Error =
    | NoSuchBranch(branch: string)        // ValueError: refs/heads/<branch> is absent
    | HeadUnresolved                      // HEAD names no commit to branch from
    | PathMissing(path: string)           // KeyError/TypeError while following a path
    | NotABlob(path: string)              // the path names a tree, not a file
    | PathConflict(path: string)          // OSError: a file or directory stands in the way
    | Incomplete(remaining: set<string>)  // RuntimeError: unexpected files survived checkout
    | UnsupportedPath(path: string)       // a path with an empty, "." or ".." segment, or in `.git`
    | NoSuchDirectory(path: string)       // ValueError from `ls`: the directory is missing
    | DecodeError(path: string)           // UnicodeDecodeError: the file's bytes are not UTF-8

  datatype Status = Done | Raised(error: Error)

  datatype Result<T> = Ok(value: T) | Err(error: Error)

  /** An index entry: blob size and blob id (the stat fields are all zero in the source). */
  datatype IndexEntry = IndexEntry(size: nat, sha: Sha)

  function RefName(branch: string): string
  {
    "refs/heads/" + branch
  }

  /** The text checkout writes into HEAD. */
  function HeadText(branch: string): string
  {
    "ref: " + RefName(branch) + "\n"
  }

  /** `current_branch` on the HEAD file's text (None: the file is missing). */
  function CurrentBranchOf(head: Option<string>): string
  {
    match head
    case None => "HEAD"
    case Some(text) =>
      var content := Strip(text, Whitespace);
      if "ref:" <= content then LastSegment(content) else "HEAD"
  }

  /** The ref HEAD points at, when HEAD is symbolic. */
  function HeadRefOf(head: Option<string>): Option<string>
  {
    match head
    case None => None
    case Some(text) =>
      var content := Strip(text, Whitespace);
      if "ref: " <= content then Some(content[5..]) else None
  }

  /** The commit HEAD designates: the one its branch ref names, or a detached id. */
  function HeadCommitOf(refs: map<string, Sha>, head: Option<string>, store: map<Sha, Tree>): Option<Sha>
  {
    var content := if head.None? then "" else Strip(head.value, Whitespace);
    match HeadRefOf(head)
    case Some(r) => if r in refs then Some(refs[r]) else None
    case None => if content in store then Some(content) else None
  }

  /** The commit the working tree belongs to for a given branch argument (`branch or
      current_branch()`), or the ValueError raised when its ref is absent. */
  function BranchCommit(refs: map<string, Sha>, head: Option<string>, branch: Option<string>): (r: Result<Sha>)
    ensures var b := if branch.None? || branch.value == "" then CurrentBranchOf(head) else branch.value;
      (r.Ok? <==> RefName(b) in refs) && (r.Ok? ==> r.value == refs[RefName(b)])
      && (r.Err? ==> r.error == NoSuchBranch(b))
  {
    var b := if branch.None? || branch.value == "" then CurrentBranchOf(head) else branch.value;
    if RefName(b) in refs then Ok(refs[RefName(b)]) else Err(NoSuchBranch(b))
  }

  /** `TrueGit.read` on a tree: strips "/" from both ends, splits, and follows the
      segments; the bytes of the blob reached, or the error raised. */
  function ReadTree(t: Tree, filepath: string): (r: Result<Bytes>)
  {
    ReadPath(t, Strip(filepath, {'/'}))
  }

  /** Following the segments of a path already stripped of "/". */
  function ReadPath(t: Tree, path: string): Result<Bytes>
  {
    match Lookup(t, Split(path))
    case None => Err(PathMissing(path))
    case Some(Blob(_, data)) => Ok(data)
    case Some(Dir(_)) => Err(NotABlob(path))
  }

  /** After checkout writes HEAD for `b`, `current_branch` returns the last "/" segment of
      `b` with its trailing whitespace stripped. */
  lemma CurrentBranchAfterCheckout(b: string)
    ensures CurrentBranchOf(Some(HeadText(b))) == LastSegment(TrimEnd(b, Whitespace))
  {
    StripHeadText(b);
    var tb := TrimEnd(b, Whitespace);
    var x, y := "ref: ", "refs/heads/";
    assert x + (y + tb) == (x + y) + tb;
    assert (x + (y + tb))[|x|..] == y + tb;
    assert "ref:" <= x;
    LastSegmentAfterSeparator(x + y, tb);
  }

  /** A HEAD text rewritten by checkout names `b` again exactly when `b` contains no "/"
      and does not end in whitespace; for `feature/x` it names `x`. */
  lemma CurrentBranchRoundTrip(b: string)
    ensures CurrentBranchOf(Some(HeadText(b))) == b <==> CleanBranch(b)
  {
    CurrentBranchAfterCheckout(b);
    TrimmedLastSegment(b, Whitespace);
  }

  /** The last segment of `b` with trailing `cs` removed is `b` itself exactly when `b`
      has no separator and does not end in `cs`. */
  lemma TrimmedLastSegment(b: string, cs: set<char>)
    ensures LastSegment(TrimEnd(b, cs)) == b <==> '/' !in b && (b == [] || b[|b| - 1] !in cs)
  {
    var tb := TrimEnd(b, cs);
    LastSegmentIsSuffix(tb);
    LastSegmentFixed(tb);
    if b == [] || b[|b| - 1] !in cs {
      assert tb == b;
    }
  }

  lemma LastSegmentAfterSeparator(a: string, b: string)
    requires a != [] && a[|a| - 1] == '/'
    ensures LastSegment(a + b) == LastSegment(b)
  {
    assert a + b == a[..|a| - 1] + "/" + b;
    LastSegmentBehindSlash(a[..|a| - 1], b);
  }

  lemma StripHeadText(b: string)
    ensures Strip(HeadText(b), Whitespace) == "ref: " + RefName(TrimEnd(b, Whitespace))
  {
    var x, y := "ref: ", "refs/heads/";
    var tb := TrimEnd(b, Whitespace);
    assert (x + y)[0] == x[0] == 'r';
    assert (x + y)[|x + y| - 1] == y[|y| - 1] == '/';
    assert HeadText(b) == (x + y) + b + ['\n'] by {
      assert x + (y + b) == (x + y) + b;
    }
    StripBetween(x + y, b, '\n', Whitespace);
    assert x + (y + tb) == (x + y) + tb;
  }

  /** Stripping `a + b + [c]` where `a` starts and ends outside `cs` and `c` is in it. */
  lemma StripBetween(a: string, b: string, c: char, cs: set<char>)
    requires a != [] && a[0] !in cs && a[|a| - 1] !in cs && c in cs
    ensures Strip(a + b + [c], cs) == a + TrimEnd(b, cs)
  {
    var s := a + b + [c];
    assert s[0] == a[0];
    assert TrimStart(s, cs) == s;
    assert s[..|s| - 1] == a + b;
    assert TrimEnd(s, cs) == TrimEnd(a + b, cs);
    TrimEndBehindPrefix(a, b, cs);
  }

  /** Trailing characters are stripped after a prefix that does not end in one of them. */
  lemma {:induction false} TrimEndBehindPrefix(a: string, b: string, cs: set<char>)
    requires a != [] && a[|a| - 1] !in cs
    ensures TrimEnd(a + b, cs) == a + TrimEnd(b, cs)
  {
    if b != [] && b[|b| - 1] in cs {
      assert (a + b)[..|a + b| - 1] == a + b[..|b| - 1];
      TrimEndBehindPrefix(a, b[..|b| - 1], cs);
    } else if b == [] {
      assert a + b == a;
    }
  }

  /** `read` succeeds exactly on the paths `collect_tree_paths` lists (once stripped of
      "/"), with the bytes of that blob; otherwise it raises on the stripped path. */
  lemma ReadTreeAgreesWithPaths(t: Tree, filepath: string)
    requires t.Dir? && WellFormed(t)
    ensures var path := Strip(filepath, {'/'});
      && (ReadTree(t, filepath).Ok? <==> path in Expected(t))
      && (ReadTree(t, filepath).Ok? ==> ReadTree(t, filepath).value == BlobAt(t, path).data)
      && (ReadTree(t, filepath).Err? ==> ReadTree(t, filepath).error in {PathMissing(path), NotABlob(path)})
  {
    CollectTreePathsExact(t, Strip(filepath, {'/'}));
  }

  lemma LastSegmentBehindSlash(a: string, b: string)
    ensures LastSegment(a + "/" + b) == LastSegment(b)
  {
    SplitAppend(a, b);
  }

  /** The index `add_tree_to_index` builds: one entry per blob path, with the blob's
      length and id. */
  function IndexOf(t: Tree, paths: set<string>): (r: map<string, IndexEntry>)
    requires forall p | p in paths :: IsBlobAt(t, p)
    ensures forall p :: p in r <==> p in paths
    ensures forall p | p in r :: r[p] == IndexEntry(|BlobAt(t, p).data|, BlobAt(t, p).sha)
  {
    map p | p in paths :: IndexEntry(|BlobAt(t, p).data|, BlobAt(t, p).sha)
  }

  /** The tree of a commit made by putting `blob` at a plain path: a well-formed tree, in
      which `read` of that path gives the blob's bytes. */
  lemma CommittedTreeReads(base: Tree, path: string, blob: Tree)
    requires base.Dir? && WellFormed(base) && PlainPath(path) && blob.Blob?
    requires Put(base, Split(path), blob).Some?
    ensures var t := Put(base, Split(path), blob).value;
      t.Dir? && WellFormed(t) && ReadTree(t, path) == Ok(blob.data)
  {
    SplitPiecesHaveNoSlash(path);
    PutWellFormed(base, Split(path), blob);
    PutThenLookup(base, Split(path), blob, []);
    PlainPathEnds(path);
    StripClean(path, {'/'});
  }

  /** A detached HEAD holding an object id is no symbolic ref, and designates that id. */
  lemma ObjectIdHead(refs: map<string, Sha>, c: string, store: map<Sha, Tree>)
    requires IsObjectId(c)
    ensures HeadRefOf(Some(c)) == None
    ensures HeadCommitOf(refs, Some(c), store) == if c in store then Some(c) else None
  {
    assert HexAt(c, 0) && HexAt(c, 39);
    StripClean(c, Whitespace);
  }

  /** Every ref names a stored commit, and every stored commit's root tree is a
      well-formed tree. */
  ghost predicate ValidRepo(refs: map<string, Sha>, store: map<Sha, Tree>)
  {
    && (forall r | r in refs :: refs[r] in store)
    && (forall c | c in store :: store[c].Dir? && WellFormed(store[c]))
  }

  /** Recording a new commit with a well-formed tree, and moving the ref HEAD names to it. */
  lemma ValidAfterCommit(refs: map<string, Sha>, head: Option<string>, store: map<Sha, Tree>, c: Sha, t: Tree)
    requires ValidRepo(refs, store) && t.Dir? && WellFormed(t)
    ensures ValidRepo(CommitRefs(refs, head, c), store[c := t])
  {
    match HeadRefOf(head)
    case Some(rn) =>
      assert CommitRefs(refs, head, c) == refs[rn := c];
    case None =>
  }

  /** The refs after a commit `c`: the ref HEAD names now points at `c`. */
  function CommitRefs(refs: map<string, Sha>, head: Option<string>, c: Sha): map<string, Sha>
  {
    match HeadRefOf(head)
    case Some(rn) => refs[rn := c]
    case None => refs
  }

  /** HEAD after a commit `c`: unchanged when symbolic, `c` when detached. */
  function CommitHead(head: Option<string>, c: Sha): Option<string>
  {
    if HeadRefOf(head).Some? then head else Some(c)
  }

  /** After a commit, HEAD designates it, and only the ref HEAD names has moved. */
  lemma CommitMovesHead(refs: map<string, Sha>, head: Option<string>, store: map<Sha, Tree>, c: Sha, t: Tree)
    requires IsObjectId(c)
    ensures var refs', head', store' := CommitRefs(refs, head, c), CommitHead(head, c), store[c := t];
      && HeadCommitOf(refs', head', store') == Some(c)
      && HeadRefOf(head') == HeadRefOf(head)
      && forall rn | rn in refs && Some(rn) != HeadRefOf(head) :: rn in refs' && refs'[rn] == refs[rn]
  {
    if HeadRefOf(head).Some? {
      SymbolicHeadCommit(refs, head, store[c := t], c);
    } else {
      ObjectIdHead(refs, c, store[c := t]);
    }
  }

  /** A symbolic HEAD designates whatever its ref is moved to. */
  lemma SymbolicHeadCommit(refs: map<string, Sha>, head: Option<string>, store: map<Sha, Tree>, c: Sha)
    requires HeadRefOf(head).Some?
    ensures HeadCommitOf(refs[HeadRefOf(head).value := c], head, store) == Some(c)
  {
  }

  /** `read` strips "/" itself, so reading a path already stripped is reading the path. */
  lemma ReadTreeStripped(t: Tree, filepath: string)
    ensures ReadTree(t, filepath) == ReadTree(t, Strip(filepath, {'/'}))
  {
    StripClean(Strip(filepath, {'/'}), {'/'});
  }

  /** A branch name that `current_branch` reports unchanged after checking it out. */
  predicate CleanBranch(b: string)
  {
    '/' !in b && (b == [] || b[|b| - 1] !in Whitespace)
  }

  /** After checkout HEAD is symbolic and names the branch's ref (trailing whitespace dropped). */
  lemma HeadRefAfterCheckout(b: string)
    ensures HeadRefOf(Some(HeadText(b))) == Some(RefName(TrimEnd(b, Whitespace)))
  {
    StripHeadText(b);
    var tb := TrimEnd(b, Whitespace);
    assert ("ref: " + RefName(tb))[|"ref: "|..] == RefName(tb);
  }

  /** The working tree and index checkout leaves behind for tree `t`, from the files and
      directories it started with. */
  ghost predicate CheckedOut(t: Tree, files0: map<string, Bytes>, dirs0: set<string>,
                             files: map<string, Bytes>, dirs: set<string>, index: map<string, IndexEntry>)
  {
    t.Dir? && WellFormed(t)
    && files == KeptFiles(files0, Expected(t)) + WrittenFiles(t, Expected(t))
    && dirs == KeptDirs(dirs0, Expected(t)) + CreatedDirs(Expected(t))
    && index == IndexOf(t, Expected(t))
  }

  /** The working files checkout of tree `t` leaves behind from files `files0`. */
  function CheckoutFiles(t: Tree, files0: map<string, Bytes>): map<string, Bytes>
    requires t.Dir? && WellFormed(t)
  {
    KeptFiles(files0, Expected(t)) + WrittenFiles(t, Expected(t))
  }

  /** The working directories checkout of tree `t` leaves behind from directories `dirs0`. */
  function CheckoutDirs(t: Tree, dirs0: set<string>): set<string>
    requires t.Dir? && WellFormed(t)
  {
    KeptDirs(dirs0, Expected(t)) + CreatedDirs(Expected(t))
  }

  /** `current_branch()` always gives a name that checking it out gives back. */
  lemma CurrentBranchIsClean(head: Option<string>)
    ensures CleanBranch(CurrentBranchOf(head))
  {
    if head.Some? {
      var content := Strip(head.value, Whitespace);
      assert content == [] || content[|content| - 1] !in Whitespace;
      if "ref:" <= content {
        LastSegmentClean(content);
        assert CurrentBranchOf(head) == LastSegment(content);
        return;
      }
    }
    assert CurrentBranchOf(head) == "HEAD";
  }

  /** The last segment of a string that does not end in whitespace is a clean branch name. */
  lemma LastSegmentClean(s: string)
    requires s == [] || s[|s| - 1] !in Whitespace
    ensures CleanBranch(LastSegment(s))
  {
    var seg := LastSegment(s);
    LastSegmentIsSuffix(s);
    if seg != [] {
      assert seg[|seg| - 1] == s[|s| - 1];
    }
  }

  /** Outside `.git`, the files checkout leaves are exactly the blobs of the tree, with
      their bytes, and no directory stands at a blob path. */
  lemma CheckedOutFile(t: Tree, files0: map<string, Bytes>, dirs0: set<string>,
                       files: map<string, Bytes>, dirs: set<string>, index: map<string, IndexEntry>, p: string)
    requires CheckedOut(t, files0, dirs0, files, dirs, index) && !InGit(p)
    ensures p in files <==> p in Expected(t)
    ensures p in files ==> files[p] == BlobAt(t, p).data
    ensures p in dirs ==> p !in Expected(t)
  {
    var e := Expected(t);
    if p in dirs {
      if p !in KeptDirs(dirs0, e) {
        var q :| q in e && !InGit(q) && p in Ancestors(q);
        AncestorsExact(p, q);
      }
      assert HasExpectedBeneath(e, p);
      KeptDirIsNotExpected(t, p);
    }
  }

  /** Adding one expected path to the written files. */
  lemma WrittenStep(t: Tree, base: map<string, Bytes>, done: set<string>, p: string)
    requires forall q | q in done + {p} :: IsBlobAt(t, q)
    ensures InGit(p) ==> base + WrittenFiles(t, done + {p}) == base + WrittenFiles(t, done)
    ensures !InGit(p) ==>
      base + WrittenFiles(t, done + {p}) == (base + WrittenFiles(t, done))[p := BlobAt(t, p).data]
  {
  }

  /** Adding one expected path to the created directories. */
  lemma CreatedStep(base: set<string>, done: set<string>, p: string)
    ensures InGit(p) ==> base + CreatedDirs(done + {p}) == base + CreatedDirs(done)
    ensures !InGit(p) ==> base + CreatedDirs(done + {p}) == base + CreatedDirs(done) + Ancestors(p)
  {
  }

  // ---------------------------------------------------------------------------
  // write, on the repository's state as a value

  /** The repository's state: the refs, the HEAD file, the commit store, the working files
      and directories, and the index. */
  datatype State = State(refs: map<string, Sha>, head: Option<string>, store: map<Sha, Tree>,
                         files: map<string, Bytes>, dirs: set<string>, index: map<string, IndexEntry>)

  /** The tree the next commit starts from: that of the commit HEAD designates, the empty
      tree on an unborn branch, None when HEAD designates nothing. */
  function CommitBaseOf(refs: map<string, Sha>, head: Option<string>, store: map<Sha, Tree>): (r: Option<Tree>)
    requires ValidRepo(refs, store)
    ensures r.Some? ==> r.value.Dir? && WellFormed(r.value)
    ensures r.None? <==> HeadRefOf(head).None? && HeadCommitOf(refs, head, store).None?
    ensures HeadCommitOf(refs, head, store).Some? ==> r == Some(store[HeadCommitOf(refs, head, store).value])
    ensures HeadRefOf(head).Some? && HeadCommitOf(refs, head, store).None? ==> r == Some(Dir(map[]))
  {
    match HeadRefOf(head)
    case Some(rn) => Some(if rn in refs then store[refs[rn]] else Dir(map[]))
    case None =>
      var content := if head.None? then "" else Strip(head.value, Whitespace);
      if content in store then Some(store[content]) else None
  }

  /** The tree of the next commit: the base tree with `blob` put at `path`; None when there
      is no base, or a blob stands where a directory of `path` goes, or a directory where
      the blob goes. */
  function NextTreeOf(refs: map<string, Sha>, head: Option<string>, store: map<Sha, Tree>, path: string, blob: Tree): (r: Option<Tree>)
    requires ValidRepo(refs, store) && PlainPath(path) && blob.Blob?
    ensures r.Some? ==> r.value.Dir? && WellFormed(r.value)
  {
    match CommitBaseOf(refs, head, store)
    case None => None
    case Some(base) =>
      var t := Put(base, Split(path), blob);
      if t.Some? then SplitPiecesHaveNoSlash(path); PutWellFormed(base, Split(path), blob); t else None
  }

  /** `write_text`, `porcelain.add` and `porcelain.commit` of `data` at `path` (already
      stripped of "/"): the error raised, or the id of the new commit. */
  function CommitResult(s: State, path: string, data: Bytes, blobSha: Sha, c: Sha): Result<Sha>
    requires ValidRepo(s.refs, s.store)
  {
    if !PlainPath(path) then Err(UnsupportedPath(path))
    else if WriteConflict(s.files, s.dirs, path) then Err(PathConflict(path))
    else if CommitBaseOf(s.refs, s.head, s.store).None? then Err(HeadUnresolved)
    else if NextTreeOf(s.refs, s.head, s.store, path, Blob(blobSha, data)).None? then Err(PathConflict(path))
    else Ok(c)
  }

  /** The state the same steps leave: the file written and staged once nothing stands in
      its way, and the commit recorded when it could be made. */
  function CommitState(s: State, path: string, data: Bytes, blobSha: Sha, c: Sha): (r: State)
    requires ValidRepo(s.refs, s.store)
    ensures ValidRepo(r.refs, r.store)
  {
    if !PlainPath(path) || WriteConflict(s.files, s.dirs, path) then s
    else
      var staged := s.(files := s.files[path := data], dirs := s.dirs + Ancestors(path),
                       index := s.index[path := IndexEntry(|data|, blobSha)]);
      match NextTreeOf(s.refs, s.head, s.store, path, Blob(blobSha, data))
      case None => staged
      case Some(t) =>
        ValidAfterCommit(s.refs, s.head, s.store, c, t);
        staged.(store := s.store[c := t], refs := CommitRefs(s.refs, s.head, c), head := CommitHead(s.head, c))
  }

  /** The branch handling of `write(..., branch=b)`: a missing branch is created from the
      commit HEAD designates, then checked out unless `current_branch()` already reports
      `b`; None when the branch is missing and HEAD designates no commit. */
  function SelectState(s: State, b: string): (r: Option<State>)
    requires ValidRepo(s.refs, s.store)
    ensures r.Some? ==> ValidRepo(r.value.refs, r.value.store) && r.value.store == s.store
  {
    var c := HeadCommitOf(s.refs, s.head, s.store);
    if RefName(b) !in s.refs && c.None? then None
    else
      var refs := if RefName(b) in s.refs then s.refs else s.refs[RefName(b) := c.value];
      if CurrentBranchOf(s.head) == b then Some(s.(refs := refs))
      else
        var t := s.store[refs[RefName(b)]];
        Some(s.(refs := refs, head := Some(HeadText(b)), files := CheckoutFiles(t, s.files),
                dirs := CheckoutDirs(t, s.dirs), index := IndexOf(t, Expected(t))))
  }

  /** The state `write` commits on: after the branch handling when a branch is given. */
  function Selected(s: State, branch: Option<string>): (r: Option<State>)
    requires ValidRepo(s.refs, s.store)
    ensures r.Some? ==> ValidRepo(r.value.refs, r.value.store) && r.value.store == s.store
  {
    if branch.None? then Some(s) else SelectState(s, branch.value)
  }

  /** What `write(filepath, content, branch)` returns or raises. */
  function WriteResult(s: State, filepath: string, data: Bytes, branch: Option<string>, blobSha: Sha, c: Sha): Result<Sha>
    requires ValidRepo(s.refs, s.store)
  {
    match Selected(s, branch)
    case None => Err(HeadUnresolved)
    case Some(s1) => CommitResult(s1, Strip(filepath, {'/'}), data, blobSha, c)
  }

  /** The state `write(filepath, content, branch)` leaves. */
  function WriteState(s: State, filepath: string, data: Bytes, branch: Option<string>, blobSha: Sha, c: Sha): (r: State)
    requires ValidRepo(s.refs, s.store)
    ensures ValidRepo(r.refs, r.store)
  {
    match Selected(s, branch)
    case None => s
    case Some(s1) => CommitState(s1, Strip(filepath, {'/'}), data, blobSha, c)
  }

  /** Committing a file: on success HEAD designates the new commit, whose tree reads back
      the bytes at `path`, the file and its index entry hold them, the store gains that one
      commit and only the ref HEAD names moves; on failure no commit, ref or HEAD changes. */
  lemma CommitOutcome(s: State, path: string, data: Bytes, blobSha: Sha, c: Sha)
    requires ValidRepo(s.refs, s.store) && IsObjectId(c) && c !in s.store
    ensures var r, s' := CommitResult(s, path, data, blobSha, c), CommitState(s, path, data, blobSha, c);
      && (r.Ok? ==>
            && r.value == c && HeadCommitOf(s'.refs, s'.head, s'.store) == Some(c)
            && PlainPath(path) && NextTreeOf(s.refs, s.head, s.store, path, Blob(blobSha, data)) == Some(s'.store[c])
            && ReadTree(s'.store[c], path) == Ok(data)
            && path in s'.files && s'.files[path] == data
            && path in s'.index && s'.index[path] == IndexEntry(|data|, blobSha)
            && s'.store == s.store[c := s'.store[c]]
            && (HeadRefOf(s.head).Some? ==> s'.head == s.head)
            && (HeadRefOf(s.head).Some? ==> HeadRefOf(s.head).value in s'.refs && s'.refs[HeadRefOf(s.head).value] == c))
      && (r.Err? ==>
            && r.error in {UnsupportedPath(path), PathConflict(path), HeadUnresolved}
            && s'.refs == s.refs && s'.head == s.head && s'.store == s.store)
      && HeadRefOf(s'.head) == HeadRefOf(s.head)
      && s.refs.Keys <= s'.refs.Keys
      && (forall rn | rn in s'.refs && Some(rn) != HeadRefOf(s.head) :: rn in s.refs && s'.refs[rn] == s.refs[rn])
  {
    var r := CommitResult(s, path, data, blobSha, c);
    if r.Ok? {
      var blob := Blob(blobSha, data);
      var base := CommitBaseOf(s.refs, s.head, s.store).value;
      CommittedTreeReads(base, path, blob);
      CommitMovesHead(s.refs, s.head, s.store, c, Put(base, Split(path), blob).value);
    }
  }


  /** A commit with HEAD on ref `rn` moves that ref, and only it, to the new commit. */
  lemma CommitOnRef(s: State, path: string, data: Bytes, blobSha: Sha, c: Sha, rn: string)
    requires ValidRepo(s.refs, s.store) && IsObjectId(c) && c !in s.store && HeadRefOf(s.head) == Some(rn)
    ensures CommitResult(s, path, data, blobSha, c).Ok? ==>
      CommitState(s, path, data, blobSha, c).refs == s.refs[rn := c]
  {
    var s' := CommitState(s, path, data, blobSha, c);
    CommitOutcome(s, path, data, blobSha, c);
    if CommitResult(s, path, data, blobSha, c).Ok? {
      assert s'.refs.Keys == (s.refs[rn := c]).Keys;
      forall k | k in s'.refs
        ensures s'.refs[k] == s.refs[rn := c][k]
      {
        if k != rn {
          assert Some(k) != HeadRefOf(s.head);
        }
      }
    }
  }


  /** The branch handling on its own: the branch exists afterwards; a name `current_branch()`
      does not report is checked out, otherwise HEAD and the working tree stay; the store is
      untouched, and the only ref that can appear is the branch's, holding the commit HEAD
      designates. */
  lemma SelectFacts(s: State, b: string)
    requires ValidRepo(s.refs, s.store)
    ensures var s1 := SelectState(s, b);
      && (s1.None? <==> RefName(b) !in s.refs && HeadCommitOf(s.refs, s.head, s.store).None?)
      && (s1.Some? ==>
            && RefName(b) in s1.value.refs && s1.value.store == s.store
            && (CurrentBranchOf(s.head) != b ==> s1.value.head == Some(HeadText(b)))
            && (CurrentBranchOf(s.head) == b ==>
                  s1.value.head == s.head && s1.value.files == s.files && s1.value.dirs == s.dirs && s1.value.index == s.index)
            && s.refs.Keys <= s1.value.refs.Keys
            && (forall rn | rn in s.refs :: s1.value.refs[rn] == s.refs[rn])
            && (forall rn | rn in s1.value.refs && rn !in s.refs ::
                  rn == RefName(b) && Some(s1.value.refs[rn]) == HeadCommitOf(s.refs, s.head, s.store)))
  {
  }

  /** `write` on success: HEAD designates the new commit, the stored commit reads back
      `data` at `filepath`, and the working file and the index entry hold it. */
  lemma WriteCommits(s: State, filepath: string, data: Bytes, branch: Option<string>, blobSha: Sha, c: Sha)
    requires ValidRepo(s.refs, s.store) && IsObjectId(c) && c !in s.store
    ensures var r, s' := WriteResult(s, filepath, data, branch, blobSha, c), WriteState(s, filepath, data, branch, blobSha, c);
      var path := Strip(filepath, {'/'});
      r.Ok? ==>
        && r.value == c && HeadCommitOf(s'.refs, s'.head, s'.store) == Some(c)
        && c in s'.store && ReadTree(s'.store[c], filepath) == Ok(data)
        && path in s'.files && s'.files[path] == data
        && path in s'.index && s'.index[path] == IndexEntry(|data|, blobSha)
  {
    var path := Strip(filepath, {'/'});
    var s1 := Selected(s, branch);
    if s1.Some? {
      var s2 := CommitState(s1.value, path, data, blobSha, c);
      assert WriteState(s, filepath, data, branch, blobSha, c) == s2;
      CommitOutcome(s1.value, path, data, blobSha, c);
      if CommitResult(s1.value, path, data, blobSha, c).Ok? {
        ReadTreeStripped(s2.store[c], filepath);
      }
    } else {
      assert WriteResult(s, filepath, data, branch, blobSha, c) == Err(HeadUnresolved);
    }
  }

  /** `write` with a branch: on success the branch exists; when `write` had to check it out
      HEAD names it, and for a clean name `current_branch()` reports it and `read` through
      it finds the new commit; otherwise a symbolic HEAD is left as it was. */
  lemma WriteOnBranch(s: State, filepath: string, data: Bytes, branch: Option<string>, blobSha: Sha, c: Sha)
    requires ValidRepo(s.refs, s.store) && IsObjectId(c) && c !in s.store
    ensures var r, s' := WriteResult(s, filepath, data, branch, blobSha, c), WriteState(s, filepath, data, branch, blobSha, c);
      && (r.Ok? && branch.Some? ==> RefName(branch.value) in s'.refs)
      && (r.Ok? && branch.Some? && CurrentBranchOf(s.head) != branch.value ==> s'.head == Some(HeadText(branch.value)))
      && (r.Ok? && (branch.None? || CurrentBranchOf(s.head) == branch.value) && HeadRefOf(s.head).Some? ==> s'.head == s.head)
      && (r.Ok? && branch.Some? && CleanBranch(branch.value) && CurrentBranchOf(s.head) != branch.value ==>
            CurrentBranchOf(s'.head) == branch.value && BranchCommit(s'.refs, s'.head, branch) == Ok(c))
  {
    var path := Strip(filepath, {'/'});
    var s1 := Selected(s, branch);
    if s1.Some? {
      var s2 := CommitState(s1.value, path, data, blobSha, c);
      assert WriteState(s, filepath, data, branch, blobSha, c) == s2;
      assert WriteResult(s, filepath, data, branch, blobSha, c) == CommitResult(s1.value, path, data, blobSha, c);
      if branch.Some? {
        SelectFacts(s, branch.value);
        if CurrentBranchOf(s.head) != branch.value {
          var b := branch.value;
          CommitOutcome(s1.value, path, data, blobSha, c);
          HeadRefAfterCheckout(b);
          if CleanBranch(b) && CommitResult(s1.value, path, data, blobSha, c).Ok? {
            CurrentBranchRoundTrip(b);
            assert TrimEnd(b, Whitespace) == b;
            assert HeadRefOf(s1.value.head) == Some(RefName(b));
            assert s2.head == Some(HeadText(b)) && s2.refs[RefName(b)] == c;
            BranchReadBack(s2.refs, s2.head, b, c);
          }
        } else {
          CommitOutcome(s1.value, path, data, blobSha, c);
        }
      } else {
        CommitOutcome(s1.value, path, data, blobSha, c);
      }
    } else {
      assert WriteResult(s, filepath, data, branch, blobSha, c) == Err(HeadUnresolved);
    }
  }

  /** A HEAD naming clean branch `b` whose ref holds `c`: `current_branch()` reports `b` and
      `log(b)` starts from `c`. */
  lemma BranchReadBack(refs: map<string, Sha>, head: Option<string>, b: string, c: Sha)
    requires head == Some(HeadText(b)) && CleanBranch(b) && RefName(b) in refs && refs[RefName(b)] == c
    ensures CurrentBranchOf(head) == b && BranchCommit(refs, head, Some(b)) == Ok(c)
  {
    CurrentBranchRoundTrip(b);
  }

  /** What `write` changes beyond the file: the store gains at most the new commit, no ref
      disappears, the only ref that can appear is the branch's, holding the commit HEAD
      designated unless it is the one HEAD names afterwards, and every other ref keeps its
      commit. */
  lemma WriteRefsAndStore(s: State, filepath: string, data: Bytes, branch: Option<string>, blobSha: Sha, c: Sha)
    requires ValidRepo(s.refs, s.store) && IsObjectId(c) && c !in s.store
    ensures var r, s' := WriteResult(s, filepath, data, branch, blobSha, c), WriteState(s, filepath, data, branch, blobSha, c);
      && (r.Ok? ==> s'.store == s.store[c := s'.store[c]])
      && (r.Err? ==> s'.store == s.store)
      && s.refs.Keys <= s'.refs.Keys
      && (forall rn | rn in s'.refs && rn !in s.refs && Some(rn) != HeadRefOf(s'.head) ::
            branch.Some? && rn == RefName(branch.value) && Some(s'.refs[rn]) == HeadCommitOf(s.refs, s.head, s.store))
      && (forall rn | rn in s.refs && Some(rn) != HeadRefOf(s'.head) :: rn in s'.refs && s'.refs[rn] == s.refs[rn])
  {
    var path := Strip(filepath, {'/'});
    var s1 := Selected(s, branch);
    if s1.Some? {
      var s2 := CommitState(s1.value, path, data, blobSha, c);
      assert WriteState(s, filepath, data, branch, blobSha, c) == s2;
      assert WriteResult(s, filepath, data, branch, blobSha, c) == CommitResult(s1.value, path, data, blobSha, c);
      var t1 := s1.value;
      CommitOutcome(t1, path, data, blobSha, c);
      if branch.Some? {
        SelectFacts(s, branch.value);
      }
      assert HeadRefOf(s2.head) == HeadRefOf(t1.head);
      assert s.refs.Keys <= t1.refs.Keys;
      forall rn | rn in s2.refs && rn !in s.refs && Some(rn) != HeadRefOf(s2.head)
        ensures branch.Some? && rn == RefName(branch.value) && Some(s2.refs[rn]) == HeadCommitOf(s.refs, s.head, s.store)
      {
        assert rn in t1.refs && s2.refs[rn] == t1.refs[rn];
      }
      forall rn | rn in s.refs && Some(rn) != HeadRefOf(s2.head) ensures rn in s2.refs && s2.refs[rn] == s.refs[rn] {
        assert rn in t1.refs && t1.refs[rn] == s.refs[rn];
      }
    } else {
      assert WriteState(s, filepath, data, branch, blobSha, c) == s;
    }
  }

  /** The errors `write` raises; a branch that is missing while HEAD designates no commit
      raises before anything changes, and a path the model does not write always fails. */
  lemma WriteErrors(s: State, filepath: string, data: Bytes, branch: Option<string>, blobSha: Sha, c: Sha)
    requires ValidRepo(s.refs, s.store)
    ensures var r, s' := WriteResult(s, filepath, data, branch, blobSha, c), WriteState(s, filepath, data, branch, blobSha, c);
      var path := Strip(filepath, {'/'});
      && (r.Err? ==> r.error in {HeadUnresolved, UnsupportedPath(path), PathConflict(path)})
      && (branch.Some? && RefName(branch.value) !in s.refs && HeadCommitOf(s.refs, s.head, s.store).None? ==>
            r == Err(HeadUnresolved) && s' == s)
      && (!PlainPath(path) ==> r.Err?)
      && (r == Err(UnsupportedPath(path)) ==> !PlainPath(path))
  {
    var path := Strip(filepath, {'/'});
    var s1 := Selected(s, branch);
    if s1.Some? {
      assert WriteResult(s, filepath, data, branch, blobSha, c) == CommitResult(s1.value, path, data, blobSha, c);
      CommitErrors(s1.value, path, data, blobSha, c);
    } else {
      assert WriteResult(s, filepath, data, branch, blobSha, c) == Err(HeadUnresolved);
      assert WriteState(s, filepath, data, branch, blobSha, c) == s;
    }
    if branch.Some? {
      SelectFacts(s, branch.value);
    }
  }

  /** The errors of the commit step: a path the model does not write raises exactly
      UnsupportedPath, and otherwise only PathConflict or HeadUnresolved can be raised. */
  lemma CommitErrors(s: State, path: string, data: Bytes, blobSha: Sha, c: Sha)
    requires ValidRepo(s.refs, s.store)
    ensures var r := CommitResult(s, path, data, blobSha, c);
      && (!PlainPath(path) <==> r == Err(UnsupportedPath(path)))
      && (r.Err? ==> r.error in {UnsupportedPath(path), PathConflict(path), HeadUnresolved})
  {
  }

  /** The working files outside `.git` are exactly the blobs of `t`, with their bytes. */
  ghost predicate Mirrors(t: Tree, files: map<string, Bytes>)
    requires t.Dir? && WellFormed(t)
  {
    && (forall p | p in files && !InGit(p) :: p in Expected(t) && files[p] == BlobAt(t, p).data)
    && (forall p | p in Expected(t) && !InGit(p) :: p in files)
  }

  /** The working files and the index agree with the tree the next commit starts from, as
      checkout leaves them. */
  ghost predicate Synced(s: State)
    requires ValidRepo(s.refs, s.store)
  {
    var base := CommitBaseOf(s.refs, s.head, s.store);
    base.Some? ==> Mirrors(base.value, s.files) && s.index == IndexOf(base.value, Expected(base.value))
  }

  /** Checkout of `t` leaves working files that mirror `t`. */
  lemma CheckoutMirrors(t: Tree, files0: map<string, Bytes>)
    requires t.Dir? && WellFormed(t)
    ensures Mirrors(t, CheckoutFiles(t, files0))
  {
  }

  /** The blob paths of a tree after putting a blob at a plain path: the old ones and that
      path, each holding the blob it held before, and the path the new blob. */
  lemma PutExpected(t: Tree, path: string, b: Tree)
    requires t.Dir? && WellFormed(t) && PlainPath(path) && b.Blob?
    requires Put(t, Split(path), b).Some?
    ensures var u := Put(t, Split(path), b).value;
      && u.Dir? && WellFormed(u)
      && Expected(u) == Expected(t) + {path}
      && forall p | p in Expected(u) :: BlobAt(u, p) == if p == path then b else BlobAt(t, p)
  {
    var u := Put(t, Split(path), b).value;
    SplitPiecesHaveNoSlash(path);
    PutWellFormed(t, Split(path), b);
    forall p ensures p in Expected(u) <==> p in Expected(t) + {path} {
      CollectTreePathsExact(u, p);
      CollectTreePathsExact(t, p);
      PutBlobPaths(t, path, b, p);
    }
    forall p | p in Expected(u) ensures BlobAt(u, p) == if p == path then b else BlobAt(t, p) {
      PutBlobPaths(t, path, b, p);
    }
  }

  /** A commit made on a working tree and index that agree with HEAD leaves them agreeing
      with the new commit: its tree is the tree the index describes. */
  lemma CommitKeepsSynced(s: State, path: string, data: Bytes, blobSha: Sha, c: Sha)
    requires ValidRepo(s.refs, s.store) && IsObjectId(c) && c !in s.store && Synced(s)
    ensures var r, s' := CommitResult(s, path, data, blobSha, c), CommitState(s, path, data, blobSha, c);
      r.Ok? ==> Synced(s') && s'.index == IndexOf(s'.store[c], Expected(s'.store[c]))
  {
    var r, s' := CommitResult(s, path, data, blobSha, c), CommitState(s, path, data, blobSha, c);
    if r.Ok? {
      var blob := Blob(blobSha, data);
      var base := CommitBaseOf(s.refs, s.head, s.store).value;
      var u := Put(base, Split(path), blob).value;
      CommitOutcome(s, path, data, blobSha, c);
      assert s'.store[c] == u;
      assert CommitBaseOf(s'.refs, s'.head, s'.store) == Some(u);
      PutMirrors(base, s.files, path, blob);
      PutIndex(base, path, blob);
    }
  }

  /** The tree of the next commit holds every blob of the tree it starts from, each
      unchanged, and the new blob at `path`, and nothing else. */
  lemma NextTreeContents(refs: map<string, Sha>, head: Option<string>, store: map<Sha, Tree>, path: string, blob: Tree)
    requires ValidRepo(refs, store) && PlainPath(path) && blob.Blob?
    ensures var u := NextTreeOf(refs, head, store, path, blob);
      u.Some? ==>
        && CommitBaseOf(refs, head, store).Some?
        && var base := CommitBaseOf(refs, head, store).value;
           && Expected(u.value) == Expected(base) + {path}
           && forall p | p in Expected(u.value) :: BlobAt(u.value, p) == if p == path then blob else BlobAt(base, p)
  {
    var base := CommitBaseOf(refs, head, store);
    if NextTreeOf(refs, head, store, path, blob).Some? {
      assert NextTreeOf(refs, head, store, path, blob) == Put(base.value, Split(path), blob);
      PutExpected(base.value, path, blob);
    }
  }

  /** Deleting a branch other than the one HEAD names keeps the working tree and index in
      agreement with HEAD's tree. */
  lemma DeleteKeepsSynced(s: State, b: string)
    requires ValidRepo(s.refs, s.store) && Synced(s) && HeadRefOf(s.head) != Some(RefName(b))
    ensures ValidRepo(s.refs - {RefName(b)}, s.store) && Synced(s.(refs := s.refs - {RefName(b)}))
  {
    var s' := s.(refs := s.refs - {RefName(b)});
    assert CommitBaseOf(s'.refs, s'.head, s'.store) == CommitBaseOf(s.refs, s.head, s.store);
  }

  /** Working files that mirror a tree mirror it with a blob put in once the blob's bytes
      are written at its path. */
  lemma PutMirrors(t: Tree, files: map<string, Bytes>, path: string, b: Tree)
    requires t.Dir? && WellFormed(t) && PlainPath(path) && b.Blob?
    requires Put(t, Split(path), b).Some? && Mirrors(t, files)
    ensures var u := Put(t, Split(path), b).value;
      u.Dir? && WellFormed(u) && Mirrors(u, files[path := b.data])
  {
    PutExpected(t, path, b);
  }

  /** The index of a tree with a blob put in is the tree's index with that blob's entry. */
  lemma PutIndex(t: Tree, path: string, b: Tree)
    requires t.Dir? && WellFormed(t) && PlainPath(path) && b.Blob?
    requires Put(t, Split(path), b).Some?
    ensures var u := Put(t, Split(path), b).value;
      u.Dir? && WellFormed(u)
      && IndexOf(u, Expected(u)) == IndexOf(t, Expected(t))[path := IndexEntry(|b.data|, b.sha)]
  {
    var u := Put(t, Split(path), b).value;
    PutExpected(t, path, b);
    IndexOfWith(t, u, Expected(t), path, b);
  }

  /** The index of a tree that holds `b` at `path` and agrees with `t` on every other path
      of `ps` is the index of `t` with the entry for `path` set to `b`'s. */
  lemma IndexOfWith(t: Tree, u: Tree, ps: set<string>, path: string, b: Tree)
    requires forall p | p in ps :: IsBlobAt(t, p)
    requires forall p | p in ps + {path} :: IsBlobAt(u, p)
    requires BlobAt(u, path) == b
    requires forall p | p in ps && p != path :: BlobAt(u, p) == BlobAt(t, p)
    ensures IndexOf(u, ps + {path}) == IndexOf(t, ps)[path := IndexEntry(|b.data|, b.sha)]
  {
    var i, i0 := IndexOf(u, ps + {path}), IndexOf(t, ps);
    var e := IndexEntry(|b.data|, b.sha);
    forall p | p in i ensures i[p] == if p == path then e else i0[p] {
      assert BlobAt(u, p) == if p == path then b else BlobAt(t, p);
    }
    assert i == i0[path := e];
  }

  /** The branch handling keeps the working tree and index in agreement with HEAD, and a
      checkout of a name without trailing whitespace brings them into agreement. */
  lemma SelectKeepsSynced(s: State, b: string)
    requires ValidRepo(s.refs, s.store)
    ensures var s1 := SelectState(s, b);
      && (s1.Some? && CurrentBranchOf(s.head) != b && TrimEnd(b, Whitespace) == b ==> Synced(s1.value))
      && (s1.Some? && CurrentBranchOf(s.head) == b && Synced(s) ==> Synced(s1.value))
  {
    var s1 := SelectState(s, b);
    if s1.Some? && CurrentBranchOf(s.head) != b && TrimEnd(b, Whitespace) == b {
      HeadRefAfterCheckout(b);
      var t := s1.value.store[s1.value.refs[RefName(b)]];
      CheckoutMirrors(t, s.files);
      assert CommitBaseOf(s1.value.refs, s1.value.head, s1.value.store) == Some(t);
    }
    if s1.Some? && CurrentBranchOf(s.head) == b && Synced(s) {
      assert CommitBaseOf(s1.value.refs, s1.value.head, s1.value.store) == CommitBaseOf(s.refs, s.head, s.store);
    }
  }

  /** `write` leaves the working tree and index in agreement with the commit it made, so
      that commit's tree (HEAD's tree with the file put in) is the tree `porcelain.commit`
      takes from the index: when `write` checks out a branch whose name has no trailing
      whitespace, and otherwise when they agreed with HEAD before. */
  lemma WriteKeepsSynced(s: State, filepath: string, data: Bytes, branch: Option<string>, blobSha: Sha, c: Sha)
    requires ValidRepo(s.refs, s.store) && IsObjectId(c) && c !in s.store
    requires if branch.Some? && CurrentBranchOf(s.head) != branch.value then TrimEnd(branch.value, Whitespace) == branch.value
             else Synced(s)
    ensures var r, s' := WriteResult(s, filepath, data, branch, blobSha, c), WriteState(s, filepath, data, branch, blobSha, c);
      r.Ok? ==> Synced(s') && s'.index == IndexOf(s'.store[c], Expected(s'.store[c]))
  {
    var path := Strip(filepath, {'/'});
    var s1 := Selected(s, branch);
    if branch.Some? {
      SelectKeepsSynced(s, branch.value);
    }
    if s1.Some? {
      assert WriteState(s, filepath, data, branch, blobSha, c) == CommitState(s1.value, path, data, blobSha, c);
      assert WriteResult(s, filepath, data, branch, blobSha, c) == CommitResult(s1.value, path, data, blobSha, c);
      CommitKeepsSynced(s1.value, path, data, blobSha, c);
    } else {
      assert WriteResult(s, filepath, data, branch, blobSha, c) == Err(HeadUnresolved);
    }
  }

  /** The repository: dulwich's ref container and object store, the HEAD file, the
      checked-out files and directories (relative posix paths, those inside `.git`
      included), and the index. */
  class Repo {
    var refs: map<string, Sha>
    var head: Option<string>
    var store: map<Sha, Tree>
    var files: map<string, Bytes>
    var dirs: set<string>
    var index: map<string, IndexEntry>

    /** Every ref names a stored commit, and every stored commit's root tree is a
        well-formed tree. */
    ghost predicate Valid()
      reads this`refs, this`store
    {
      ValidRepo(refs, store)
    }

    constructor (refs: map<string, Sha>, head: Option<string>, store: map<Sha, Tree>,
                 files: map<string, Bytes>, dirs: set<string>, index: map<string, IndexEntry>)
      requires ValidRepo(refs, store)
      ensures Valid()
      ensures this.refs == refs && this.head == head && this.store == store
      ensures this.files == files && this.dirs == dirs && this.index == index
    {
      this.refs, this.head, this.store := refs, head, store;
      this.files, this.dirs, this.index := files, dirs, index;
    }

    /** `current_branch()`. */
    function CurrentBranch(): string
      reads this`head
    {
      CurrentBranchOf(head)
    }

    /** The commit HEAD designates. */
    function HeadCommit(): Option<Sha>
      reads this`refs, this`head, this`store
    {
      HeadCommitOf(refs, head, store)
    }

    /** `branches()`: one name per key under `refs/heads/`, its last "/" segment.
        `keys` are the ref keys the names come from, in the order chosen. */
    method Branches() returns (names: seq<string>, ghost keys: seq<string>)
      ensures |names| == |keys|
      ensures forall i :: 0 <= i < |keys| ==> keys[i] in refs && "refs/heads/" <= keys[i] && names[i] == LastSegment(keys[i])
      ensures forall k :: k in refs && "refs/heads/" <= k ==> k in keys
      ensures forall i, j :: 0 <= i < j < |keys| ==> keys[i] != keys[j]
    {
      names, keys := [], [];
      var todo := refs.Keys;
      while todo != {}
        invariant todo <= refs.Keys
        invariant |names| == |keys|
        invariant forall i :: 0 <= i < |keys| ==> keys[i] in refs && keys[i] !in todo && "refs/heads/" <= keys[i] && names[i] == LastSegment(keys[i])
        invariant forall k :: k in refs && "refs/heads/" <= k ==> k in keys || k in todo
        invariant forall i, j :: 0 <= i < j < |keys| ==> keys[i] != keys[j]
        decreases todo
      {
        var k :| k in todo;
        if "refs/heads/" <= k {
          names, keys := names + [LastSegment(k)], keys + [k];
        }
        todo := todo - {k};
      }
    }

    /** `create_branch(branch)`: points `refs/heads/<branch>` at HEAD's commit. */
    method CreateBranch(branch: string) returns (st: Status)
      requires Valid()
      modifies this`refs
      ensures Valid()
      ensures st == (if old(HeadCommit()).Some? then Done else Raised(HeadUnresolved))
      ensures refs == if st.Done? then old(refs)[RefName(branch) := old(HeadCommit()).value] else old(refs)
    {
      var c := HeadCommit();
      if c.Some? {
        refs := refs[RefName(branch) := c.value];
        st := Done;
      } else {
        st := Raised(HeadUnresolved);
      }
    }

    /** `delete_branch(branch)`: removes the ref when present; otherwise a no-op. */
    method DeleteBranch(branch: string)
      requires Valid()
      modifies this`refs
      ensures Valid()
      ensures refs == old(refs) - {RefName(branch)}
    {
      if RefName(branch) in refs {
        refs := refs - {RefName(branch)};
      }
    }

    /** `log(branch)`: the commit the walker starts from, or ValueError. The walk itself
        is dulwich's. */
    function Log(branch: Option<string>): Result<Sha>
      reads this`refs, this`head
    {
      BranchCommit(refs, head, branch)
    }

    /** `read(filepath, branch)`: the blob at the stripped path in the branch's commit,
        decoded as UTF-8 (kept as its bytes); ValueError for a missing branch, an error
        naming the path when the commit's tree lists no file there, and
        UnicodeDecodeError when the blob's bytes are not UTF-8. */
    function Read(filepath: string, branch: Option<string>): (r: Result<Bytes>)
      requires Valid()
      reads this`refs, this`head, this`store
      ensures BranchCommit(refs, head, branch).Err? ==> r == Err(BranchCommit(refs, head, branch).error)
      ensures BranchCommit(refs, head, branch).Ok? ==>
        var t, path := store[BranchCommit(refs, head, branch).value], Strip(filepath, {'/'});
        && (r.Ok? <==> path in Expected(t) && Utf8(BlobAt(t, path).data))
        && (r.Ok? ==> r.value == BlobAt(t, path).data)
        && (r == Err(DecodeError(path)) <==> path in Expected(t) && !Utf8(BlobAt(t, path).data))
        && (r.Err? ==> r.error in {PathMissing(path), NotABlob(path), DecodeError(path)})
    {
      match BranchCommit(refs, head, branch)
      case Err(e) => Err(e)
      case Ok(c) =>
        ReadTreeAgreesWithPaths(store[c], filepath);
        match ReadTree(store[c], filepath)
        case Err(e) => Err(e)
        case Ok(data) => if Utf8(data) then Ok(data) else Err(DecodeError(Strip(filepath, {'/'})))
    }

    // -------------------------------------------------------------------------
    // checkout

    /** Pass 3, files: every file outside `.git` that the target tree does not list is unlinked. */
    method RemoveUnexpectedFiles(expected: set<string>)
      modifies this`files
      ensures files == KeptFiles(old(files), expected)
    {
      var todo := files.Keys;
      while todo != {}
        invariant todo <= old(files).Keys
        invariant forall p :: p in files <==> p in old(files) && (p in todo || InGit(p) || p in expected)
        invariant forall p | p in files :: files[p] == old(files)[p]
        decreases todo
      {
        var p :| p in todo;
        if !InGit(p) && p !in expected {
          files := files - {p};
        }
        todo := todo - {p};
      }
    }

    /** Pass 3, directories: every directory outside `.git` with no expected path beneath
        it is removed together with everything below it. */
    method RemoveUnexpectedDirs(expected: set<string>)
      requires forall q | q in files :: InGit(q) || q in expected
      modifies this`files, this`dirs
      ensures dirs == KeptDirs(old(dirs), expected)
      ensures files == old(files)
    {
      var todo := dirs;
      while todo != {}
        invariant dirs <= old(dirs)
        invariant forall d | d in old(dirs) && KeepDir(expected, d) :: d in dirs
        invariant forall d | d in dirs && !KeepDir(expected, d) :: d in todo
        invariant files == old(files)
        decreases todo
      {
        var d :| d in todo;
        if !InGit(d) && !HasExpectedBeneath(expected, d) {
          forall q | q in files && d + "/" <= q ensures false {
            AboveGitIsGit(d, q);
          }
          forall e | e in dirs && d + "/" <= e ensures !KeepDir(expected, e) {
            RemovedBelowRemoved(expected, d, e);
          }
          files := map q | q in files && !(d + "/" <= q) :: files[q];
          dirs := set e | e in dirs && e != d && !(d + "/" <= e);
        }
        todo := todo - {d};
      }
    }

    /** One blob of `checkout_tree`: `path.parent.mkdir(parents=True, exist_ok=True)`
        then `path.write_bytes(data)`, or the OS error when something stands in the way. */
    method WriteBlob(p: string, data: Bytes) returns (st: Status)
      modifies this`files, this`dirs
      ensures st == if WriteConflict(old(files), old(dirs), p) then Raised(PathConflict(p)) else Done
      ensures st.Done? ==> files == old(files)[p := data] && dirs == old(dirs) + Ancestors(p)
      ensures st.Raised? ==> files == old(files) && dirs == old(dirs)
    {
      if p in dirs || exists a | a in Ancestors(p) :: a in files {
        return Raised(PathConflict(p));
      }
      dirs := dirs + Ancestors(p);
      files := files[p := data];
      return Done;
    }

    /** Pass 4, `checkout_tree`: writes every expected blob outside `.git`, creating its
        parent directories. Once pass 3 has run nothing stands in the way. */
    method WriteExpected(t: Tree) returns (st: Status)
      requires t.Dir? && WellFormed(t)
      modifies this`files, this`dirs
      ensures st.Raised? ==> st.error.PathConflict? && st.error.path in Expected(t)
      ensures Cleared(old(files), old(dirs), Expected(t)) ==>
        st == Done && files == old(files) + WrittenFiles(t, Expected(t))
        && dirs == old(dirs) + CreatedDirs(Expected(t))
    {
      var expected := Expected(t);
      ghost var ready := Cleared(files, dirs, expected);
      var todo := expected;
      ghost var done := {};
      while todo != {}
        invariant todo + done == expected
        invariant ready ==> files == old(files) + WrittenFiles(t, done)
        invariant ready ==> dirs == old(dirs) + CreatedDirs(done)
        invariant ready ==> Cleared(files, dirs, expected)
        decreases todo
      {
        var p :| p in todo;
        if ready {
          WrittenStep(t, old(files), done, p);
          CreatedStep(old(dirs), done, p);
        }
        if !InGit(p) {
          if ready {
            NoWriteConflict(t, files, dirs, p, BlobAt(t, p).data);
          }
          st := WriteBlob(p, BlobAt(t, p).data);
          if st.Raised? {
            return;
          }
        }
        todo, done := todo - {p}, done + {p};
      }
      return Done;
    }

    /** Pass 5, `add_tree_to_index`: the index is cleared and gets one entry per blob path. */
    method RebuildIndex(t: Tree)
      requires t.Dir? && WellFormed(t)
      modifies this`index
      ensures index == IndexOf(t, Expected(t))
    {
      var expected := Expected(t);
      index := map[];
      var todo := expected;
      while todo != {}
        invariant todo <= expected
        invariant index == IndexOf(t, expected - todo)
        decreases todo
      {
        var p :| p in todo;
        var b := BlobAt(t, p);
        index := index[p := IndexEntry(|b.data|, b.sha)];
        todo := todo - {p};
      }
    }

    /** Pass 6: the files outside `.git` that the tree does not list. */
    method RemainingUnexpected(expected: set<string>) returns (remaining: set<string>)
      ensures remaining == set p | p in files && !InGit(p) && p !in expected
    {
      remaining := {};
      var todo := files.Keys;
      while todo != {}
        invariant todo <= files.Keys
        invariant remaining == set p | p in files && p !in todo && !InGit(p) && p !in expected
        decreases todo
      {
        var p :| p in todo;
        if !InGit(p) && p !in expected {
          remaining := remaining + {p};
        }
        todo := todo - {p};
      }
    }

    /** `checkout(branch)`. */
    method Checkout(branch: string) returns (st: Status)
      requires Valid()
      modifies this`head, this`files, this`dirs, this`index
      ensures Valid()
      ensures RefName(branch) !in refs ==>
        st == Raised(NoSuchBranch(branch)) && head == old(head) && files == old(files)
        && dirs == old(dirs) && index == old(index)
      ensures RefName(branch) in refs ==>
        st == Done && head == Some(HeadText(branch))
        && CheckedOut(store[refs[RefName(branch)]], old(files), old(dirs), files, dirs, index)
    {
      if RefName(branch) !in refs {
        return Raised(NoSuchBranch(branch));
      }
      head := Some(HeadText(branch));
      var t := store[refs[RefName(branch)]];
      var expected := Expected(t);
      RemoveUnexpectedFiles(expected);
      RemoveUnexpectedDirs(expected);
      st := WriteExpected(t);
      if st.Raised? {
        assert false;
        return;
      }
      RebuildIndex(t);
      var remaining := RemainingUnexpected(expected);
      if remaining != {} {
        assert false;
        return Raised(Incomplete(remaining));
      }
      st := Done;
    }

    // -------------------------------------------------------------------------
    // write

    /** The fields as one value. */
    function St(): State
      reads this
    {
      State(refs, head, store, files, dirs, index)
    }

    /** The branch handling of `write(..., branch=b)`: a missing branch is created from
        HEAD, then checked out unless `current_branch()` already reports `b`. */
    method SelectBranch(b: string) returns (st: Status)
      requires Valid()
      modifies this
      ensures Valid()
      ensures st.Raised? <==> old(SelectState(St(), b)).None?
      ensures st.Raised? ==> st == Raised(HeadUnresolved) && unchanged(this)
      ensures st.Done? ==> St() == old(SelectState(St(), b)).value
    {
      if RefName(b) !in refs {
        st := CreateBranch(b);
        if st.Raised? {
          return;
        }
      }
      if CurrentBranch() != b {
        st := Checkout(b);
      } else {
        st := Done;
      }
    }

    /** `porcelain.commit`: a commit `commitSha` of HEAD's tree with `blob` put at `path`,
        recorded in the ref HEAD names, or in HEAD itself when it is detached. */
    method CommitBlob(path: string, blob: Tree, commitSha: Sha) returns (r: Result<Sha>)
      requires Valid() && PlainPath(path) && blob.Blob? && commitSha !in store
      modifies this`store, this`refs, this`head
      ensures Valid()
      ensures var tree := old(NextTreeOf(refs, head, store, path, blob));
        && r == (if tree.Some? then Ok(commitSha)
                 else if old(CommitBaseOf(refs, head, store)).None? then Err(HeadUnresolved)
                 else Err(PathConflict(path)))
        && (tree.None? ==> store == old(store) && refs == old(refs) && head == old(head))
        && (tree.Some? ==>
              store == old(store)[commitSha := tree.value]
              && refs == CommitRefs(old(refs), old(head), commitSha) && head == CommitHead(old(head), commitSha))
    {
      var base := CommitBaseOf(refs, head, store);
      if base.None? {
        return Err(HeadUnresolved);
      }
      var tree := NextTreeOf(refs, head, store, path, blob);
      if tree.None? {
        return Err(PathConflict(path));
      }
      RecordCommit(tree.value, commitSha);
      return Ok(commitSha);
    }

    /** Storing commit `commitSha` with tree `tree` and moving HEAD's branch (or HEAD) to it. */
    method RecordCommit(tree: Tree, commitSha: Sha)
      requires Valid() && tree.Dir? && WellFormed(tree) && commitSha !in store
      modifies this`store, this`refs, this`head
      ensures Valid()
      ensures store == old(store)[commitSha := tree]
      ensures refs == CommitRefs(old(refs), old(head), commitSha) && head == CommitHead(old(head), commitSha)
    {
      ValidAfterCommit(refs, head, store, commitSha, tree);
      store, refs, head := store[commitSha := tree], CommitRefs(refs, head, commitSha), CommitHead(head, commitSha);
    }

    /** `full_path.write_text(content)`, `porcelain.add` and `porcelain.commit` on a path
        already stripped of "/". `blobSha` and `commitSha` stand for the ids dulwich
        computes. */
    method WriteAndCommit(path: string, data: Bytes, blobSha: Sha, commitSha: Sha) returns (r: Result<Sha>)
      requires Valid() && commitSha !in store
      modifies this
      ensures Valid()
      ensures r == old(CommitResult(St(), path, data, blobSha, commitSha))
      ensures St() == old(CommitState(St(), path, data, blobSha, commitSha))
    {
      if !PlainPath(path) {
        return Err(UnsupportedPath(path));
      }
      var st := WriteBlob(path, data);
      if st.Raised? {
        return Err(st.error);
      }
      index := index[path := IndexEntry(|data|, blobSha)];
      r := CommitBlob(path, Blob(blobSha, data), commitSha);
    }

    /** `write(filepath, content, branch)`: strips "/" from the path, selects the branch
        when one is given, then writes, stages and commits the file. */
    method Write(filepath: string, data: Bytes, branch: Option<string>, blobSha: Sha, commitSha: Sha)
      returns (r: Result<Sha>)
      requires Valid() && commitSha !in store
      modifies this
      ensures Valid()
      ensures r == old(WriteResult(St(), filepath, data, branch, blobSha, commitSha))
      ensures St() == old(WriteState(St(), filepath, data, branch, blobSha, commitSha))
    {
      var path := Strip(filepath, {'/'});
      if branch.Some? {
        var st := SelectBranch(branch.value);
        if st.Raised? {
          return Err(st.error);
        }
      }
      r := WriteAndCommit(path, data, blobSha, commitSha);
    }
  }
}
