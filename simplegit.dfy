/** `SimpleGit`: writes, reads and lists the files of a branch of a `TrueGit`
    repository, switching to the branch for the operation and back to the branch that
    was current afterwards. */
module SimpleGit {
  import opened Text
  import opened GitTree
  import opened TrueGit
  import opened History
  import opened TextMode

  /** The message of a result; each stands for the text the operation reports. */
  datatype Note =
    | Committed    // a commit was made on the branch
    | UpToDate     // the file already holds the content
    | Restored     // the original branch was checked out again
    | NoBranch     // the branch to read does not exist
    | IsDirectory  // the path to read is a directory
    | NoSuchFile   // the path to read does not exist
    | ReadFailed   // another OSError while reading, such as a file standing above the path
    | FileRead     // the file was read

  /** `SimpleGitResult(success, message, data)`. */
  datatype SimpleGitResult<D> = SimpleGitResult(success: bool, message: Note, data: D)

  /** The data of `write`: the file name as given, the commit made, the branch. */
  datatype WriteData = WriteData(file: string, commit: Option<Sha>, branch: string)

  /** The data of `read`: the file name and its content, if it was read. */
  datatype ReadData = ReadData(file: string, content: Option<Bytes>)

  /** The bytes a read returned, or None when it raised. */
  function Found(r: Result<Bytes>): Option<Bytes>
  {
    if r.Ok? then Some(r.value) else None
  }

  /** What `read` returns as content for a file holding `raw`, if there is one: its text
      with universal newlines, or None when there is none or its bytes do not decode. */
  function TextOf(raw: Option<Bytes>): Option<Bytes>
  {
    if raw.Some? then ReadText(raw.value) else None
  }

  /** A file holding `raw` exists and `read_text()` of it raises UnicodeDecodeError. */
  predicate NotText(raw: Option<Bytes>)
  {
    raw.Some? && !Utf8(raw.value)
  }

  /** The bytes of the working file at `path` among `files`, if there is one. */
  function FileBytes(files: map<string, Bytes>, path: string): Option<Bytes>
  {
    if path in files then Some(files[path]) else None
  }

  /** Reading back what `write` left: the committed content, or the earlier file whose
      text already was the content, reads as the content with universal newlines. */
  lemma WriteReadsBack(before: Option<Bytes>, after: Option<Bytes>, content: Bytes, committed: bool)
    requires Utf8(content)
    requires committed ==> after == Some(content)
    requires !committed ==> after == before && TextOf(before) == Some(content)
    ensures TextOf(after) == Some(Universal(content))
  {
    UniversalFixed(content);
  }

  /** Content holding a carriage return never equals what `read` returns, so `write`
      never finds it up to date. */
  lemma CarriageReturnNeverUpToDate(raw: Option<Bytes>, content: Bytes)
    requires CR in content
    ensures TextOf(raw) != Some(content)
  {
    if raw.Some? && Utf8(raw.value) {
      assert CR !in Universal(raw.value);
    }
  }

  /** A working file stands on the way to `path`, so opening `path` raises
      NotADirectoryError. */
  predicate BelowFile(path: string, files: set<string>)
  {
    Ancestors(path) * files != {}
  }

  /** After a checkout of `t`, no file of `t` lies below a working file: a path outside
      `.git` below a working file is not a blob path of `t`. */
  lemma BelowFileNotExpected(t: Tree, files0: map<string, Bytes>, dirs0: set<string>,
                             files: map<string, Bytes>, dirs: set<string>, index: map<string, IndexEntry>, path: string)
    requires CheckedOut(t, files0, dirs0, files, dirs, index) && !InGit(path) && BelowFile(path, files.Keys)
    ensures path !in Expected(t)
  {
    var a :| a in Ancestors(path) && a in files.Keys;
    AncestorsExact(a, path);
    if InGit(a) {
      BelowGitIsGit(a, path);
    }
    CheckedOutFile(t, files0, dirs0, files, dirs, index, a);
    if path in Expected(t) {
      CollectedPathsArePrefixFree(t, a, path);
    }
  }

  class SimpleGit {
    const repo: Repo
    const defaultBranch: string

    constructor (repo: Repo, defaultBranch: string)
      ensures this.repo == repo && this.defaultBranch == defaultBranch
    {
      this.repo := repo;
      this.defaultBranch := defaultBranch;
    }

    /** `if not branch: branch = self.default_branch`. */
    function Target(branch: Option<string>): string
    {
      if branch.None? || branch.value == "" then defaultBranch else branch.value
    }

    /** The restoring step of `write`, `read` and `ls`: `switch(original)` when
        `current_branch()` differs from `original`, the branch that was current on entry. */
    method SwitchBack(original: string, ghost head0: Option<string>) returns (st: Status)
      requires repo.Valid() && original == CurrentBranchOf(head0)
      modifies repo`head, repo`files, repo`dirs, repo`index
      ensures repo.Valid() && repo.refs == old(repo.refs) && repo.store == old(repo.store)
      ensures old(repo.CurrentBranch()) == original ==> st == Done && unchanged(repo)
      ensures old(repo.CurrentBranch()) != original ==>
        && (st.Done? <==> RefName(original) in repo.refs)
        && (st.Raised? ==> st == Raised(NoSuchBranch(original)) && unchanged(repo))
        && (st.Done? ==>
              repo.head == Some(HeadText(original))
              && var t := repo.store[repo.refs[RefName(original)]];
                 && repo.files == CheckoutFiles(t, old(repo.files)) && repo.dirs == CheckoutDirs(t, old(repo.dirs))
                 && Mirrors(t, repo.files) && repo.index == IndexOf(t, Expected(t)))
      ensures st.Done? ==> repo.CurrentBranch() == original
    {
      st := Done;
      if repo.CurrentBranch() != original {
        ghost var files0 := repo.files;
        st := repo.Checkout(original);
        if st.Done? {
          CheckoutMirrors(repo.store[repo.refs[RefName(original)]], files0);
          CurrentBranchIsClean(head0);
          CurrentBranchRoundTrip(original);
        }
      }
    }

    /** `read(filename, branch)`: switches to the branch, reads the working file at the
        name stripped of "/", and switches back when the current branch changed. A
        UnicodeDecodeError escapes before the switch back, leaving the branch checked out. */
    method Read(filename: string, branch: Option<string>) returns (r: Result<SimpleGitResult<ReadData>>)
      requires repo.Valid()
      modifies repo`head, repo`files, repo`dirs, repo`index
      ensures repo.Valid() && repo.refs == old(repo.refs) && repo.store == old(repo.store)
      ensures RefName(Target(branch)) !in repo.refs ==>
        r == Ok(SimpleGitResult(false, NoBranch, ReadData(filename, None)))
        && repo.head == old(repo.head) && repo.files == old(repo.files)
        && repo.dirs == old(repo.dirs) && repo.index == old(repo.index)
      ensures RefName(Target(branch)) in repo.refs ==>
        var t := repo.store[repo.refs[RefName(Target(branch))]];
        var path := Strip(filename, {'/'});
        var wf := CheckoutFiles(t, old(repo.files));
        var isDir := path == "" || path in CheckoutDirs(t, old(repo.dirs));
        var below := !isDir && BelowFile(path, wf.Keys);
        && (r == Err(DecodeError(path)) <==> !isDir && !below && NotText(FileBytes(wf, path)))
        && (r.Ok? ==>
              && r.value.data.file == path
              && r.value.success == r.value.data.content.Some?
              && r.value.message == (if isDir then IsDirectory else if below then ReadFailed
                                     else if r.value.success then FileRead else NoSuchFile)
              && (!isDir && !below ==> r.value.data.content == TextOf(FileBytes(wf, path))))
        && (!InGit(path) ==>
              && (r == Err(DecodeError(path)) <==> NotText(Found(ReadTree(t, filename))))
              && (r.Ok? ==> r.value.data.content == TextOf(Found(ReadTree(t, filename)))))
      ensures r.Ok? ==> repo.CurrentBranch() == old(repo.CurrentBranch())
      ensures r.Err? ==> r.error in {NoSuchBranch(old(repo.CurrentBranch())), DecodeError(Strip(filename, {'/'}))}
      ensures RefName(Target(branch)) in repo.refs && (r.Ok? || r.error.NoSuchBranch?) ==>
        (r.Err? <==> CurrentBranchOf(Some(HeadText(Target(branch)))) != old(repo.CurrentBranch())
                     && RefName(old(repo.CurrentBranch())) !in repo.refs)
      ensures RefName(Target(branch)) in repo.refs && (CurrentBranchOf(Some(HeadText(Target(branch)))) == old(repo.CurrentBranch()) || r.Err?) ==>
        repo.head == Some(HeadText(Target(branch)))
        && CheckedOut(repo.store[repo.refs[RefName(Target(branch))]], old(repo.files), old(repo.dirs), repo.files, repo.dirs, repo.index)
      ensures RefName(Target(branch)) in repo.refs && CurrentBranchOf(Some(HeadText(Target(branch)))) != old(repo.CurrentBranch()) && r.Ok? ==>
        var o := old(repo.CurrentBranch());
        var tb := repo.store[repo.refs[RefName(Target(branch))]];
        && RefName(o) in repo.refs && repo.head == Some(HeadText(o))
        && var t := repo.store[repo.refs[RefName(o)]];
           && repo.files == CheckoutFiles(t, CheckoutFiles(tb, old(repo.files)))
           && repo.dirs == CheckoutDirs(t, CheckoutDirs(tb, old(repo.dirs)))
           && Mirrors(t, repo.files) && repo.index == IndexOf(t, Expected(t))
    {
      var original := repo.CurrentBranch();
      ghost var head0 := repo.head;
      var b := Target(branch);
      r := ReadOnBranch(filename, b);
      if r.Err? {
        return;
      }
      var st := SwitchBack(original, head0);
      if st.Raised? {
        r := Err(st.error);
      }
    }

    /** The part of `read` between the two switches: checks out branch `b` and reads the
        file there. */
    method ReadOnBranch(filename: string, b: string) returns (r: Result<SimpleGitResult<ReadData>>)
      requires repo.Valid()
      modifies repo`head, repo`files, repo`dirs, repo`index
      ensures repo.Valid() && repo.refs == old(repo.refs) && repo.store == old(repo.store)
      ensures RefName(b) !in repo.refs ==>
        r == Ok(SimpleGitResult(false, NoBranch, ReadData(filename, None)))
        && repo.head == old(repo.head) && repo.files == old(repo.files)
        && repo.dirs == old(repo.dirs) && repo.index == old(repo.index)
      ensures RefName(b) in repo.refs ==>
        var t := repo.store[repo.refs[RefName(b)]];
        var path := Strip(filename, {'/'});
        var wf := CheckoutFiles(t, old(repo.files));
        var isDir := path == "" || path in CheckoutDirs(t, old(repo.dirs));
        var below := !isDir && BelowFile(path, wf.Keys);
        && repo.head == Some(HeadText(b))
        && CheckedOut(t, old(repo.files), old(repo.dirs), repo.files, repo.dirs, repo.index)
        && (r.Err? <==> !isDir && !below && NotText(FileBytes(wf, path)))
        && (r.Err? ==> r == Err(DecodeError(path)))
        && (r.Ok? ==>
              && r.value.data.file == path
              && r.value.success == r.value.data.content.Some?
              && r.value.message == (if isDir then IsDirectory else if below then ReadFailed
                                     else if r.value.success then FileRead else NoSuchFile)
              && (!isDir && !below ==> r.value.data.content == TextOf(FileBytes(wf, path))))
        && (!InGit(path) ==>
              && (r.Err? <==> NotText(Found(ReadTree(t, filename))))
              && (r.Ok? ==> r.value.data.content == TextOf(Found(ReadTree(t, filename)))))
    {
      var st := repo.Checkout(b);
      if st.Raised? {
        r := Ok(SimpleGitResult(false, NoBranch, ReadData(filename, None)));
      } else {
        var path := Strip(filename, {'/'});
        ghost var t := repo.store[repo.refs[RefName(b)]];
        ReadTreeAgreesWithPaths(t, filename);
        if !InGit(path) {
          CheckedOutFile(t, old(repo.files), old(repo.dirs), repo.files, repo.dirs, repo.index, path);
          if path != "" && path !in repo.dirs && BelowFile(path, repo.files.Keys) {
            BelowFileNotExpected(t, old(repo.files), old(repo.dirs), repo.files, repo.dirs, repo.index, path);
          }
        }
        assert repo.dirs == CheckoutDirs(t, old(repo.dirs));
        r := ReadWorkingFile(path);
      }
    }

    /** The reading step of `read` at the stripped name `path` of the checked-out tree:
        `is_dir()` refuses a directory, the root included. Then `read_text()` raises
        NotADirectoryError, an OSError, when a file stands on the way, FileNotFoundError
        when nothing is there, and UnicodeDecodeError, which `read` does not catch, when the
        file is not UTF-8; otherwise it returns the file's text with universal newlines. */
    method ReadWorkingFile(path: string) returns (r: Result<SimpleGitResult<ReadData>>)
      ensures r.Err? <==>
        path != "" && path !in repo.dirs && !BelowFile(path, repo.files.Keys) && NotText(FileBytes(repo.files, path))
      ensures r.Err? ==> r == Err(DecodeError(path))
      ensures path == "" || path in repo.dirs ==> r == Ok(SimpleGitResult(false, IsDirectory, ReadData(path, None)))
      ensures path != "" && path !in repo.dirs && BelowFile(path, repo.files.Keys) ==>
        r == Ok(SimpleGitResult(false, ReadFailed, ReadData(path, None)))
      ensures r.Ok? ==> r.value.data.file == path && r.value.success == r.value.data.content.Some?
      ensures r.Ok? && path != "" && path !in repo.dirs && !BelowFile(path, repo.files.Keys) ==>
        && r.value.data.content == (if path in repo.files then Some(Universal(repo.files[path])) else None)
        && r.value.message == (if r.value.success then FileRead else NoSuchFile)
      ensures r.Ok? && r.value.success ==> Utf8(r.value.data.content.value) && CR !in r.value.data.content.value
    {
      if path == "" || path in repo.dirs {
        r := Ok(SimpleGitResult(false, IsDirectory, ReadData(path, None)));
      } else if BelowFile(path, repo.files.Keys) {
        r := Ok(SimpleGitResult(false, ReadFailed, ReadData(path, None)));
      } else if path !in repo.files {
        r := Ok(SimpleGitResult(false, NoSuchFile, ReadData(path, None)));
      } else if !Utf8(repo.files[path]) {
        r := Err(DecodeError(path));
      } else {
        UniversalKeepsUtf8(repo.files[path]);
        r := Ok(SimpleGitResult(true, FileRead, ReadData(path, Some(Universal(repo.files[path])))));
      }
    }

    /** The contents `read` finds for `filename` once branch `b` is checked out, created
        from the commit HEAD designates when missing. */
    function StoredContent(b: string, filename: string): Option<Bytes>
      requires repo.Valid()
      reads repo`refs, repo`head, repo`store
    {
      var c := if RefName(b) in repo.refs then Some(repo.refs[RefName(b)]) else repo.HeadCommit();
      if c.Some? then Found(ReadTree(repo.store[c.value], filename)) else None
    }

    /** The refs once `write` made sure branch `b` exists: as they are, or with `b` created
        at the commit HEAD designates when it is missing and HEAD resolves. */
    function RefsWithBranch(b: string): (r: map<string, Sha>)
      requires repo.Valid()
      reads repo`refs, repo`head, repo`store
      ensures ValidRepo(r, repo.store)
      ensures RefName(b) in r <==> RefName(b) in repo.refs || repo.HeadCommit().Some?
    {
      if RefName(b) in repo.refs || repo.HeadCommit().None? then repo.refs
      else repo.refs[RefName(b) := repo.HeadCommit().value]
    }

    /** The branch handling of `write`: `switch(branch)`, and on ValueError
        `create_branch(branch)` followed by `switch(branch)`. */
    method SwitchOrCreate(b: string) returns (st: Status)
      requires repo.Valid()
      modifies repo`refs, repo`head, repo`files, repo`dirs, repo`index
      ensures repo.Valid() && repo.store == old(repo.store)
      ensures st.Raised? <==> RefName(b) !in old(repo.refs) && old(repo.HeadCommit()).None?
      ensures st.Raised? ==> st == Raised(HeadUnresolved) && unchanged(repo)
      ensures repo.refs == old(RefsWithBranch(b))
      ensures st.Done? ==> repo.head == Some(HeadText(b))
      ensures st.Done? ==>
        CheckedOut(repo.store[repo.refs[RefName(b)]], old(repo.files), old(repo.dirs), repo.files, repo.dirs, repo.index)
    {
      ghost var target := RefsWithBranch(b);
      ghost var files0, dirs0 := repo.files, repo.dirs;
      st := repo.Checkout(b);
      if st.Raised? {
        assert RefName(b) !in repo.refs && repo.files == files0 && repo.dirs == dirs0;
        st := repo.CreateBranch(b);
        if st.Raised? {
          return;
        }
        assert repo.refs == target;
        st := repo.Checkout(b);
        assert CheckedOut(repo.store[repo.refs[RefName(b)]], files0, dirs0, repo.files, repo.dirs, repo.index);
      }
    }

    /** The body of `write` once branch `b` is checked out: `read` the file and, when its
        content differs, write, stage and commit it. */
    method CommitIfChanged(filename: string, content: Bytes, b: string, blobSha: Sha, commitSha: Sha)
      returns (commit: Option<Sha>, failure: Option<Error>)
      requires repo.Valid() && IsObjectId(commitSha) && commitSha !in repo.store
      requires RefName(b) in repo.refs && repo.head == Some(HeadText(b)) && Target(Some(b)) == b
      modifies repo
      ensures repo.Valid() && repo.head == old(repo.head)
      ensures commit.Some? ==> failure.None?
      ensures failure.Some? ==>
        failure.value in {UnsupportedPath(filename), PathConflict(filename), HeadUnresolved, DecodeError(Strip(filename, {'/'}))}
      ensures commit.None? ==> repo.store == old(repo.store) && repo.refs == old(repo.refs)
      ensures commit.Some? ==>
        && commit.value == commitSha && commitSha in repo.store
        && ReadTree(repo.store[commitSha], filename) == Ok(content)
        && repo.store == old(repo.store)[commitSha := repo.store[commitSha]]
        && repo.refs == old(repo.refs)[RefName(TrimEnd(b, Whitespace)) := commitSha]
      ensures PlainPath(filename) ==>
        (failure == Some(DecodeError(filename)) <==> NotText(Found(ReadTree(old(repo.store[repo.refs[RefName(b)]]), filename))))
      ensures PlainPath(filename) && failure.None? ==>
        (commit.None? <==> TextOf(Found(ReadTree(old(repo.store[repo.refs[RefName(b)]]), filename))) == Some(content))
      ensures commit.Some? ==>
        && PlainPath(filename)
        && old(NextTreeOf(repo.refs, repo.head, repo.store, filename, Blob(blobSha, content))) == Some(repo.store[commitSha])
      ensures failure.None? && TrimEnd(b, Whitespace) == b ==> Synced(repo.St())
    {
      ghost var t := repo.store[repo.refs[RefName(b)]];
      CurrentBranchAfterCheckout(b);
      var read := Read(filename, Some(b));
      if PlainPath(filename) {
        PlainPathEnds(filename);
      }
      if read.Err? {
        return None, Some(read.error);
      }
      if PlainPath(filename) {
        assert read.value.data.content == TextOf(Found(ReadTree(t, filename)));
      }
      if TrimEnd(b, Whitespace) == b {
        HeadRefAfterCheckout(b);
        CheckoutMirrors(t, old(repo.files));
        assert CommitBaseOf(repo.refs, repo.head, repo.store) == Some(t);
      }
      commit, failure := None, None;
      if read.value.data.content != Some(content) {
        HeadRefAfterCheckout(b);
        commit, failure := CommitContent(filename, content, RefName(TrimEnd(b, Whitespace)), blobSha, commitSha);
      }
    }

    /** The commit step of `write` on the checked-out branch whose ref is `rn`: writes,
        stages and commits the file, moving the branch to the new commit. */
    method CommitContent(filename: string, content: Bytes, ghost rn: string, blobSha: Sha, commitSha: Sha)
      returns (commit: Option<Sha>, failure: Option<Error>)
      requires repo.Valid() && IsObjectId(commitSha) && commitSha !in repo.store && HeadRefOf(repo.head) == Some(rn)
      modifies repo
      ensures repo.Valid() && repo.head == old(repo.head)
      ensures commit.Some? <==> failure.None?
      ensures failure.Some? ==> failure.value in {UnsupportedPath(filename), PathConflict(filename), HeadUnresolved}
      ensures commit.None? ==> repo.store == old(repo.store) && repo.refs == old(repo.refs)
      ensures commit.Some? ==>
        && commit.value == commitSha && commitSha in repo.store
        && ReadTree(repo.store[commitSha], filename) == Ok(content)
        && repo.store == old(repo.store)[commitSha := repo.store[commitSha]]
        && repo.refs == old(repo.refs)[rn := commitSha]
      ensures commit.Some? ==>
        && PlainPath(filename)
        && old(NextTreeOf(repo.refs, repo.head, repo.store, filename, Blob(blobSha, content))) == Some(repo.store[commitSha])
      ensures commit.Some? && old(Synced(repo.St())) ==> Synced(repo.St())
      ensures repo.St() == old(CommitState(repo.St(), filename, content, blobSha, commitSha))
    {
      ghost var s0 := repo.St();
      if Synced(s0) {
        CommitKeepsSynced(s0, filename, content, blobSha, commitSha);
      }
      CommitOutcome(s0, filename, content, blobSha, commitSha);
      CommitOnRef(s0, filename, content, blobSha, commitSha, rn);
      ghost var s1 := CommitState(s0, filename, content, blobSha, commitSha);
      var c := repo.WriteAndCommit(filename, content, blobSha, commitSha);
      assert repo.St() == s1;
      if c.Err? {
        commit, failure := None, Some(c.error);
      } else {
        commit, failure := Some(c.value), None;
      }
    }

    /** `write(filename, content, branch)`: switches to the branch (creating it when
        missing), commits the file when its content differs from what the branch holds,
        and switches back when the current branch changed. `blobSha` and `commitSha`
        stand for the ids the commit gets. */
    method Write(filename: string, content: Bytes, branch: Option<string>, blobSha: Sha, commitSha: Sha)
      returns (r: Result<SimpleGitResult<WriteData>>)
      requires repo.Valid() && IsObjectId(commitSha) && commitSha !in repo.store
      modifies repo
      ensures repo.Valid()
      ensures RefName(Target(branch)) !in old(repo.refs) && old(repo.HeadCommit()).None? ==>
        r == Err(HeadUnresolved) && unchanged(repo)
      ensures r.Ok? ==> repo.CurrentBranch() == old(repo.CurrentBranch())
      ensures r.Ok? ==>
        && r.value.data.file == filename && r.value.data.branch == Target(branch)
        && r.value.success == r.value.data.commit.Some?
        && RefName(Target(branch)) in repo.refs
        && r.value.message == (if CurrentBranchOf(Some(HeadText(Target(branch)))) != old(repo.CurrentBranch()) then Restored
                               else if r.value.success then Committed else UpToDate)
      ensures r.Ok? && r.value.data.commit.None? ==> repo.store == old(repo.store)
      ensures r.Ok? && r.value.data.commit.Some? ==>
        && r.value.data.commit.value == commitSha && commitSha in repo.store
        && ReadTree(repo.store[commitSha], filename) == Ok(content)
        && RefName(TrimEnd(Target(branch), Whitespace)) in repo.refs
        && repo.refs[RefName(TrimEnd(Target(branch), Whitespace))] == commitSha
      ensures r.Ok? && r.value.data.commit.Some? ==>
        && PlainPath(filename)
        && NextTreeOf(old(RefsWithBranch(Target(branch))), Some(HeadText(Target(branch))), old(repo.store),
                      filename, Blob(blobSha, content)) == Some(repo.store[commitSha])
      ensures r.Ok? && CurrentBranchOf(Some(HeadText(Target(branch)))) == old(repo.CurrentBranch()) ==>
        && repo.head == Some(HeadText(Target(branch)))
        && (TrimEnd(Target(branch), Whitespace) == Target(branch) ==>
              var t := repo.store[repo.refs[RefName(Target(branch))]];
              Mirrors(t, repo.files) && repo.index == IndexOf(t, Expected(t)))
      ensures r.Ok? && PlainPath(filename) ==>
        (r.value.data.commit.None? <==> TextOf(old(StoredContent(Target(branch), filename))) == Some(content))
      ensures r.Ok? && PlainPath(filename) && CR in content ==> r.value.data.commit.Some?
      ensures PlainPath(filename) && (r.Ok? || r == Err(DecodeError(filename))) ==>
        (r.Err? <==> NotText(old(StoredContent(Target(branch), filename))))
      ensures r.Ok? && PlainPath(filename) && TrimEnd(Target(branch), Whitespace) == Target(branch) ==>
        && StoredContent(Target(branch), filename)
           == (if r.value.data.commit.Some? then Some(content) else old(StoredContent(Target(branch), filename)))
        && (Utf8(content) ==> TextOf(StoredContent(Target(branch), filename)) == Some(Universal(content)))
      ensures r.Err? ==>
        r.error in {HeadUnresolved, UnsupportedPath(filename), PathConflict(filename),
                    NoSuchBranch(old(repo.CurrentBranch())), DecodeError(Strip(filename, {'/'}))}
      ensures r.Ok? || r.error != NoSuchBranch(old(repo.CurrentBranch())) ==>
        repo.CurrentBranch() == old(repo.CurrentBranch())
      ensures (&& r != Err(NoSuchBranch(old(repo.CurrentBranch()))) && r != Err(HeadUnresolved)
               && CurrentBranchOf(Some(HeadText(Target(branch)))) != old(repo.CurrentBranch())) ==>
        var rn := RefName(old(repo.CurrentBranch()));
        && rn in repo.refs && repo.head == Some(HeadText(old(repo.CurrentBranch())))
        && Mirrors(repo.store[repo.refs[rn]], repo.files)
        && repo.index == IndexOf(repo.store[repo.refs[rn]], Expected(repo.store[repo.refs[rn]]))
      ensures || (repo.refs == old(RefsWithBranch(Target(branch))) && repo.store == old(repo.store))
              || (&& repo.refs == old(RefsWithBranch(Target(branch)))[RefName(TrimEnd(Target(branch), Whitespace)) := commitSha]
                  && commitSha in repo.store && repo.store == old(repo.store)[commitSha := repo.store[commitSha]])
      ensures r.Ok? ==>
        repo.refs == if r.value.data.commit.None? then old(RefsWithBranch(Target(branch)))
                     else old(RefsWithBranch(Target(branch)))[RefName(TrimEnd(Target(branch), Whitespace)) := commitSha]
    {
      var b := Target(branch);
      var original := repo.CurrentBranch();
      ghost var head0 := repo.head;
      ghost var stored0 := StoredContent(b, filename);
      var st, commit, failure := SwitchAndCommit(filename, content, b, blobSha, commitSha);
      if st.Raised? {
        return Err(st.error);
      }
      var note := if commit.Some? then Committed else UpToDate;
      CurrentBranchAfterCheckout(b);
      if failure.None? && TrimEnd(b, Whitespace) == b {
        HeadRefAfterCheckout(b);
        assert CommitBaseOf(repo.refs, repo.head, repo.store) == Some(repo.store[repo.refs[RefName(b)]]);
      }
      st := SwitchBack(original, head0);
      if st.Raised? {
        return Err(st.error);
      }
      if repo.CurrentBranch() != CurrentBranchOf(Some(HeadText(b))) {
        note := Restored;
      }
      if failure.Some? {
        return Err(failure.value);
      }
      if PlainPath(filename) && TrimEnd(b, Whitespace) == b && Utf8(content) {
        WriteReadsBack(stored0, StoredContent(b, filename), content, commit.Some?);
      }
      return Ok(SimpleGitResult(commit.Some?, note, WriteData(filename, commit, b)));
    }

    /** The part of `write` between the two switches: checks out branch `b`, creating it
        when missing, and commits the file when its content differs. */
    method SwitchAndCommit(filename: string, content: Bytes, b: string, blobSha: Sha, commitSha: Sha)
      returns (st: Status, commit: Option<Sha>, failure: Option<Error>)
      requires repo.Valid() && IsObjectId(commitSha) && commitSha !in repo.store && Target(Some(b)) == b
      modifies repo
      ensures repo.Valid()
      ensures st.Raised? <==> RefName(b) !in old(repo.refs) && old(repo.HeadCommit()).None?
      ensures st.Raised? ==> st == Raised(HeadUnresolved) && unchanged(repo) && commit.None? && failure.None?
      ensures st.Done? ==> repo.head == Some(HeadText(b)) && RefName(b) in repo.refs
      ensures commit.Some? ==> failure.None?
      ensures failure.Some? ==>
        failure.value in {UnsupportedPath(filename), PathConflict(filename), HeadUnresolved, DecodeError(Strip(filename, {'/'}))}
      ensures commit.None? ==> repo.store == old(repo.store) && repo.refs == old(RefsWithBranch(b))
      ensures commit.Some? ==>
        && commit.value == commitSha && commitSha in repo.store
        && ReadTree(repo.store[commitSha], filename) == Ok(content)
        && repo.store == old(repo.store)[commitSha := repo.store[commitSha]]
        && repo.refs == old(RefsWithBranch(b))[RefName(TrimEnd(b, Whitespace)) := commitSha]
      ensures st.Done? && PlainPath(filename) ==>
        (failure == Some(DecodeError(filename)) <==> NotText(old(StoredContent(b, filename))))
      ensures st.Done? && PlainPath(filename) && failure.None? ==>
        (commit.None? <==> TextOf(old(StoredContent(b, filename))) == Some(content))
      ensures st.Done? && PlainPath(filename) && failure.None? && TrimEnd(b, Whitespace) == b ==>
        StoredContent(b, filename) == if commit.Some? then Some(content) else old(StoredContent(b, filename))
      ensures st.Done? && PlainPath(filename) && failure.None? && CR in content ==> commit.Some?
      ensures commit.Some? ==>
        && PlainPath(filename)
        && NextTreeOf(old(RefsWithBranch(b)), Some(HeadText(b)), old(repo.store), filename, Blob(blobSha, content))
           == Some(repo.store[commitSha])
      ensures st.Done? && failure.None? && TrimEnd(b, Whitespace) == b ==> Synced(repo.St())
    {
      ghost var stored := StoredContent(b, filename);
      commit, failure := None, None;
      st := SwitchOrCreate(b);
      if st.Raised? {
        return;
      }
      assert Found(ReadTree(repo.store[repo.refs[RefName(b)]], filename)) == stored;
      if CR in content {
        CarriageReturnNeverUpToDate(stored, content);
      }
      commit, failure := CommitIfChanged(filename, content, b, blobSha, commitSha);
    }

    /** `ls(directory, branch)` on the commits `log` of `repo.log()`, newest first, each
        with the paths of its tree (None where reading the tree raised): switches to the
        branch, lists the entries of the directory in name order with the last commit of
        each, and switches back, ignoring a failure to do so. */
    method Ls(directory: string, branch: string, log: seq<LogEntry>) returns (r: Result<seq<LsEntry>>)
      requires repo.Valid()
      modifies repo`head, repo`files, repo`dirs, repo`index
      ensures repo.Valid() && repo.refs == old(repo.refs) && repo.store == old(repo.store)
      ensures RefName(branch) !in repo.refs ==>
        r == Err(NoSuchBranch(branch))
        && repo.head == old(repo.head) && repo.files == old(repo.files)
        && repo.dirs == old(repo.dirs) && repo.index == old(repo.index)
      ensures RefName(branch) in repo.refs ==>
        var t := repo.store[repo.refs[RefName(branch)]];
        var d := if directory != "" then Strip(directory, {'/'}) else "";
        var dirs := CheckoutDirs(t, old(repo.dirs));
        var current := CurrentBranchOf(Some(HeadText(branch)));
        && (r.Err? <==> (d != "" && d !in dirs) || RefName(current) !in repo.refs)
        && (r.Err? ==> r.error == if d != "" && d !in dirs then NoSuchDirectory(d) else NoSuchBranch(current))
      ensures RefName(branch) in repo.refs && r.Ok? ==>
        var t := repo.store[repo.refs[RefName(branch)]];
        var d := if directory != "" then Strip(directory, {'/'}) else "";
        var dirs := CheckoutDirs(t, old(repo.dirs));
        var names := Listed(CheckoutFiles(t, old(repo.files)).Keys + dirs, d);
        && (forall i, j :: 0 <= i < j < |r.value| ==> Before(r.value[i].name, r.value[j].name))
        && (forall i :: 0 <= i < |r.value| ==> r.value[i].name in names && LogRow(log, d, dirs, r.value[i]))
        && (forall n :: n in names ==> exists i :: 0 <= i < |r.value| && r.value[i].name == n)
      ensures RefName(old(repo.CurrentBranch())) in repo.refs ==> repo.CurrentBranch() == old(repo.CurrentBranch())
      ensures RefName(branch) in repo.refs ==>
        var o := old(repo.CurrentBranch());
        var tb := repo.store[repo.refs[RefName(branch)]];
        if CurrentBranchOf(Some(HeadText(branch))) == o || RefName(o) !in repo.refs then
          repo.head == Some(HeadText(branch))
          && CheckedOut(tb, old(repo.files), old(repo.dirs), repo.files, repo.dirs, repo.index)
        else
          var t := repo.store[repo.refs[RefName(o)]];
          && repo.head == Some(HeadText(o))
          && repo.files == CheckoutFiles(t, CheckoutFiles(tb, old(repo.files)))
          && repo.dirs == CheckoutDirs(t, CheckoutDirs(tb, old(repo.dirs)))
          && Mirrors(t, repo.files) && repo.index == IndexOf(t, Expected(t))
    {
      var original := repo.CurrentBranch();
      ghost var head0 := repo.head;
      var st := repo.Checkout(branch);
      var d := if directory != "" then Strip(directory, {'/'}) else "";
      if st.Raised? {
        r := Err(NoSuchBranch(branch));
      } else if d != "" && d !in repo.dirs {
        r := Err(NoSuchDirectory(d));
      } else if repo.Log(None).Err? {
        r := Err(repo.Log(None).error);
      } else {
        var rows := ListDirectory(d, log);
        r := Ok(rows);
      }
      st := SwitchBack(original, head0);
    }

    /** The listing part of `ls` for directory `d` of the working tree, on the commits `log`. */
    method ListDirectory(d: string, log: seq<LogEntry>) returns (rows: seq<LsEntry>)
      ensures forall i, j :: 0 <= i < j < |rows| ==> Before(rows[i].name, rows[j].name)
      ensures forall i :: 0 <= i < |rows| ==>
        rows[i].name in Listed(repo.files.Keys + repo.dirs, d) && LogRow(log, d, repo.dirs, rows[i])
      ensures forall n :: n in Listed(repo.files.Keys + repo.dirs, d) ==> exists i :: 0 <= i < |rows| && rows[i].name == n
    {
      var order, last := FileLastCommit(log);
      var items := Items(order, last);
      var dirLast := DirLastCommit(items);
      var names := Sorted(Listed(repo.files.Keys + repo.dirs, d));
      rows := Listing(d, names, repo.dirs, items, last, dirLast);
      forall i | 0 <= i < |rows| ensures LogRow(log, d, repo.dirs, rows[i]) {
        RowFromLog(log, order, last, dirLast, d, names[i], repo.dirs, rows[i]);
      }
      forall n | n in Listed(repo.files.Keys + repo.dirs, d) ensures exists i :: 0 <= i < |rows| && rows[i].name == n {
        var i :| 0 <= i < |names| && names[i] == n;
        assert rows[i].name == n;
      }
    }
  }
}
