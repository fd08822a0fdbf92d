# TrueGit and SimpleGit, modelled in Dafny

The system is a small layer over the dulwich git library with two parts.

- `TrueGit` (truegit.py) wraps a repository and its working directory:
  - it reads the current branch from the HEAD file;
  - it lists, creates and deletes branches;
  - it checks out a branch by rewriting HEAD, pruning the working tree, writing the tree's files and rebuilding the index;
  - it reads a file from a branch's commit;
  - it writes a file and commits it, switching to a given branch first.
- `SimpleGit` (SimpleGit.py) sits on top of `TrueGit`:
  - `write` switches to a branch, creating it when missing, then commits the file if its content changed, then switches back;
  - `read` switches to a branch, reads the working file, then switches back;
  - `ls` lists a working-tree directory with the last commit of each entry, computed from the branch's history.

The model keeps the state in memory:

- the ref table and the HEAD file's text;
- the commit store, mapping a commit id to its root tree;
- the working files and directories, as relative posix paths;
- the index.

`Repo` (module `TrueGit`) is a class whose methods update those fields in place, as the Python object does. `SimpleGit` is a class over a `Repo`. Pure computations are functions:

- path splitting and stripping (module `Text`);
- Python's text-mode reading, strict UTF-8 decoding with universal newlines (module `TextMode`);
- tree flattening, lookup and insertion (module `GitTree`);
- the history aggregation of `ls` (module `History`).

Where the source computes step by step, the model is a method with loop invariants, proved against a function or predicate that states the result:

- the passes of `checkout`;
- `branches`;
- the two dictionaries `ls` builds;
- the sorted listing.

Commit ids cannot be computed without hashing. `write` therefore takes the new blob's id and the new commit's id as parameters. `ls` takes the branch's log, each commit with the paths of its tree, as a parameter.

## Model

| member | source | states |
|---|---|---|
| Text.Strip | truegit.py:87 | the result neither starts nor ends with a stripped character, and it is what the input leaves once a run of stripped characters is cut from each end: it occurs at some offset, everything before that offset and everything after the result is a stripped character |
| Text.StripClean | truegit.py:324 | stripping a string that neither starts nor ends with a stripped character leaves it unchanged |
| Text.SplitPiecesHaveNoSlash | truegit.py:324 | no piece of `split("/")` contains "/" |
| Text.JoinSplit | SimpleGit.py:372-375 | joining the pieces of a split with "/" gives the string back |
| Text.SplitJoin | SimpleGit.py:372-375 | splitting a join of "/"-free pieces gives the pieces back |
| Text.LastSegmentIsSuffix | truegit.py:92 | `split("/")[-1]` is the longest "/"-free suffix, and a "/" precedes it when it is shorter than the string |
| Text.LastSegmentFixed | truegit.py:107 | a name is its own last segment exactly when it contains no "/" |
| Text.BeforeIrreflexive | SimpleGit.py:388 | Python's string `<` never puts a name before itself |
| Text.BeforeTransitive | SimpleGit.py:388 | Python's string `<` is transitive |
| Text.BeforeTotal | SimpleGit.py:388 | of two different names, one comes before the other |
| GitTree.CollectTreePathsExact | truegit.py:177-190 | `collect_tree_paths` returns a path exactly when following it from the root ends on a blob, and never a path of a subtree |
| GitTree.CollectedIsBlob | truegit.py:177-190 | every collected path leads to a blob |
| GitTree.BlobIsCollected | truegit.py:177-190 | every path that leads to a blob is collected |
| GitTree.CollectedPathsArePrefixFree | truegit.py:177-190 | no collected path is a directory on the way to another collected path |
| GitTree.Expected | truegit.py:190 | every expected path of a commit's tree leads to a blob |
| GitTree.KeptDirIsNotExpected | truegit.py:234-235 | with the corrected guard, a directory the pass keeps is never an expected file path |
| GitTree.GuardAsWrittenKeepsExpectedDir | truegit.py:228-236 | for every working directory that is also an expected blob path, the guard as written keeps it, and a write of that blob conflicts with it |
| GitTree.GuardAsWrittenKeepsBlobPath | truegit.py:234 | as written, the guard keeps directory `a` when the tree has a blob `a`, and writing that blob then conflicts with the directory |
| GitTree.GuardReleasesBlobPath | truegit.py:234 | the corrected guard removes that directory, and the blob can then be written |
| TextMode.Universal | SimpleGit.py:281 | the text `read_text()` returns holds no carriage return and is no longer than the file |
| TextMode.UniversalFixed | SimpleGit.py:281 | newline translation leaves a text unchanged exactly when it holds no carriage return |
| TextMode.UniversalKeepsUtf8 | SimpleGit.py:281 | translating the newlines of decodable bytes gives decodable bytes, so what `read_text()` returns is text |
| TextMode.Utf8Concat | SimpleGit.py:281 | two decodable byte strings decode together |
| TextMode.EncodeIsOneSequence | SimpleGit.py:79 | the UTF-8 encoding of each character is one sequence the strict decoder accepts, with nothing left over |
| TextMode.EncodedIsUtf8 | SimpleGit.py:79-80 | what `write_text` stores for any string decodes, so the `read_text()` right after it never raises |
| GitTree.GuardNeedsSeparator | truegit.py:234 | the "/" in the guard matters: an expected `ab/x` keeps `ab` but not `a` |
| GitTree.RemovedBelowRemoved | truegit.py:241-242 | a directory below one the pass removes is removed with it |
| GitTree.BelowGitIsGit | truegit.py:196-200 | a path below `.git` is inside `.git` |
| GitTree.AboveGitIsGit | truegit.py:196-200 | a directory above a `.git` path is `.git` or is inside it |
| GitTree.AncestorsExact | truegit.py:261 | `parent.mkdir(parents=True)` creates exactly the directories on the way to the file |
| GitTree.NoWriteConflict | truegit.py:248-262 | once the pruning passes are done, no expected blob outside `.git` meets a file or directory in its way, and writing it keeps the tree pruned |
| GitTree.CheckoutFilesExact | truegit.py:202-265 | after checkout, the files outside `.git` are exactly the tree's blob paths with their bytes, and the files inside `.git` are untouched |
| GitTree.CheckoutDirsExact | truegit.py:227-265 | after checkout, the directories outside `.git` are exactly the parents of the tree's blobs, none of them at a blob path, and those inside `.git` are untouched |
| GitTree.PutThenLookup | truegit.py:382-394 | after a file is added to a tree, its path leads to the new blob, and any other path leads to a blob exactly when it did before, and to the same one |
| GitTree.PutBlobPaths | truegit.py:382-394 | adding a file makes its path a blob path; every other path is a blob path exactly when it was one before, with the same blob |
| GitTree.PutWellFormed | truegit.py:382-394 | adding a file under well-formed names keeps the tree well formed and non-empty |
| GitTree.PlainPathEnds | truegit.py:371 | a plain path is non-empty, has no "/" at either end, and is left as it is by `strip("/")` |
| TrueGit.BranchCommit | truegit.py:114-120 | `branch or current_branch()` names an existing ref exactly when the result is that ref's commit; otherwise the result is ValueError for that branch |
| TrueGit.CurrentBranchAfterCheckout | truegit.py:83-93 | after HEAD is written for `b` (line 168), `current_branch()` returns the last "/" segment of `b` with trailing whitespace removed |
| TrueGit.CurrentBranchRoundTrip | truegit.py:83-93 | `current_branch()` gives back `b` after a checkout of `b` exactly when `b` has no "/" and does not end in whitespace |
| TrueGit.CurrentBranchIsClean | truegit.py:83-93 | every name `current_branch()` returns comes back unchanged after a checkout of it |
| TrueGit.StripHeadText | truegit.py:168 | the stripped HEAD text after checkout of `b` is `ref: refs/heads/` followed by `b` with trailing whitespace removed |
| TrueGit.HeadRefAfterCheckout | truegit.py:168 | after checkout of `b`, HEAD is symbolic and names the ref of `b` with trailing whitespace removed |
| TrueGit.ReadTreeAgreesWithPaths | truegit.py:321-331 | reading a file from a commit succeeds exactly when the "/"-stripped path is one `collect_tree_paths` returns; it then gives that blob's bytes, and otherwise an error naming the path |
| TrueGit.ReadTreeStripped | truegit.py:324 | reading a path equals reading it stripped of "/" |
| TrueGit.CommittedTreeReads | truegit.py:382-394 | the tree of a commit made by `write` reads back the written bytes at the written path |
| TrueGit.ObjectIdHead | truegit.py:143 | a detached HEAD holding a commit id is no symbolic ref and designates that commit when it is stored |
| TrueGit.ValidAfterCommit | truegit.py:389-394 | recording a commit keeps every ref naming a stored commit whose tree is well formed |
| TrueGit.CommitMovesHead | truegit.py:356 | after a commit, HEAD designates it, HEAD names the same ref, and every other ref is unchanged |
| TrueGit.SymbolicHeadCommit | truegit.py:356 | a symbolic HEAD designates whatever its ref is moved to |
| TrueGit.CheckedOutFile | truegit.py:152-306 | after checkout, a path outside `.git` is a file exactly when the tree lists it, it holds that blob's bytes, and no directory stands at a listed path |
| TrueGit.CheckoutMirrors | truegit.py:247-265 | after checkout, the working files outside `.git` mirror the checked-out tree |
| TrueGit.CommitBaseOf | truegit.py:389-394 | a commit builds on HEAD's commit's tree, or on the empty tree when HEAD's branch is unborn; there is no base when a detached HEAD resolves to nothing |
| TrueGit.CommitState | truegit.py:382-394 | the state after add and commit keeps every ref naming a stored, well-formed commit |
| TrueGit.SelectState | truegit.py:375-380 | the branch handling of `write` keeps refs valid and does not touch the store |
| TrueGit.Selected | truegit.py:375-380 | the same, with no branch given |
| TrueGit.WriteState | truegit.py:359-397 | the state after `write` keeps every ref naming a stored, well-formed commit |
| TrueGit.CommitOutcome | truegit.py:382-394 | a successful add and commit returns the new commit, which HEAD designates. Its tree is the next-commit tree (HEAD's tree with the file put in) and reads back the data, the working file and the index entry are the new ones, the store gains exactly that commit under its fresh id (the id is new to the store, as a new commit's hash is), and HEAD's ref moves to it. A failed one is an unsupported path, a path conflict or an unresolved HEAD, with refs, HEAD and store unchanged. No ref other than HEAD's changes. |
| TrueGit.CommitOnRef | truegit.py:389-394 | with HEAD on ref `rn`, a successful commit moves `rn` to the new commit and leaves every other ref as it was |
| TrueGit.CommitErrors | truegit.py:382-394 | the unsupported-path error occurs exactly for non-plain paths; the only errors are that one, a path conflict and an unresolved HEAD |
| TrueGit.SelectFacts | truegit.py:375-380 | the branch handling fails exactly when the branch is missing and HEAD resolves to nothing. It then has checked out the branch (or done nothing when it is current), left existing refs and the store alone, and created only the branch, at HEAD's commit. |
| TrueGit.WriteCommits | truegit.py:359-397 | a successful `write` returns the new commit, which HEAD designates; its tree reads back the content at the stripped path, and the working file and the index hold it |
| TrueGit.WriteOnBranch | truegit.py:375-380 | after a successful `write(…, branch)` the branch exists and HEAD is on it. For a branch name `current_branch` reports unchanged, the branch now holds the new commit. |
| TrueGit.BranchReadBack | truegit.py:114-120 | with HEAD on a clean branch `b`, `current_branch()` is `b` and `log(b)` and `read(…, b)` start from `b`'s commit |
| TrueGit.WriteRefsAndStore | truegit.py:359-397 | for a commit id new to the store, `write` adds exactly that commit to the store (nothing on error). The only new ref is the created branch, at HEAD's old commit, and every ref other than HEAD's keeps its commit. |
| TrueGit.WriteErrors | truegit.py:359-397 | `write` raises only an unresolved HEAD, an unsupported path or a path conflict. A missing branch with an unresolved HEAD fails with nothing changed, and a non-plain path always fails, with the unsupported-path error only then. |
| TrueGit.PutExpected | truegit.py:382-394 | adding a file adds exactly its path to the expected paths and changes no other blob |
| TrueGit.PutMirrors | truegit.py:382-384 | writing the file keeps the working files mirroring the tree with the file added |
| TrueGit.PutIndex | truegit.py:387-388 | the index of the tree with the file added is the old index with that file's entry |
| TrueGit.CommitKeepsSynced | truegit.py:346-357 | when the working files and index mirror HEAD's tree, they still do after a commit, so the commit's tree is the index's content |
| TrueGit.SelectKeepsSynced | truegit.py:375-380 | the branch handling leaves the working files and index mirroring HEAD's tree |
| TrueGit.WriteKeepsSynced | truegit.py:359-397 | after a successful `write` the working files and the index mirror the new commit's tree |
| TrueGit.NextTreeContents | truegit.py:387-394 | the new commit's tree holds exactly the blobs of the tree it starts from, each unchanged, plus the written file at its path: a commit keeps the branch's other files |
| TrueGit.DeleteKeepsSynced | truegit.py:146-149 | deleting a branch other than the one HEAD names keeps the working files and index mirroring HEAD's tree |
| TrueGit.Repo.Branches | truegit.py:104-110 | one name per ref under `refs/heads/`, each its last "/" segment, every such ref once |
| TrueGit.Repo.CreateBranch | truegit.py:140-144 | the branch's ref now names HEAD's commit, whether or not it existed; when HEAD resolves to nothing, nothing changes and an error is reported |
| TrueGit.Repo.DeleteBranch | truegit.py:146-149 | the branch's ref is removed when present, and nothing else changes |
| TrueGit.Repo.Read | truegit.py:313-331 | ValueError for a missing branch. Otherwise the result is the blob at the stripped path of the branch's commit exactly when the tree lists that path and its bytes are UTF-8. It is UnicodeDecodeError exactly when the listed blob does not decode, and otherwise an error naming the path. |
| TrueGit.Repo.RemoveUnexpectedFiles | truegit.py:202-225 | the files that remain are those inside `.git` and those the tree lists |
| TrueGit.Repo.RemoveUnexpectedDirs | truegit.py:227-245 | the directories that remain are those inside `.git` and those with an expected file strictly beneath them (the corrected guard) |
| TrueGit.Repo.WriteBlob | truegit.py:258-262 | writing one blob fails exactly on a conflict and then changes nothing; otherwise it sets the file and creates its parent directories |
| TrueGit.Repo.WriteExpected | truegit.py:247-265 | on a pruned working tree, `checkout_tree` succeeds and adds exactly the tree's files outside `.git` and their parent directories |
| TrueGit.Repo.RebuildIndex | truegit.py:267-289 | the index holds exactly one entry per blob path of the tree, with its size and id |
| TrueGit.Repo.RemainingUnexpected | truegit.py:291-300 | the final pass finds exactly the files outside `.git` that the tree does not list |
| TrueGit.Repo.Checkout | truegit.py:152-306 | a missing branch raises ValueError and changes nothing. Otherwise HEAD names the branch and the working files, directories and index are exactly those the branch's tree determines. This uses the corrected directory guard; see Findings. |
| TrueGit.Repo.SelectBranch | truegit.py:375-380 | the branch handling of `write` fails exactly when the branch is missing and HEAD resolves to nothing, changing nothing; otherwise the new state is that of `SelectState` |
| TrueGit.Repo.CommitBlob | truegit.py:382-394 | the commit is made exactly when the file can be added to HEAD's tree. It stores that tree under the new id and moves HEAD's ref, or a detached HEAD, to it. Otherwise it reports a path conflict or an unresolved HEAD and changes nothing. |
| TrueGit.Repo.RecordCommit | truegit.py:389-394 | the store gains the new commit under an id it did not hold before, and HEAD's ref, or a detached HEAD, moves to it |
| TrueGit.Repo.WriteAndCommit | truegit.py:382-394 | the result and the new state are those of `CommitResult` and `CommitState`, whose properties `CommitOutcome`, `CommitOnRef`, `CommitErrors` and `CommitKeepsSynced` state |
| TrueGit.Repo.Write | truegit.py:359-397 | the result and the whole new state are those of `WriteResult` and `WriteState`, whose properties `WriteCommits`, `WriteOnBranch`, `WriteRefsAndStore`, `WriteErrors` and `WriteKeepsSynced` state |
| History.FirstListing | SimpleGit.py:347-363 | the position of the first commit of the log whose tree lists the path, or none when no commit lists it |
| History.FirstAt | SimpleGit.py:356-357 | a path listed by a commit and by none before it is first listed there |
| History.RankedAfter | SimpleGit.py:356-363 | appending the paths first met in one commit, in that commit's order, keeps the dict's insertion order the order of first meeting |
| History.AddUnseen | SimpleGit.py:356-363 | each path of the commit not yet in the dict is added with that commit's data, once, in the order of the commit's files; the keys already present keep their data and order |
| History.FileLastCommit | SimpleGit.py:345-365 | the dict holds exactly the paths some commit lists, each with the first commit of the log that lists it, in the order the loop meets them |
| History.FileCommit | SimpleGit.py:345-365 | a path has a last commit exactly when some commit lists it, and it is the first such commit |
| History.CreditDirs | SimpleGit.py:372-381 | the directories on the way to the file, the root included, hold its commit when they had none or an older one; every other directory is unchanged |
| History.LatestAdd | SimpleGit.py:380 | a later file takes over a directory only when its commit is strictly more recent |
| History.DirLastCommit | SimpleGit.py:369-381 | a directory is in the dict exactly when some file lies below it; it holds the most recent commit of those files, the first visited on a tie |
| History.MostRecentUnder | SimpleGit.py:409-416 | the fallback finds a commit exactly when some file lies below the directory, and it is the most recent, the first visited on a tie |
| History.BelowIsCredited | SimpleGit.py:372-381 | a file below a directory credits that directory |
| History.UnderIsCredited | SimpleGit.py:409-416 | every file the fallback looks at is credited to the directory, so the fallback finds nothing for a directory missing from `dir_last_commit` |
| History.Least | SimpleGit.py:388 | the name returned belongs to the set and comes before every other |
| History.Sorted | SimpleGit.py:388 | `sorted(…)` holds exactly the names of the set, in strictly increasing order |
| History.SortedIsDistinct | SimpleGit.py:388 | a sorted listing repeats no name |
| History.EntryNameExact | SimpleGit.py:388-398 | `iterdir` of a directory shows a path under a name exactly when the path is that name below the directory and the name has no "/" |
| History.ListedExact | SimpleGit.py:388-392 | the names listed are exactly the non-empty "/"-free names other than `.git` of the directory's entries |
| History.ShownRow | SimpleGit.py:418-438 | a row shows the commit data it was built from, or none for an entry without history |
| History.Listing | SimpleGit.py:388-438 | one row per name, in order. A file shows its `file_last_commit` entry. A directory shows its `dir_last_commit` entry, or else the most recent commit of the files below it. An entry without history shows the uncommitted message. |
| History.CreditedHistory | SimpleGit.py:369-381 | a directory is in `dir_last_commit` exactly when some file below it has history |
| History.RowFromLog | SimpleGit.py:384-438 | each row `ls` builds from its two dictionaries is the row the log determines for that entry |
| History.DirRowFromLog | SimpleGit.py:369-381 | a directory's row shows the commit of the file below it whose commit is most recent, the one met first on a tie |
| History.TieGoesToFirstSeen | SimpleGit.py:380 | among files below a directory with equally recent commits, the one whose commit the directory shows was met first |
| History.NotMoreRecent | SimpleGit.py:380 | no file below a directory has a commit more recent than the one the directory shows |
| SimpleGit.SimpleGit.SwitchBack | SimpleGit.py:90-94 | when the current branch differs from the original, it is checked out again. On success it is current, HEAD names it, and the working files, directories and index are those checkout of its tree leaves. When its ref is gone, ValueError is raised and nothing changes. Refs and store never change. |
| SimpleGit.SimpleGit.Read | SimpleGit.py:256-300 | a missing branch gives the "no branch" result with nothing changed. Otherwise the result names the stripped path. Checked in order, the outcome is: a directory is refused; a path below a file gives the I/O-error result; a file gives its text with universal newlines; nothing there is reported missing. A file that is not UTF-8 raises UnicodeDecodeError, which escapes before the switch back and leaves the branch checked out. Outside `.git`, that text is the branch's blob at the path, read in text mode. Apart from a decode error, the only error is ValueError when the original branch is gone, which also leaves the branch checked out. On success the original branch is current again, with HEAD, working files, directories and index those of checking out the branch and then the original; when no switch back is needed they are the branch's checkout. Refs and store never change. |
| SimpleGit.SimpleGit.ReadOnBranch | SimpleGit.py:263-295 | a missing branch gives the "no branch" result with nothing changed. Otherwise the branch is checked out, and the outcome is decided in this order: a directory is refused, and a path below a file gives the I/O-error result. A file gives its text, or a decode error when it is not UTF-8; with no file, the result is "missing". Outside `.git`, the content and the decode error are those of the branch's blob at the path. |
| SimpleGit.SimpleGit.ReadWorkingFile | SimpleGit.py:270-295 | a directory (the root included) is refused. A path below a working file gives the I/O-error result (NotADirectoryError). A file gives its text with universal newlines, or UnicodeDecodeError when it is not UTF-8, and anything else is reported missing. The text returned decodes and holds no carriage return. |
| SimpleGit.SimpleGit.SwitchOrCreate | SimpleGit.py:63-72 | the branch is checked out, created at HEAD's commit first when missing: HEAD names it, and the working files, directories and index are those checkout of its tree leaves. It fails, changing nothing, exactly when the branch is missing and HEAD resolves to nothing. Refs gain only the created branch, and the store is unchanged. |
| SimpleGit.SimpleGit.CommitIfChanged | SimpleGit.py:74-88 | `read` of the file raises UnicodeDecodeError exactly when the branch holds it with bytes that are not UTF-8, and then nothing is committed. Otherwise no commit is made exactly when the file's text, read with universal newlines, equals the content. When a commit is made, its tree is the branch's tree with the file added (all other files kept, by `NextTreeContents`), the store gains only it, and only the branch's ref moves to it. For a branch name without trailing whitespace, the working files and index then mirror the branch's tip. |
| SimpleGit.SimpleGit.CommitContent | SimpleGit.py:77-86 | the whole new state is `CommitState`: the file is written and staged, and it is committed unless adding it fails. The new commit's tree is HEAD's tree with the file added, the store gains only it, and only the branch's ref moves to it. Working files and index that mirrored HEAD's tree still mirror it. |
| SimpleGit.SimpleGit.SwitchAndCommit | SimpleGit.py:63-88 | the branch is selected or created as in `SwitchOrCreate`, then committed to as in `CommitIfChanged`. The refs are those with the branch created, plus the moved ref when a commit is made, and the commit's tree is the selected branch's tree with the file added. Content holding a carriage return is always committed. Without a commit, the branch keeps its file. |
| SimpleGit.SimpleGit.Write | SimpleGit.py:46-100 | the branch defaults to the class's default branch, and is created at HEAD's commit when missing. For a plain path, a branch file that is not UTF-8 makes `read` raise UnicodeDecodeError. Otherwise a commit is made exactly when the file's text, with universal newlines, differs from the content, so content holding a carriage return is committed on every call. The commit's tree is the branch's tree with the file added, every other file kept (`NextTreeContents`). Reading the file back then gives the content with universal newlines. The original branch is current again on every outcome except the error of its own ref being gone. When it was switched back to, the working files and index mirror its tree; when no switch back was needed, HEAD names the branch and the working files and index mirror its new tip. The store gains only the new commit, and the refs change only by the created branch and the moved one. |
| SimpleGit.SimpleGit.Ls | SimpleGit.py:304-448 | a missing branch raises ValueError with nothing changed, and a missing directory raises too. Otherwise the entries of the directory in the branch's tree, `.git` left out, are listed once each in name order, each with the row the log determines. The original branch is current again whenever its ref exists, with HEAD, working files, directories and index those of checking out the branch and then the original; otherwise the branch stays checked out. |
| SimpleGit.SimpleGit.ListDirectory | SimpleGit.py:341-440 | the rows list each entry of the working directory once, in name order, each with the row the log determines |
| SimpleGit.BelowFileNotExpected | SimpleGit.py:281 | after a checkout, a path outside `.git` that lies below a working file is no file of the tree, so `read` finds nothing there in the tree either |
| SimpleGit.WriteReadsBack | SimpleGit.py:76-86 | after `write`, the file reads as the content with universal newlines: the committed content, or the earlier file whose text already was the content |
| SimpleGit.CarriageReturnNeverUpToDate | SimpleGit.py:76-77 | content holding a carriage return never equals what `read` returns, so `write` never finds it up to date |

## Left out

- Text and bytes: the model treats file content as bytes, `seq<byte>`. A text is kept as its UTF-8 encoding, which is what `write_text` stores, and decoding is Python's strict UTF-8 (`TextMode`). SimpleGit's `read_text()` and `write_text()` take the platform's default encoding. The model assumes it is UTF-8, as it is on the usual Linux and macOS set-ups. A `str` holding a lone surrogate, which `write_text` refuses with UnicodeEncodeError, has no bytes in the model.
- SimpleGit.SimpleGit.Write: the `read_text()` of the just-written file (SimpleGit.py:80) is not a step of the model. `EncodedIsUtf8` shows it cannot raise on what `write_text` stored. Content is taken as given bytes, and the decode-error and read-back clauses speak of content that is UTF-8.
- Whitespace: `str.strip()` also removes non-ASCII whitespace (`\x85`, `\xa0`, `\u2028` and others). The model's `Whitespace` holds only the ASCII characters. So `CurrentBranchRoundTrip` and `CleanBranch` speak of branch names whose trailing non-ASCII whitespace they keep.
- Operating-system errors: failures of unlink, rmdir, rmtree and mkdir, permissions, symlinks and races are not modelled. The `WARN` branches of checkout are therefore never taken. The final check that raises RuntimeError (truegit.py:291-304) is modelled, and `Checkout` proves it finds nothing.
- dulwich internals: hashing, the object format and `porcelain.add`/`commit` are not modelled.
  - Blob and commit ids are parameters of `write`.
  - A commit is modelled as its root tree only.
  - The commit message, author and time are not stored; `ls` receives them with the log.
  - `log()`'s walk over parents is not modelled. `TrueGit.Repo.Log` checks the branch and returns the commit the walk starts from.
  - `ls` takes the walk's output as an input, with each commit's data and the paths of its tree.
- Commit contents: the new commit's tree is HEAD's tree with the written file added, or the empty tree on an unborn branch. `porcelain.commit` commits the index. The two agree whenever the working files and index mirror HEAD's tree. `CommitKeepsSynced`, `SelectKeepsSynced`, `WriteKeepsSynced` and `DeleteKeepsSynced` prove that commits, the branch handling of `write`, checkouts and deleting any branch other than HEAD's keep this. Two cases are not covered: a `Repo` constructed with an index that differs from HEAD's tree, and `delete_branch` of the branch HEAD names. After the latter HEAD's branch is unborn, so the model's next commit holds the written file alone, where `porcelain.commit` would commit the whole index.
- The index: entries keep only size and blob id. Stat fields (all zero in the source) and file modes are dropped.
- `switch`: SimpleGit calls `self.repo.switch`, which `TrueGit` does not define (truegit.py). The model reads it as `checkout`, whose ValueError on a missing branch SimpleGit expects.
- `_parse_commit` and `_get_tree_files`: SimpleGit's `ls` calls `self.repo._parse_commit` (SimpleGit.py:349) and `self.repo._get_tree_files` (SimpleGit.py:353), and `TrueGit` defines neither (truegit.py).
  - As written, the first raises AttributeError outside any `try` for every commit of the log, so `ls` of a branch with history fails.
  - The second is caught by the bare `except: continue` at SimpleGit.py:364, so no commit would contribute files.
  - The model takes the helpers' evident results as its input instead: each log entry carries the commit's data and the paths of its tree, or none where reading the tree raised.
- Default arguments: SimpleGit's `write(branch="main")` and `ls(branch="main")` defaults are not modelled; the caller passes the branch. The fallback of `write` and `read` to the default branch for an empty or absent branch is modelled (`Target`).
- `create_branch`: dulwich's `read_ref(b"HEAD")` returns HEAD's raw value. When HEAD is symbolic (as after every checkout), that value is `ref: refs/heads/<current>`, so the new ref would likely be a symbolic ref aliasing the current branch, and a later SimpleGit `write` to the new branch would then move the current branch too. This rests on dulwich code that is not part of this model and is not verified. The model instead points the new branch at the commit HEAD resolves to. When HEAD resolves to nothing, it reports an error and changes nothing.
- Paths given to SimpleGit `write`: the source writes and stages the unstripped filename unchecked. A leading "/" or a ".." can even reach outside the repository. The model accepts only plain relative paths outside `.git`, with no empty, "." or ".." segment, and reports `UnsupportedPath` for anything else.
- TrueGit.Repo.Write: the source resolves the joined path with `Path.resolve()` and writes wherever that lands, so "a//b" and "a/./b" are written as "a/b" and "x/../b" as "b". The model reports `UnsupportedPath` for every path with an empty, "." or ".." segment and does not promise the source's write for such names.
- TrueGit.CommitErrors: for the same reason, it states `UnsupportedPath` as the outcome for every non-plain path, where the source commits the `resolve()`d path.
- TrueGit.WriteErrors: for the same reason, it states that a non-plain path always fails, where the source writes and commits the `resolve()`d path.
- SimpleGit.SimpleGit.Read: the source reads the `Path.resolve()`d file, so "a//b", "a/./b" and "x/../b" name the file "a/b" or "b". The model looks the stripped name up as it is, so `Read` and `ReadOnBranch` report such a name missing where the source returns the file.
- Path normalisation in `ls`: pathlib collapses "a//b" and drops "a/." segments. The model takes the "/"-stripped directory as given, so such a name is reported missing.
- Directory crediting in `ls`: the model splits file paths on "/" where the source uses `Path(filepath).parts`. The two differ only for paths with empty segments, which no git tree produces.
- The date of a commit is an integer: the source's `int(…split()[-2])` parsing of the committer line is not modelled.
- Branch names with "/": `current_branch()` returns only the last segment, so on branch `feature/x` it reports `x`, as the source does. `WriteOnBranch` states the round trip only for names `current_branch` reports unchanged (`CleanBranch`). `SimpleGit.SimpleGit.Write` states the read-back and the mirrored working tree for names without trailing whitespace, which may contain "/"; its restore clauses are stated in terms of `current_branch`'s report.
- Operations outside this model: `__init__` (repository creation and the initial commit), `status`, `add`, `rm`, `commit` as a public call (its behaviour inside `write` is modelled), SimpleGit `delete` and the rest of SimpleGit beyond `write`, `read` and `ls`. The printed debug and status output and the texts of messages are also outside it; `Note` stands for each message.
- `ls` restore: a failure to switch back is ignored, as the source's bare `except: pass` does.

## Findings

| source | as written | input that shows it | evidently intended | confidence | as-written member | corrected member |
|---|---|---|---|---|---|---|
| truegit.py:234 | the directory pass keeps a directory when an expected path equals its own path (`p == rel_dir`), not only when one lies beneath it | branch A has directory `a` holding `a/x`; branch B's tree has a file `a`. checkout(B) keeps directory `a`, then `write_bytes` on `a` raises IsADirectoryError after HEAD was already rewritten (line 168). | keep a directory only when an expected path lies strictly beneath it, so the file can replace it | not executed | GitTree.GuardAsWrittenKeepsBlobPath | TrueGit.Repo.Checkout |
