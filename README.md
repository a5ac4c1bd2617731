# jit repository state, modelled in Dafny

jit is a small version-control tool (`jit/main.py`). It keeps its repository under
`.jit/`:

- `.jit/objects`: a content-addressed store holding file blobs and JSON commit records;
- `.jit/index`: a staging index mapping paths to `{hash, timestamp, binary}` entries or
  `{deleted, timestamp}` markers;
- `.jit/refs/heads`: one file per branch, holding the commit key;
- `.jit/HEAD`: either `ref: refs/heads/<branch>` or a bare commit key.

This project models that state and the operations that change it as one Dafny class,
`RepoState.Repo`:

- `init`, `add` and `add .`, `rm`, `commit`, `status`, `branch`, `checkout`, `restore`,
  `clean` and `rebase`;
- HEAD resolution, the tracked-file filter and the ignore rules, as pure functions over the
  stored state.

Files:

- `types.dfy` (module `JitTypes`) holds the values: entries, commits, objects, the status
  report and the outcomes.
- `paths.dfy` (module `Paths`) holds the string functions the source takes from Python:
  `str.split`, `in`, `startswith` and `endswith`. It also holds `should_ignore_file`
  with its six default patterns. Lemmas spell these out: `IgnoreRules` states exactly which
  paths are ignored. `Join` is not used by the source; it is a proof device, the inverse
  that `JoinSplit` uses to show that splitting a path loses nothing.
- `head.dfy` (module `Head`) holds HEAD parsing, the tracked files of the tip commit, the
  write-once store and the parent-chain walk of `rebase`.
- `repo.dfy` (modules `RepoState` and `CheckoutCounterexample`) holds the repository
  class, its operations and the checkout counterexample.

The object store is a `map<Key, Obj>`:

- SHA-1 and `json.dumps` are opaque functions, fixed when the repository is created
  (`textDigest`, `rawDigest`, `serialize`).
- The class invariant `Valid()` says that the store is content-addressed: every key names
  the object whose text digests to it.
- The walk of `Repo.WalkToTip` succeeds only when the target tip is the parent of the
  oldest collected commit; that follows from the walk alone. Under this invariant and the
  write-once `store_object`, the replay then reproduces the original commits, so the store
  is unchanged and the current branch keeps its own tip (`Repo.Replay`,
  `Repo.RebaseBranch`).

The status of `get_status` is specified by the set-valued function `Repo.CurrentStatus`.
The three loops of `Repo.GetStatus` are proved to compute exactly it. `Repo.AddAllChanges`
is proved to leave nothing modified, deleted or untracked.

## Model

| member | source | states |
|---|---|---|
| RepoState.Repo.constructor | jit/main.py:47-76 | A fresh repository has an empty store and index, HEAD `ref: refs/heads/main`, and an empty `main` ref. `.gitignore` is written only when absent, with one default pattern per line. |
| RepoState.Repo.Reinit | jit/main.py:47-65 | Init over an existing repository empties the index and resets `main` to "". It keeps the other branches and every object. |
| RepoState.Repo.HashFile | jit/main.py:78-91 | The digest `hash_file` records: the UTF-8 text digest for a text file, the raw-byte digest for a binary one (definition; see `TextKeysAgree` and `BinaryNeverStored`). |
| RepoState.Repo.ObjectKey | jit/main.py:93-95 | The key `store_object` uses: the digest of the object's text, for blobs and commits alike (definition; `Valid()` and `StoreObject` are stated with it). |
| RepoState.Repo.TextKeysAgree | jit/main.py:89-95 | For a text file, the digest `hash_file` records is the key `store_object` files the blob under. |
| RepoState.Repo.BinaryNeverStored | jit/main.py:89-95 | Given that this binary file's digest is no text's digest (its bytes are not the UTF-8 bytes of any text, so equality would be a SHA-1 collision), the digest `hash_file` records for a binary file is never a key of the content-addressed store, so `restore_file_from_commit` can never find it (578-581). |
| RepoState.Repo.StoreObject | jit/main.py:93-102 | Returns the object's content key in every case. The object is written only when the key is absent, so no stored object ever changes and the store stays content-addressed. |
| Head.ExtendsTrans | jit/main.py:98-100 | An object that survives two write-once steps survives both. |
| Head.ResolveHead | jit/main.py:115-136 | The branch name is the last `/`-segment of the ref path, so it never contains `/`. A detached HEAD's commit is the HEAD text itself. An attached HEAD's commit is "" or the tip of some branch. |
| RepoState.Repo.CurrentHead | jit/main.py:115-136 | HEAD resolution over the repository's own HEAD and refs (definition; its properties are those of `Head.ResolveHead`). |
| Head.ResolveAttached | jit/main.py:122-131 | HEAD `ref: refs/heads/<b>` with a slash-free `b` resolves to branch `b` and to `b`'s ref, or to "" when the ref is absent. |
| Head.ResolveAttachedCommit | jit/main.py:123-131 | Whatever the branch name, the commit of `ref: refs/heads/<b>` is the content of ref `b`, and some branch name is returned. |
| Head.TrackedIn | jit/main.py:138-152 | Every tracked entry is a live (not deleted) entry. |
| RepoState.Repo.Tracked | jit/main.py:138-152 | The tracked files hold only live entries. |
| Paths.Split | jit/main.py:124 | Python's `str.split` on one separator character: the result always has at least one piece (so `[-1]` exists). |
| Paths.Contains | jit/main.py:157 | Python's substring test `sub in s` (definition; characterised by `ContainsOccurs`). |
| Paths.IsPrefix | jit/main.py:157 | Python's `startswith` (definition). |
| Paths.IsSuffix | jit/main.py:165 | Python's `endswith` (definition). |
| Paths.SplitConcat | jit/main.py:124 | Splitting `a/b` on `/` gives the pieces of `a` followed by the pieces of `b`. |
| Paths.JoinSplit | jit/main.py:124 | Splitting loses nothing: joining the pieces with the separator gives back the original string. (`Join` is a proof device, not a call of the source.) |
| Paths.SplitPiecesHaveNoSep | jit/main.py:162 | No piece of `path.split('/')` contains `/`. |
| Paths.SplitNoSep | jit/main.py:124 | A string without the separator splits into itself alone. |
| Paths.SplitPieceOccurs | jit/main.py:157-162 | A piece of a split is a substring of the split string. |
| Paths.ContainsOccurs | jit/main.py:157 | The substring test is true exactly when the substring occurs at some position. |
| Paths.ContainsExtend | jit/main.py:167 | A substring of `a` is also a substring of `a + b` and of `b + a`. |
| Paths.JoinContainsPiece | jit/main.py:162 | Every piece is a substring of the joined string, which with `JoinSplit` makes every path segment a substring of the path. (`Join` is a proof device.) |
| Paths.MatchesAnyExists | jit/main.py:160-168 | The pattern loop returns true exactly when some pattern of the list matches. |
| Paths.PatternFacts | jit/main.py:20-27 | What each default pattern tests: a `.jit`, `__pycache__`, `.vscode` or `.git` segment, a `.DS_Store` substring, or a `.pyc` suffix. |
| Paths.MatchesDefaults | jit/main.py:160-168 | Over the default list, the pattern loop is the disjunction of its six patterns. |
| Paths.JitFacts | jit/main.py:157 | A path starting with `.jit`, or with a `.jit` segment, contains `.jit`. |
| Paths.ShouldIgnore | jit/main.py:154-172 | `should_ignore_file` on a normalised path: the `.jit` prefix and substring tests, then the pattern loop (definition; characterised by `IgnoreRules`). |
| Paths.IgnoreRules | jit/main.py:154-172 | A path is ignored exactly when it contains `.jit` or `.DS_Store`, ends in `.pyc`, or has a `__pycache__`, `.vscode` or `.git` segment. |
| Paths.IgnoredSegment | jit/main.py:161-163 | A `__pycache__`, `.vscode` or `.git` segment anywhere in a path makes it ignored. |
| Paths.IgnoredDirectory | jit/main.py:161-163 | Anything under a `__pycache__`, `.vscode` or `.git` directory is ignored, at top level and under any parent. |
| RepoState.Repo.CurrentStatus | jit/main.py:299-349 | The status as six sets, one per list of `get_status` (definition; computed by `GetStatus`, shaped by `StatusPartition`). |
| RepoState.Repo.StatusPartition | jit/main.py:313-347 | The categories exclude each other as the branches of `get_status` do. The staged sets split part of the index. Modified and untracked files are distinct working-tree files, and untracked ones are neither staged nor tracked. Deleted files are tracked files in neither the index nor the working tree. |
| RepoState.Repo.GetStatus | jit/main.py:299-349 | The three loops compute exactly the specified status. The index loop gives staged new, modified and deleted. The working-tree walk gives modified against the index, else against the tip, and untracked. The tracked loop gives deleted. |
| RepoState.Repo.AddFile | jit/main.py:174-213 | For a missing path: a deletion is staged when the path is tracked, and otherwise no match is reported with nothing changed. An ignored path is left alone. Any other file has its blob stored (write-once) and its digest, binary flag and timestamp staged, and is reported as modified when tracked or new otherwise. Tracked files never change. The store gains at most that file's blob. |
| RepoState.Repo.StagedIsClean | jit/main.py:199-205 | A file whose staged entry is its current content is neither modified nor untracked in the next status. |
| RepoState.Repo.AddEach | jit/main.py:218-225 | Staging a set of stageable paths gives each its `add_file` entry, leaves every other index entry alone, stores every blob and keeps every old object. Every new key holds the blob of one of those paths, so the tracked files stay the same. |
| RepoState.Repo.AddAllChanges | jit/main.py:215-228 | Modified and untracked files get their current digest staged, and deleted files get a deletion staged. No other entry changes. Afterwards the status has no modified, deleted or untracked file. The blob of every modified and untracked file is stored. Every new key holds the blob of a working-tree file, and the tracked files stay the same. |
| RepoState.Repo.RemoveFile | jit/main.py:230-258 | An untracked path without force changes nothing and returns false. Otherwise the file leaves the working tree. The result is true exactly for a tracked path, and only then is a deletion staged, which shows as staged-deleted. |
| RepoState.Repo.CommitChanges | jit/main.py:260-297 | An empty index or a detached HEAD changes nothing. Otherwise the commit, with the whole index as tree and the previous tip (or null) as parent, is stored under its key. When that key is new, the stored object is a commit with that tree and parent. The branch HEAD names moves to that key and the index is emptied, so nothing is staged afterwards. When the key is new and HEAD is `ref: refs/heads/<branch>`, the tracked files afterwards are exactly the live entries of the committed index. |
| Head.TrackedAfterBlob | jit/main.py:197-211 | Storing a blob never changes which files are tracked. |
| Head.TrackedAfterCommit | jit/main.py:284-289 | After the branch moves to a new commit, the tracked files are exactly the live entries of its tree. |
| RepoState.Repo.CreateBranch | jit/main.py:532-543 | Refuses an existing name. Otherwise the new ref holds HEAD's commit, or "" on an unborn branch. HEAD and the tracked files do not change. |
| RepoState.Repo.RestoreFile | jit/main.py:572-594 | A deleted entry removes the file. A present entry writes the stored text with the entry's binary flag, or reports the object missing and writes nothing. No other path changes. |
| RepoState.Repo.RemoveAll | jit/main.py:644-649 | The removal loop deletes exactly the given paths from the working tree and nothing else. |
| RepoState.Repo.SyncTree | jit/main.py:642-652 | The files of the removal set are gone. Every path of the tree is restored or deleted as its entry says. No other path changes. |
| RepoState.Repo.CheckoutBranch | jit/main.py:596-655 | Refusing an existing branch under create, or a missing branch, changes nothing. A non-empty index is refused after the `-b` branch has been created, and that new branch is kept; without `-b` the refusal changes nothing. The current branch returns true unchanged. Otherwise HEAD moves to the branch. An empty branch or a missing commit leaves the working tree alone. A found commit has its tree synced with an empty removal set, because HEAD was rewritten first. |
| Head.TrackedAfterSwitchInTarget | jit/main.py:621-642 | Once HEAD names the target branch, every tracked file lies in the target tree, so the removal set is empty. |
| CheckoutCounterexample.CheckoutKeepsStaleFile | jit/main.py:621-642 | Take `main` tracking `a.txt` and `feature` tracking only `b.txt`. The removal set computed after the switch is empty, whereas the old branch's tracked files would remove `a.txt`. |
| RepoState.Repo.CheckoutBranchFixed | jit/main.py:596-655 | As `checkout_branch`, including the `-b` branch that survives the non-empty-index refusal, but the tracked files are read before HEAD moves. Files tracked on the old branch and absent from the target tree are removed. |
| RepoState.Repo.RestoreCommit | jit/main.py:657-690 | Succeeds exactly when the key names a commit. It then removes the tracked files the commit's tree lacks and restores the tree. HEAD and refs stay. |
| RepoState.Repo.AddCommitRestore | jit/main.py:657-690 | The round trip of add, commit and restore. A text file that is staged and committed, then edited or deleted, is restored to its committed content, given collision-free SHA-1 and `json.dumps`. The one case not covered is a commit key that already held a blob. |
| RepoState.Repo.CleanUntrackedFiles | jit/main.py:692-715 | Without untracked files, or without force and confirmation, nothing changes. Otherwise exactly the untracked files are deleted and none remain. |
| RepoState.Repo.UntrackedGone | jit/main.py:710-715 | Once the untracked files of a working tree are removed from it, the status has no untracked file left. |
| Head.WalkedStep | jit/main.py:737-745 | One more step of the parent walk keeps the walk well formed: each collected key names its commit, and each commit's parent is the next key. |
| RepoState.Repo.WalkToTip | jit/main.py:735-749 | The walk from HEAD's commit collects distinct commits whose parents chain. It succeeds exactly when it reaches the target tip. It stops with "commit not found" at a key without a commit, with "no common ancestor" at a null or empty parent, and at a repeated key (cyclic history). |
| RepoState.Repo.Replay | jit/main.py:751-757 | On a walk that reached the target tip, replaying oldest first reproduces the original commits. The store is unchanged and the new tip is HEAD's own commit. |
| RepoState.Repo.RebaseBranch | jit/main.py:717-763 | It fails with a missing target branch exactly when the target is absent, with a detached HEAD exactly when HEAD is detached, and reports up to date exactly when the tips are equal. A failed walk leaves refs alone. Any outcome leaves the store unchanged. A success writes the current branch with the replayed tip, which is its own tip. `Succeeded()`, the source's True, holds only once the target exists and HEAD is attached. |

## Left out

- The command-line front end (`main`, argument parsing) and the display-only operations
  (`show_status`, `show_log`, `show_all_logs`, `list_branches`, the colour helpers) are not
  modelled: they only print.
- File I/O is modelled by state:
  - `read_index` and `write_index` read and write the `index` field whole;
  - a missing or unparsable index file is not modelled (the index always parses);
  - a missing HEAD file is not modelled (HEAD always exists).
- SHA-1 and `json.dumps` are opaque functions. The model assumes that a commit read back
  from the store serializes to the text it was stored from. It does not rule out two
  different objects sharing a digest, except in `RepoState.Repo.AddCommitRestore`, which assumes
  both functions collision-free.
- UTF-8 detection in `hash_file` is the `binary` flag of a file, whose data is the hex
  string for binary files. Decoding and `bytes.fromhex` are not modelled.
- Line endings are not modelled. `hash_file` reads text in universal-newline mode
  (jit/main.py:80-81), so CRLF and CR become LF before hashing, and
  `restore_file_from_commit` writes LF back (593-594). `File.data` of a text file is that
  translated text, so `RepoState.Repo.AddCommitRestore` gives back the translated text, not
  necessarily the original bytes.
- `time.time()` is a timestamp parameter, one per operation.
- `os.path.normpath` is not modelled: paths are taken as already normalised. The order of
  `os.walk` and of dictionary iteration is not modelled either, so the status lists are
  sets.
- RepoState.Repo.RemoveFile, RepoState.Repo.RemoveAll: `os.remove` is taken to succeed. The error branches for
  a removal that raises are not modelled.
- RepoState.Repo.CleanUntrackedFiles: the interactive `[y/N]` prompt is the `confirmed` parameter.
- `strip()` of HEAD and ref file contents is not modelled: stored texts carry no
  surrounding whitespace.
- Head.ResolveHead: a HEAD ref outside `refs/heads/` is treated as an absent ref, and so
  resolves to "". The branch-name parse is kept exactly (the last `/` segment).
- Head.CommitAt: a key holding a blob is treated as naming no commit. In the source, a blob
  whose text is not JSON makes `json.loads` raise. A blob whose text is a JSON object is read
  as a commit, with its `tree` field or an empty tree. So `restore <key of a blob holding {}>`
  makes `restore_commit` delete every tracked file and return True (jit/main.py:663-690),
  where `RestoreCommit` returns false and changes nothing. Checkout and the tracked-file
  filter read such a blob the same way in the source. The rebase walk does too
  (jit/main.py:742-745): a JSON-object blob is walked as a commit whose parent,
  `.get('parent')`, is usually None, which ends in "no common ancestor"; a non-JSON blob
  raises. `RepoState.Repo.WalkToTip` reports `CommitNotFound` in both cases.
- Directories are not modelled: `work` maps file paths to files, while `os.path.exists` is
  also true for a directory. So `add` on a directory raises in `hash_file` in the source,
  where `AddFile` reports no match or stages a deletion. `create_branch("")` is refused in
  the source because `refs/heads/` exists, where `CreateBranch` creates ref "".
- RepoState.Repo.CreateBranch: branch names containing `/` would need a directory that the source
  does not create; the model accepts them as plain ref names.
- RepoState.Repo.WalkToTip: on a cyclic parent chain the source loops forever; the model stops at
  the first repeated key with the CyclicHistory outcome.
- RepoState.Repo.Replay: intermediate objects of a rebase are not rewritten, because the replayed
  commits are the originals.
- RepoState.Repo.RestoreFile: binary files are restored through the key `hash_file` recorded, which
  is the raw-byte digest, while `store_object` files their hex text under the text digest.
  The model keeps this lookup as written. `RepoState.Repo.BinaryNeverStored` shows that when a
  binary file's raw-byte digest equals no text's digest (its bytes are not any text's UTF-8
  bytes, so only a SHA-1 collision would break this), that digest names no stored object, so
  the file is never restored.
- Crash atomicity of multi-file updates (for example the commit, ref and index writes of
  `commit_changes`) is not modelled.

## Findings

| source | as written | input that shows it | evidently intended | confidence | as-written member | corrected member |
|---|---|---|---|---|---|---|
| jit/main.py:621-642 | `checkout_branch` rewrites HEAD before it calls `get_tracked_files`, so "tracked files" are those of the target branch and `files_to_remove` is always empty | `main` at a commit tracking `a.txt`, `feature` at a commit tracking only `b.txt`; `checkout feature` leaves `a.txt` in the working tree | remove the files tracked on the branch being left that the target tree lacks, as `restore_commit` does at jit/main.py:668-672 | not executed | RepoState.Repo.CheckoutBranch, CheckoutCounterexample.CheckoutKeepsStaleFile | RepoState.Repo.CheckoutBranchFixed |
