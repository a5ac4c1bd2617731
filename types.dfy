/**
 * The values a jit repository is made of: working-tree files, staged index
 * entries, commits and the objects of the content store.
 */
module JitTypes {

  type Path = string
  /** A hex digest naming an object in the store. */
  type Key = string
  type Branch = string
  /** `time.time()` is opaque to the model: only equality of timestamps matters. */
  type Timestamp = int

  datatype Option<T> = None | Some(value: T)

  /**
   * A working-tree file as `hash_file` reads it: the UTF-8 text with line
   * endings translated to LF, or, when the bytes are not valid UTF-8, their
   * hex string with `binary` set.
   */
  datatype File = File(data: string, binary: bool)

  /** An index (and tree) entry: `{hash, timestamp, binary}` or `{deleted, timestamp}`. */
  datatype Entry =
    | Present(hash: Key, binary: bool, ts: Timestamp)
    | Deleted(ts: Timestamp)

  /** A commit record: a parent of `None` is JSON `null`. */
  datatype Commit = Commit(message: string, parent: Option<Key>, timestamp: Timestamp, tree: map<Path, Entry>)

  /** What a file under `.jit/objects` holds: blob text or a serialized commit. */
  datatype Obj = Blob(data: string) | CommitObj(commit: Commit)

  /** The pair `get_current_branch_and_commit` returns. */
  datatype HeadInfo = HeadInfo(branch: Option<Branch>, commit: Key)

  /** The six lists of `get_status`, as sets (their order follows `os.walk`). */
  datatype StatusReport = StatusReport(
    stagedNew: set<Path>,
    stagedModified: set<Path>,
    stagedDeleted: set<Path>,
    modified: set<Path>,
    deleted: set<Path>,
    untracked: set<Path>)

  /** What `add_file` reports. */
  datatype AddOutcome = StagedDeletion | NoMatch | IgnoredPath | StagedNew | StagedModified

  /** How `rebase_branch` ends; the source returns True exactly for Rebased and UpToDate. */
  datatype RebaseOutcome =
    | Rebased
    | UpToDate
    | NoSuchBranch
    | DetachedHead
    | CommitNotFound(key: Key)
    | NoCommonAncestor
    | CyclicHistory
  {
    predicate Succeeded() { this == Rebased || this == UpToDate }
  }

  /** The value at `p`, or None when `p` is absent. */
  function At<V>(m: map<Path, V>, p: Path): Option<V>
  {
    if p in m then Some(m[p]) else None
  }
}
