/**
 * Reading the position of the repository: HEAD resolution
 * (`get_current_branch_and_commit`) and the tracked-file filter
 * (`get_tracked_files`), as functions of the stored state.
 */
module Head {
  import opened JitTypes
  import opened Paths

  const RefPrefix: string := "ref: "
  const HeadsDir: string := "refs/heads/"

  /** The HEAD text that attaches the repository to `b`. */
  function HeadFor(b: Branch): string
  {
    RefPrefix + HeadsDir + b
  }

  /**
   * `get_current_branch_and_commit`: a HEAD starting with `ref: ` names the
   * last `/`-segment of the ref path as the branch and reads the ref file
   * (an absent file gives ""); any other HEAD is itself the commit. So a
   * branch name is one path segment, and the commit is a branch tip, "", or
   * the detached HEAD text.
   */
  function ResolveHead(head: string, refs: map<Branch, Key>): (r: HeadInfo)
    ensures r.branch.Some? ==> '/' !in r.branch.value
    ensures r.branch.None? ==> r.commit == head
    ensures r.branch.Some? ==> r.commit == "" || r.commit in refs.Values
  {
    if IsPrefix(RefPrefix, head) then
      var refPath := head[|RefPrefix|..];
      var pieces := Split(refPath, '/');
      var commit :=
        if IsPrefix(HeadsDir, refPath) && refPath[|HeadsDir|..] in refs then refs[refPath[|HeadsDir|..]] else "";
      SplitPiecesHaveNoSep(refPath, '/');
      HeadInfo(Some(pieces[|pieces| - 1]), commit)
    else
      HeadInfo(None, head)
  }

  /** Python's `if not branch_name`: a missing or empty branch name counts as detached. */
  predicate Attached(h: HeadInfo)
  {
    h.branch.Some? && h.branch.value != ""
  }

  /** The commit stored under `k`, if `k` names a commit object. */
  function CommitAt(objects: map<Key, Obj>, k: Key): Option<Commit>
  {
    if k in objects && objects[k].CommitObj? then Some(objects[k].commit) else None
  }

  /** The entries of a tree that are not marked deleted. */
  function LiveEntries(tree: map<Path, Entry>): map<Path, Entry>
  {
    map p | p in tree && tree[p].Present? :: tree[p]
  }

  /** `get_tracked_files`: the live entries of the tree of the commit HEAD resolves to. */
  function TrackedIn(head: string, refs: map<Branch, Key>, objects: map<Key, Obj>): (r: map<Path, Entry>)
    ensures forall p :: p in r ==> r[p].Present?
  {
    var c := ResolveHead(head, refs).commit;
    if c != "" && CommitAt(objects, c).Some? then LiveEntries(CommitAt(objects, c).value.tree) else map[]
  }

  /**
   * An attached HEAD written by init or checkout resolves to its own branch
   * and to that branch's ref, or to "" when the ref is absent.
   */
  lemma ResolveAttached(b: Branch, refs: map<Branch, Key>)
    requires '/' !in b
    ensures ResolveHead(HeadFor(b), refs) == HeadInfo(Some(b), if b in refs then refs[b] else "")
  {
    var refPath := HeadFor(b)[|RefPrefix|..];
    assert refPath == "refs/heads" + ['/'] + b;
    SplitConcat("refs/heads", b, '/');
    SplitNoSep(b, '/');
    var pieces := Split(refPath, '/');
    assert pieces[|pieces| - 1] == b;
    ResolveAttachedCommit(b, refs);
  }

  /** Whatever the branch name, the commit of `ref: refs/heads/<b>` is read from ref `b`. */
  lemma ResolveAttachedCommit(b: Branch, refs: map<Branch, Key>)
    ensures ResolveHead(HeadFor(b), refs).commit == if b in refs then refs[b] else ""
    ensures ResolveHead(HeadFor(b), refs).branch.Some?
  {
    var refPath := HeadFor(b)[|RefPrefix|..];
    assert refPath == HeadsDir + b;
    assert refPath[|HeadsDir|..] == b;
  }

  /** Write-once insertion, as `store_object` does it: an existing key keeps its object. */
  function StoreAt(objects: map<Key, Obj>, k: Key, o: Obj): map<Key, Obj>
  {
    if k in objects then objects else objects[k := o]
  }

  /** Every object of `before` is still in `after`, unchanged. */
  ghost predicate Extends(before: map<Key, Obj>, after: map<Key, Obj>)
  {
    forall j :: j in before ==> j in after && after[j] == before[j]
  }

  /** Extension is transitive: what survives two steps survives both. */
  lemma ExtendsTrans(a: map<Key, Obj>, b: map<Key, Obj>, c: map<Key, Obj>)
    requires Extends(a, b) && Extends(b, c)
    ensures Extends(a, c)
  {
  }

  /** Storing a blob never changes which files are tracked. */
  lemma TrackedAfterBlob(head: string, refs: map<Branch, Key>, objects: map<Key, Obj>, k: Key, data: string)
    ensures TrackedIn(head, refs, StoreAt(objects, k, Blob(data))) == TrackedIn(head, refs, objects)
  {
    var c := ResolveHead(head, refs).commit;
    assert CommitAt(StoreAt(objects, k, Blob(data)), c) == CommitAt(objects, c);
  }

  /**
   * After a commit `k` with tree `c.tree` moves the branch HEAD is attached to,
   * the tracked files are the live entries of that tree and nothing else:
   * a path committed earlier but not staged again is no longer tracked.
   */
  lemma TrackedAfterCommit(b: Branch, refs: map<Branch, Key>, objects: map<Key, Obj>, k: Key, c: Commit)
    requires k != "" && k in objects && objects[k] == CommitObj(c)
    ensures TrackedIn(HeadFor(b), refs[b := k], objects) == LiveEntries(c.tree)
  {
    ResolveAttachedCommit(b, refs[b := k]);
  }

  /**
   * After checkout has rewritten HEAD to `b`, the tracked files are those of
   * `b`'s own tip, so "tracked but not in the target tree" is always empty.
   */
  lemma TrackedAfterSwitchInTarget(b: Branch, refs: map<Branch, Key>, objects: map<Key, Obj>, c: Commit)
    requires b in refs && CommitAt(objects, refs[b]) == Some(c)
    ensures TrackedIn(HeadFor(b), refs, objects).Keys <= c.tree.Keys
  {
    ResolveAttachedCommit(b, refs);
  }

  /**
   * A walk down the parent chain from `start` that has not met `stop` yet:
   * `keys[i]` names the commit `commits[i]`, and each commit's parent is the
   * next key.
   */
  ghost predicate Walked(objects: map<Key, Obj>, keys: seq<Key>, commits: seq<Commit>, start: Key, stop: Key)
  {
    && |keys| == |commits|
    && (|keys| > 0 ==> keys[0] == start)
    && (forall i :: 0 <= i < |keys| ==> keys[i] in objects && objects[keys[i]] == CommitObj(commits[i]))
    && (forall i :: 0 <= i < |keys| ==> keys[i] != "" && keys[i] != stop)
    && (forall i :: 0 <= i < |keys| - 1 ==> commits[i].parent == Some(keys[i + 1]))
  }

  /** No key occurs twice. */
  ghost predicate Distinct(keys: seq<Key>)
  {
    forall i, j :: 0 <= i < j < |keys| ==> keys[i] != keys[j]
  }

  /** Appending a new key keeps the keys distinct. */
  lemma DistinctSnoc(keys: seq<Key>, k: Key)
    requires Distinct(keys) && k !in keys
    ensures Distinct(keys + [k])
  {
  }

  /** Where the walk goes next: `start` before any step, then the last commit's parent. */
  function NextInWalk(start: Key, commits: seq<Commit>): Option<Key>
  {
    if |commits| == 0 then Some(start) else commits[|commits| - 1].parent
  }

  /** One more step of the walk: the commit under the next key joins the walk. */
  lemma WalkedStep(objects: map<Key, Obj>, keys: seq<Key>, commits: seq<Commit>, start: Key, stop: Key, k: Key, c: Commit)
    requires Walked(objects, keys, commits, start, stop)
    requires NextInWalk(start, commits) == Some(k)
    requires k in objects && objects[k] == CommitObj(c) && k != "" && k != stop
    ensures Walked(objects, keys + [k], commits + [c], start, stop)
    ensures NextInWalk(start, commits + [c]) == c.parent
  {
    var keys', commits' := keys + [k], commits + [c];
    forall i | 0 <= i < |keys'| - 1
      ensures commits'[i].parent == Some(keys'[i + 1])
    {
      if i == |keys| - 1 {
        assert commits'[i] == commits[|commits| - 1];
      } else {
        assert commits'[i] == commits[i] && keys'[i + 1] == keys[i + 1];
      }
    }
  }
}
