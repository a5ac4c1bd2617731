/**
 * The repository state machine of jit/main.py: the object store, the staging
 * index, the branch refs, HEAD and the working tree, and the operations that
 * move between states.
 */
module RepoState {
  import opened JitTypes
  import opened Paths
  import opened Head

  /** The `.gitignore` text `create_gitignore` writes: each pattern on its own line. */
  function GitignoreText(patterns: seq<string>): string
    decreases |patterns|
  {
    if |patterns| == 0 then "" else patterns[0] + "\n" + GitignoreText(patterns[1..])
  }

  /** The working tree after `init_jit`: `.gitignore` is written only when absent. */
  function WithGitignore(work: map<Path, File>): map<Path, File>
  {
    if ".gitignore" in work then work else work[".gitignore" := File(GitignoreText(IgnorePatterns), false)]
  }

  class Repo {
    /** `.jit/objects`: each key names the object whose text digests to it. */
    var objects: map<Key, Obj>
    /** `.jit/index`, read and written whole by `read_index` / `write_index`. */
    var index: map<Path, Entry>
    /** The files under `.jit/refs/heads`: "" is a branch without commits. */
    var refs: map<Branch, Key>
    /** `.jit/HEAD`. */
    var head: string
    /** The working directory. */
    var work: map<Path, File>

    /** SHA-1 of a string's UTF-8 bytes, as a hex digest. */
    const textDigest: string -> Key
    /** SHA-1 of the bytes a hex string spells. */
    const rawDigest: string -> Key
    /** `json.dumps` of a commit record. */
    const serialize: Commit -> string

    /** The text of an object file. */
    function ObjText(o: Obj): string
    {
      match o
      case Blob(d) => d
      case CommitObj(c) => serialize(c)
    }

    /** The key `store_object` files an object under (jit/main.py:94-95): text and hex alike by their UTF-8 bytes. */
    function ObjectKey(o: Obj): Key
    {
      textDigest(ObjText(o))
    }

    /** The digest `hash_file` records (jit/main.py:89): binary data by its raw bytes. */
    function HashFile(f: File): Key
    {
      if f.binary then rawDigest(f.data) else textDigest(f.data)
    }

    /** The store is content-addressed: every object sits under its own key. */
    ghost predicate Valid()
      reads this`objects
    {
      forall k :: k in objects ==> k == ObjectKey(objects[k])
    }

    /** `init_jit` in a directory without a repository; `work` is what the directory already holds. */
    constructor (textDigest: string -> Key, rawDigest: string -> Key, serialize: Commit -> string, work: map<Path, File>)
      ensures Valid()
      ensures this.textDigest == textDigest && this.rawDigest == rawDigest && this.serialize == serialize
      ensures objects == map[] && index == map[]
      ensures refs == map["main" := ""] && head == HeadFor("main")
      ensures this.work == WithGitignore(work)
    {
      this.textDigest := textDigest;
      this.rawDigest := rawDigest;
      this.serialize := serialize;
      objects := map[];
      index := map[];
      refs := map["main" := ""];
      head := HeadFor("main");
      this.work := WithGitignore(work);
    }

    /** `init_jit` over an existing repository: objects and other branches survive, `main` is emptied. */
    method Reinit()
      requires Valid()
      modifies this`index, this`refs, this`head, this`work
      ensures Valid()
      ensures index == map[] && head == HeadFor("main")
      ensures refs == old(refs)["main" := ""]
      ensures work == WithGitignore(old(work))
    {
      head := HeadFor("main");
      index := map[];
      refs := refs["main" := ""];
      work := WithGitignore(work);
    }

    /** `get_current_branch_and_commit`. */
    function CurrentHead(): HeadInfo
      reads this`head, this`refs
    {
      ResolveHead(head, refs)
    }

    /** `get_tracked_files`. */
    function Tracked(): (r: map<Path, Entry>)
      reads this`head, this`refs, this`objects
      ensures forall p :: p in r ==> r[p].Present?
    {
      TrackedIn(head, refs, objects)
    }

    /** `hash_file` on a text file and `store_object` on its text agree on the key. */
    lemma TextKeysAgree(f: File)
      requires !f.binary
      ensures HashFile(f) == ObjectKey(Blob(f.data))
    {
    }

    /**
     * `hash_file` records a binary file under the digest of its raw bytes,
     * while `store_object` files every object under the digest of its text.
     * A binary file's bytes are not the UTF-8 bytes of any text, so short of
     * a SHA-1 collision their digest is no text's digest, and the recorded
     * digest of the file never names a stored object.
     */
    lemma BinaryNeverStored(f: File)
      requires Valid()
      requires forall y :: rawDigest(f.data) != textDigest(y)
      requires f.binary
      ensures HashFile(f) !in objects
    {
    }

    /**
     * `store_object`: returns the object's key in every case; writes the
     * object only when the key is absent, so no stored object ever changes.
     */
    method StoreObject(o: Obj) returns (k: Key)
      requires Valid()
      modifies this`objects
      ensures Valid()
      ensures k == ObjectKey(o)
      ensures objects == StoreAt(old(objects), k, o)
      ensures k in objects && Extends(old(objects), objects)
    {
      k := ObjectKey(o);
      if k !in objects {
        objects := objects[k := o];
      }
    }

    // -----------------------------------------------------------------
    // Status
    // -----------------------------------------------------------------

    /** A working-tree file that differs from its index entry, or, when unstaged, from its tracked entry. */
    predicate IsModified(p: Path)
      reads this`head, this`refs, this`objects, this`index, this`work
      requires p in work
    {
      var tracked := Tracked();
      !ShouldIgnore(p) &&
      if p in index then index[p].Present? && HashFile(work[p]) != index[p].hash
      else p in tracked && HashFile(work[p]) != tracked[p].hash
    }

    /** The status `get_status` computes (jit/main.py:299-349), as sets. */
    function CurrentStatus(): StatusReport
      reads this
    {
      var tracked := Tracked();
      StatusReport(
        stagedNew := (set p | p in index && index[p].Present? && p !in tracked),
        stagedModified := (set p | p in index && index[p].Present? && p in tracked && index[p].hash != tracked[p].hash),
        stagedDeleted := (set p | p in index && index[p].Deleted?),
        modified := (set p | p in work && IsModified(p)),
        deleted := (set p | p in tracked && p !in index && p !in work),
        untracked := (set p | p in work && !ShouldIgnore(p) && p !in index && p !in tracked))
    }

    /**
     * The categories of a status exclude each other as the branches of
     * `get_status` do: the staged ones split the index, modified and
     * untracked are working-tree files, and deleted files are tracked files
     * found neither in the index nor in the working tree.
     */
    lemma StatusPartition()
      ensures var st := CurrentStatus();
        && st.stagedNew + st.stagedModified + st.stagedDeleted <= index.Keys
        && st.stagedNew !! st.stagedModified && st.stagedNew !! st.stagedDeleted && st.stagedModified !! st.stagedDeleted
        && st.modified + st.untracked <= work.Keys && st.modified !! st.untracked
        && st.untracked !! index.Keys && st.untracked !! Tracked().Keys
        && st.deleted <= Tracked().Keys && st.deleted !! index.Keys && st.deleted !! work.Keys
    {
    }

    /** `get_status`: the index loop, the working-tree walk and the tracked loop. */
    method GetStatus() returns (st: StatusReport)
      ensures st == CurrentStatus()
    {
      var tracked := Tracked();
      var stagedNew, stagedModified, stagedDeleted := {}, {}, {};
      var todo := index.Keys;
      while todo != {}
        invariant todo <= index.Keys
        invariant forall p :: p in stagedNew <==> p in index && p !in todo && index[p].Present? && p !in tracked
        invariant forall p :: p in stagedModified <==>
          p in index && p !in todo && index[p].Present? && p in tracked && index[p].hash != tracked[p].hash
        invariant forall p :: p in stagedDeleted <==> p in index && p !in todo && index[p].Deleted?
        decreases todo
      {
        var p :| p in todo;
        var info := index[p];
        if info.Deleted? {
          stagedDeleted := stagedDeleted + {p};
        } else if p !in tracked {
          stagedNew := stagedNew + {p};
        } else if info.hash != tracked[p].hash {
          stagedModified := stagedModified + {p};
        }
        todo := todo - {p};
      }

      var modified, untracked := {}, {};
      var files := work.Keys;
      while files != {}
        invariant files <= work.Keys
        invariant forall p :: p in modified <==> p in work && p !in files && IsModified(p)
        invariant forall p :: p in untracked <==>
          p in work && p !in files && !ShouldIgnore(p) && p !in index && p !in tracked
        decreases files
      {
        var p :| p in files;
        if ShouldIgnore(p) {
        } else if p in index {
          if index[p].Present? && HashFile(work[p]) != index[p].hash {
            modified := modified + {p};
          }
        } else if p in tracked {
          if HashFile(work[p]) != tracked[p].hash {
            modified := modified + {p};
          }
        } else {
          untracked := untracked + {p};
        }
        files := files - {p};
      }

      var deleted := {};
      var paths := tracked.Keys;
      while paths != {}
        invariant paths <= tracked.Keys
        invariant forall p :: p in deleted <==> p in tracked && p !in paths && p !in index && p !in work
        decreases paths
      {
        var p :| p in paths;
        if p !in index && p !in work {
          deleted := deleted + {p};
        }
        paths := paths - {p};
      }

      st := StatusReport(stagedNew, stagedModified, stagedDeleted, modified, deleted, untracked);
    }

    // -----------------------------------------------------------------
    // Staging
    // -----------------------------------------------------------------

    /**
     * `add_file`: a missing path stages a deletion when tracked and is
     * otherwise reported as no match; an ignored path is left alone; any
     * other path has its blob stored and its digest staged.
     */
    method AddFile(p: Path, ts: Timestamp) returns (outcome: AddOutcome)
      requires Valid()
      modifies this`objects, this`index
      ensures Valid()
      ensures Tracked() == old(Tracked())
      ensures p !in work && p in old(Tracked()) ==>
        outcome == StagedDeletion && index == old(index)[p := Deleted(ts)] && objects == old(objects)
      ensures p !in work && p !in old(Tracked()) ==>
        outcome == NoMatch && index == old(index) && objects == old(objects)
      ensures p in work && ShouldIgnore(p) ==>
        outcome == IgnoredPath && index == old(index) && objects == old(objects)
      ensures p in work && !ShouldIgnore(p) ==>
        && outcome == (if p in old(Tracked()) then StagedModified else StagedNew)
        && index == old(index)[p := Present(HashFile(work[p]), work[p].binary, ts)]
        && objects == StoreAt(old(objects), ObjectKey(Blob(work[p].data)), Blob(work[p].data))
      ensures old(Stageable(p)) ==> index == old(index)[p := StagedEntry(p, ts)]
      ensures Extends(old(objects), objects)
      ensures p in work && !ShouldIgnore(p) ==> ObjectKey(Blob(work[p].data)) in objects
      ensures forall k :: k in objects ==> k in old(objects) || (p in work && k == ObjectKey(Blob(work[p].data)))
    {
      if p !in work {
        if p in Tracked() {
          index := index[p := Deleted(ts)];
          outcome := StagedDeletion;
        } else {
          outcome := NoMatch;
        }
        return;
      }
      if ShouldIgnore(p) {
        outcome := IgnoredPath;
        return;
      }
      var f := work[p];
      var fileHash := HashFile(f);
      ghost var before := objects;
      var _ := StoreObject(Blob(f.data));
      TrackedAfterBlob(head, refs, before, ObjectKey(Blob(f.data)), f.data);
      index := index[p := Present(fileHash, f.binary, ts)];
      outcome := if p in Tracked() then StagedModified else StagedNew;
    }

    /** A file whose staged entry is its current content is neither modified nor untracked. */
    lemma StagedIsClean(p: Path, ts: Timestamp)
      requires p in work && !ShouldIgnore(p)
      requires At(index, p) == Some(StagedEntry(p, ts))
      ensures p !in CurrentStatus().modified && p !in CurrentStatus().untracked
    {
      assert !IsModified(p);
    }

    /** A path `add_file` stages: an existing non-ignored file, or a missing tracked one. */
    predicate Stageable(p: Path)
      reads this`head, this`refs, this`objects, this`work
    {
      (p in work && !ShouldIgnore(p)) || (p !in work && p in Tracked())
    }

    /** The entry `add_file` stages for such a path. */
    function StagedEntry(p: Path, ts: Timestamp): Entry
      reads this`work
    {
      if p in work then Present(HashFile(work[p]), work[p].binary, ts) else Deleted(ts)
    }

    /** Stages every path of `paths` in turn, as the loops of `add_all_changes` do. */
    method AddEach(paths: set<Path>, ts: Timestamp)
      requires Valid()
      requires forall p :: p in paths ==> Stageable(p)
      modifies this`objects, this`index
      ensures Valid()
      ensures Tracked() == old(Tracked())
      ensures Extends(old(objects), objects)
      ensures forall p :: p in paths && p in work ==> ObjectKey(Blob(work[p].data)) in objects
      ensures forall k :: k in objects && k !in old(objects) ==>
        exists q :: q in paths && q in work && k == ObjectKey(Blob(work[q].data)) && objects[k] == Blob(work[q].data)
      ensures forall p :: At(index, p) == if p in paths then Some(StagedEntry(p, ts)) else At(old(index), p)
    {
      var todo, done := paths, {};
      while todo != {}
        invariant todo + done == paths && todo !! done
        invariant Valid()
        invariant Tracked() == old(Tracked())
        invariant Extends(old(objects), objects)
        invariant forall p :: p in done && p in work ==> ObjectKey(Blob(work[p].data)) in objects
        invariant forall k :: k in objects && k !in old(objects) ==>
          exists q :: q in done && q in work && k == ObjectKey(Blob(work[q].data)) && objects[k] == Blob(work[q].data)
        invariant forall p :: At(index, p) == if p in done then Some(StagedEntry(p, ts)) else At(old(index), p)
        decreases todo
      {
        var p :| p in todo;
        assert Stageable(p);
        ghost var before := objects;
        var _ := AddFile(p, ts);
        ExtendsTrans(old(objects), before, objects);
        forall q | q in done && q in work
          ensures ObjectKey(Blob(work[q].data)) in objects
        {
          assert ObjectKey(Blob(work[q].data)) in before;
        }
        forall k | k in objects && k !in old(objects)
          ensures exists q :: q in done + {p} && q in work && k == ObjectKey(Blob(work[q].data)) && objects[k] == Blob(work[q].data)
        {
          if k !in before {
            assert p in done + {p} && p in work && k == ObjectKey(Blob(work[p].data)) && objects[k] == Blob(work[p].data);
          } else {
            var q :| q in done && q in work && k == ObjectKey(Blob(work[q].data)) && before[k] == Blob(work[q].data);
            assert q in done + {p};
          }
        }
        todo, done := todo - {p}, done + {p};
      }
    }

    /**
     * `add_all_changes`: stages every modified, deleted and untracked path of
     * the status; afterwards the working tree has nothing left to add.
     */
    method AddAllChanges(ts: Timestamp)
      requires Valid()
      modifies this`objects, this`index
      ensures Valid()
      ensures Extends(old(objects), objects)
      ensures forall p :: p in old(CurrentStatus()).modified + old(CurrentStatus()).untracked ==>
        At(index, p) == Some(Present(HashFile(work[p]), work[p].binary, ts))
      ensures forall p :: p in old(CurrentStatus()).deleted ==> At(index, p) == Some(Deleted(ts))
      ensures forall p :: p !in old(CurrentStatus()).modified + old(CurrentStatus()).deleted + old(CurrentStatus()).untracked ==>
        At(index, p) == At(old(index), p)
      ensures CurrentStatus().modified == {} && CurrentStatus().deleted == {} && CurrentStatus().untracked == {}
      ensures forall p :: p in old(CurrentStatus()).modified + old(CurrentStatus()).untracked ==>
        ObjectKey(Blob(work[p].data)) in objects
      ensures forall k :: k in objects && k !in old(objects) ==>
        exists p :: p in work && k == ObjectKey(Blob(work[p].data)) && objects[k] == Blob(work[p].data)
      ensures Tracked() == old(Tracked())
    {
      var status := GetStatus();
      ghost var index0 := index;
      var changed := status.modified + status.deleted + status.untracked;
      AddEach(changed, ts);
      forall p | p in work
        ensures !IsModified(p)
      {
        assert At(index, p) == if p in changed then Some(StagedEntry(p, ts)) else At(index0, p);
      }
      assert CurrentStatus().modified == {};
      forall p | p in Tracked() && p !in work
        ensures p in index
      {
        assert At(index, p) == if p in changed then Some(StagedEntry(p, ts)) else At(index0, p);
      }
      assert CurrentStatus().deleted == {};
      forall p | p in work && !ShouldIgnore(p) && p !in Tracked()
        ensures p in index
      {
        assert At(index, p) == if p in changed then Some(StagedEntry(p, ts)) else At(index0, p);
      }
      assert CurrentStatus().untracked == {};
    }

    /**
     * `remove_file`: an untracked path without force is refused; otherwise
     * the file leaves the working tree, and a tracked path has its deletion
     * staged. Only a tracked path returns true.
     */
    method RemoveFile(p: Path, force: bool, ts: Timestamp) returns (ok: bool)
      requires Valid()
      modifies this`work, this`index
      ensures Valid()
      ensures ok <==> p in old(Tracked())
      ensures p !in old(Tracked()) && !force ==> work == old(work) && index == old(index)
      ensures p in old(Tracked()) || force ==> work == old(work) - {p}
      ensures index == if p in old(Tracked()) then old(index)[p := Deleted(ts)] else old(index)
      ensures ok ==> p in CurrentStatus().stagedDeleted
    {
      var isTracked := p in Tracked();
      if !isTracked && !force {
        return false;
      }
      if p in work {
        work := work - {p};
      }
      if isTracked {
        index := index[p := Deleted(ts)];
        return true;
      }
      return false;
    }

    // -----------------------------------------------------------------
    // History
    // -----------------------------------------------------------------

    /** The commit `commit_changes` builds: the whole index as its tree, "" as a null parent. */
    function NewCommit(message: string, ts: Timestamp): Commit
      reads this`head, this`refs, this`index
    {
      var tip := CurrentHead().commit;
      Commit(message, if tip == "" then None else Some(tip), ts, index)
    }

    /**
     * `commit_changes`: refuses an empty index and a detached HEAD; otherwise
     * stores the commit, points the current branch at it and empties the index.
     */
    method CommitChanges(message: string, ts: Timestamp) returns (r: Option<Key>)
      requires Valid()
      modifies this`objects, this`refs, this`index
      ensures Valid()
      ensures |old(index)| == 0 || !Attached(old(CurrentHead())) ==>
        r == None && objects == old(objects) && refs == old(refs) && index == old(index)
      ensures |old(index)| != 0 && Attached(old(CurrentHead())) ==>
        var c := old(NewCommit(message, ts));
        && r == Some(ObjectKey(CommitObj(c)))
        && objects == StoreAt(old(objects), r.value, CommitObj(c))
        && refs == old(refs)[old(CurrentHead()).branch.value := r.value]
        && index == map[]
      ensures r.Some? && r.value !in old(objects) ==>
        && objects[r.value].CommitObj?
        && objects[r.value].commit.tree == old(index)
        && objects[r.value].commit.parent == (if old(CurrentHead()).commit == "" then None else Some(old(CurrentHead()).commit))
      ensures r.Some? ==> CurrentStatus().stagedNew == {} && CurrentStatus().stagedModified == {} && CurrentStatus().stagedDeleted == {}
      ensures r.Some? && r.value != "" && r.value !in old(objects) && old(head) == HeadFor(old(CurrentHead()).branch.value) ==>
        Tracked() == LiveEntries(old(index))
    {
      if |index| == 0 {
        return None;
      }
      var info := CurrentHead();
      if !Attached(info) {
        return None;
      }
      var c := NewCommit(message, ts);
      ghost var before := objects;
      var k := StoreObject(CommitObj(c));
      if k != "" && k !in before && head == HeadFor(info.branch.value) {
        TrackedAfterCommit(info.branch.value, refs, objects, k, c);
      }
      refs := refs[info.branch.value := k];
      index := map[];
      r := Some(k);
    }

    /** `create_branch`: refuses an existing name; otherwise the new ref holds HEAD's commit, "" when unborn. */
    method CreateBranch(name: Branch) returns (ok: bool)
      modifies this`refs
      ensures ok <==> name !in old(refs)
      ensures refs == if ok then old(refs)[name := old(CurrentHead()).commit] else old(refs)
      ensures CurrentHead() == old(CurrentHead()) && Tracked() == old(Tracked())
    {
      if name in refs {
        return false;
      }
      var info := CurrentHead();
      refs := refs[name := info.commit];
      return true;
    }

    // -----------------------------------------------------------------
    // Working-tree reconciliation
    // -----------------------------------------------------------------

    /** What `restore_file_from_commit` leaves at `p` for the tree entry `e`. */
    function RestoredAt(before: map<Path, File>, p: Path, e: Entry, objs: map<Key, Obj>): Option<File>
    {
      match e
      case Deleted(_) => None
      case Present(h, b, _) => if h in objs then Some(File(ObjText(objs[h]), b)) else At(before, p)
    }

    /**
     * The file sync of checkout and restore: `removal` is gone, every tree
     * path is restored or deleted, and no other path changed.
     */
    ghost predicate Synced(before: map<Path, File>, after: map<Path, File>, tree: map<Path, Entry>, removal: set<Path>, objs: map<Key, Obj>)
    {
      && (forall p :: p in removal ==> p !in after)
      && (forall p :: p in tree ==> At(after, p) == RestoredAt(before, p, tree[p], objs))
      && (forall p :: p !in removal && p !in tree ==> At(after, p) == At(before, p))
    }

    /**
     * `restore_file_from_commit`: a deleted entry removes the file; a present
     * one writes the stored text with the entry's binary flag, or reports the
     * object missing and writes nothing.
     */
    method RestoreFile(p: Path, e: Entry) returns (found: bool)
      modifies this`work
      ensures found <==> e.Deleted? || e.hash in objects
      ensures At(work, p) == RestoredAt(old(work), p, e, objects)
      ensures forall q :: q != p ==> At(work, q) == At(old(work), q)
    {
      if e.Deleted? {
        if p in work {
          work := work - {p};
        }
        return true;
      }
      if e.hash !in objects {
        return false;
      }
      var data := ObjText(objects[e.hash]);
      work := work[p := File(data, e.binary)];
      return true;
    }

    /** The removal loops of checkout, restore and clean: each path that exists is deleted. */
    method RemoveAll(ps: set<Path>)
      modifies this`work
      ensures work == old(work) - ps
    {
      var todo := ps;
      while todo != {}
        invariant todo <= ps
        invariant work == old(work) - (ps - todo)
        decreases todo
      {
        var p :| p in todo;
        if p in work {
          work := work - {p};
        }
        todo := todo - {p};
      }
    }

    /** Deletes `removal` from the working tree, then restores every path of `tree`. */
    method SyncTree(tree: map<Path, Entry>, removal: set<Path>)
      requires removal !! tree.Keys
      modifies this`work
      ensures Synced(old(work), work, tree, removal, objects)
    {
      RemoveAll(removal);
      var todo := tree.Keys;
      while todo != {}
        invariant todo <= tree.Keys
        invariant forall p :: p in removal ==> At(work, p) == None
        invariant forall p :: p in tree && p !in todo ==> At(work, p) == RestoredAt(old(work), p, tree[p], objects)
        invariant forall p :: p !in removal && (p !in tree || p in todo) ==> At(work, p) == At(old(work), p)
        decreases todo
      {
        var p :| p in todo;
        assert p !in removal;
        var _ := RestoreFile(p, tree[p]);
        todo := todo - {p};
      }
    }

    /**
     * `checkout_branch` as written: HEAD is rewritten before the tracked
     * files are read, so the set of files to remove is computed against the
     * target tree itself and is always empty.
     */
    method CheckoutBranch(name: Branch, create: bool) returns (ok: bool)
      requires Valid()
      modifies this`refs, this`head, this`work
      ensures Valid()
      ensures create && name in old(refs) ==> !ok && refs == old(refs) && head == old(head) && work == old(work)
      ensures refs == if create && name !in old(refs) then old(refs)[name := old(CurrentHead()).commit] else old(refs)
      ensures name !in refs ==> !ok && head == old(head) && work == old(work)
      ensures !(create && name in old(refs)) && name in refs && |index| != 0 ==>
        !ok && head == old(head) && work == old(work)
      ensures !(create && name in old(refs)) && name in refs && |index| == 0 && old(CurrentHead()).branch == Some(name) ==>
        ok && head == old(head) && work == old(work)
      ensures !(create && name in old(refs)) && name in refs && |index| == 0 && old(CurrentHead()).branch != Some(name) ==>
        && head == HeadFor(name)
        && (refs[name] == "" ==> ok && work == old(work))
        && (refs[name] != "" && CommitAt(objects, refs[name]).None? ==> !ok && work == old(work))
        && (refs[name] != "" && CommitAt(objects, refs[name]).Some? ==>
              ok && Synced(old(work), work, CommitAt(objects, refs[name]).value.tree, {}, objects))
    {
      if create {
        if name in refs {
          return false;
        }
        var _ := CreateBranch(name);
      }
      if name !in refs {
        return false;
      }
      if |index| != 0 {
        return false;
      }
      var info := CurrentHead();
      if info.branch == Some(name) {
        return true;
      }
      var commitHash := refs[name];
      head := HeadFor(name);
      if commitHash == "" {
        return true;
      }
      var target := CommitAt(objects, commitHash);
      if target.None? {
        return false;
      }
      var tree := target.value.tree;
      var tracked := Tracked().Keys;
      TrackedAfterSwitchInTarget(name, refs, objects, target.value);
      var removal := tracked - tree.Keys;
      assert removal == {};
      SyncTree(tree, removal);
      return true;
    }

    /**
     * `checkout_branch` with the tracked files read before HEAD moves, so
     * that files tracked on the old branch and absent from the target tree
     * are removed.
     */
    method CheckoutBranchFixed(name: Branch, create: bool) returns (ok: bool)
      requires Valid()
      modifies this`refs, this`head, this`work
      ensures Valid()
      ensures create && name in old(refs) ==> !ok && refs == old(refs) && head == old(head) && work == old(work)
      ensures refs == if create && name !in old(refs) then old(refs)[name := old(CurrentHead()).commit] else old(refs)
      ensures name !in refs ==> !ok && head == old(head) && work == old(work)
      ensures !(create && name in old(refs)) && name in refs && |index| != 0 ==>
        !ok && head == old(head) && work == old(work)
      ensures !(create && name in old(refs)) && name in refs && |index| == 0 && old(CurrentHead()).branch == Some(name) ==>
        ok && head == old(head) && work == old(work)
      ensures !(create && name in old(refs)) && name in refs && |index| == 0 && old(CurrentHead()).branch != Some(name) ==>
        && head == HeadFor(name)
        && (refs[name] == "" ==> ok && work == old(work))
        && (refs[name] != "" && CommitAt(objects, refs[name]).None? ==> !ok && work == old(work))
        && (refs[name] != "" && CommitAt(objects, refs[name]).Some? ==>
              var tree := CommitAt(objects, refs[name]).value.tree;
              ok && Synced(old(work), work, tree, old(Tracked()).Keys - tree.Keys, objects))
    {
      if create {
        if name in refs {
          return false;
        }
        var _ := CreateBranch(name);
      }
      if name !in refs {
        return false;
      }
      if |index| != 0 {
        return false;
      }
      var info := CurrentHead();
      if info.branch == Some(name) {
        return true;
      }
      var commitHash := refs[name];
      var tracked := Tracked().Keys;
      head := HeadFor(name);
      if commitHash == "" {
        return true;
      }
      var target := CommitAt(objects, commitHash);
      if target.None? {
        return false;
      }
      var tree := target.value.tree;
      SyncTree(tree, tracked - tree.Keys);
      return true;
    }

    /**
     * `restore_commit`: the same file sync against any commit, removing the
     * currently tracked files the commit's tree lacks; HEAD and refs stay.
     */
    method RestoreCommit(k: Key) returns (ok: bool)
      requires Valid()
      modifies this`work
      ensures Valid()
      ensures ok <==> CommitAt(objects, k).Some?
      ensures !ok ==> work == old(work)
      ensures ok ==>
        var tree := CommitAt(objects, k).value.tree;
        Synced(old(work), work, tree, old(Tracked()).Keys - tree.Keys, objects)
    {
      var target := CommitAt(objects, k);
      if target.None? {
        return false;
      }
      var tree := target.value.tree;
      var tracked := Tracked().Keys;
      SyncTree(tree, tracked - tree.Keys);
      return true;
    }

    /**
     * The round trip of add, commit and restore: a text file that is staged
     * and committed, then edited (`edit` is `Some`) or deleted (`None`),
     * comes back when that commit is restored.
     * SHA-1 and `json.dumps` are taken to be collision-free; the one case left
     * open is a commit key that already held a blob.
     */
    method AddCommitRestore(p: Path, ts: Timestamp, message: string, edit: Option<File>) returns (k: Option<Key>, ok: bool)
      requires Valid()
      requires forall x, y :: textDigest(x) == textDigest(y) ==> x == y
      requires forall c, d :: serialize(c) == serialize(d) ==> c == d
      requires p in work && !work[p].binary && !ShouldIgnore(p)
      requires Attached(CurrentHead())
      modifies this`objects, this`index, this`refs, this`work
      ensures Valid()
      ensures k.Some? && k.value in objects
      ensures objects[k.value].CommitObj? ==> ok && At(work, p) == Some(old(work)[p])
    {
      var f := work[p];
      TextKeysAgree(f);
      var _ := AddFile(p, ts);
      ghost var c := NewCommit(message, ts);
      assert c.tree[p] == Present(HashFile(f), false, ts);
      k := CommitChanges(message, ts);
      assert HashFile(f) in objects;
      work := if edit.Some? then work[p := edit.value] else work - {p};
      ok := RestoreCommit(k.value);
      if objects[k.value].CommitObj? {
        assert serialize(objects[k.value].commit) == serialize(c);
        assert CommitAt(objects, k.value) == Some(c);
        assert ObjText(objects[HashFile(f)]) == f.data;
      }
    }

    /**
     * `clean_untracked_files`: with `force`, or with the prompt answered
     * `y` (`confirmed`), every untracked file is deleted.
     */
    method CleanUntrackedFiles(force: bool, confirmed: bool)
      modifies this`work
      ensures old(CurrentStatus()).untracked == {} || !(force || confirmed) ==> work == old(work)
      ensures old(CurrentStatus()).untracked != {} && (force || confirmed) ==>
        work == old(work) - old(CurrentStatus()).untracked && CurrentStatus().untracked == {}
    {
      var status := GetStatus();
      var untracked := status.untracked;
      if untracked == {} {
        return;
      }
      if !force && !confirmed {
        return;
      }
      RemoveAll(untracked);
      UntrackedGone(old(work));
    }

    /** With the untracked files of `before` removed, nothing is left untracked. */
    lemma UntrackedGone(before: map<Path, File>)
      requires work == before - (set p | p in before && !ShouldIgnore(p) && p !in index && p !in Tracked())
      ensures CurrentStatus().untracked == {}
    {
    }

    /**
     * The walk of `rebase_branch` (jit/main.py:735-749) from `start` towards
     * `tip`: it stops at a missing commit object, at a null or empty parent,
     * at `tip`, or, where the source would loop forever, at a key it has
     * already visited.
     */
    method WalkToTip(start: Key, tip: Key) returns (outcome: RebaseOutcome, keys: seq<Key>, commits: seq<Commit>)
      requires start != tip
      ensures Walked(objects, keys, commits, start, tip)
      ensures Distinct(keys)
      ensures outcome == Rebased || outcome.CommitNotFound? || outcome == NoCommonAncestor || outcome == CyclicHistory
      ensures outcome == Rebased <==> NextInWalk(start, commits) == Some(tip)
      ensures outcome == Rebased ==> |keys| >= 1
      ensures outcome.CommitNotFound? ==>
        var k := outcome.key;
        NextInWalk(start, commits) == Some(k) && k != "" && k != tip && CommitAt(objects, k).None?
      ensures outcome == NoCommonAncestor ==>
        var n := NextInWalk(start, commits);
        n.None? || n == Some("")
      ensures outcome == CyclicHistory ==>
        exists j :: 0 <= j < |keys| && NextInWalk(start, commits) == Some(keys[j])
    {
      keys, commits := [], [];
      ghost var visited: set<Key> := {};
      var cursor := Some(start);
      while cursor.Some? && cursor.value != "" && cursor.value != tip
        invariant Walked(objects, keys, commits, start, tip)
        invariant cursor == NextInWalk(start, commits)
        invariant Distinct(keys)
        invariant forall x :: x in visited <==> x in keys
        invariant visited <= objects.Keys
        decreases objects.Keys - visited
      {
        var k := cursor.value;
        var c := CommitAt(objects, k);
        if c.None? {
          return CommitNotFound(k), keys, commits;
        }
        if k in keys {
          return CyclicHistory, keys, commits;
        }
        WalkedStep(objects, keys, commits, start, tip, k, c.value);
        DistinctSnoc(keys, k);
        keys, commits := keys + [k], commits + [c.value];
        visited := visited + {k};
        cursor := c.value.parent;
      }
      if cursor != Some(tip) {
        return NoCommonAncestor, keys, commits;
      }
      return Rebased, keys, commits;
    }

    /**
     * The replay loop of `rebase_branch` (jit/main.py:751-757): oldest first,
     * each commit is stored again with its parent set to the previous key.
     * On a walk that reached `tip` every rewritten commit is the original,
     * so each store finds its key present and the new tip is the old one.
     */
    method Replay(keys: seq<Key>, commits: seq<Commit>, start: Key, tip: Key) returns (newTip: Key)
      requires Valid()
      requires |keys| >= 1 && Walked(objects, keys, commits, start, tip)
      requires NextInWalk(start, commits) == Some(tip)
      modifies this`objects
      ensures Valid() && objects == old(objects)
      ensures newTip == keys[0]
    {
      newTip := tip;
      var i := |commits|;
      while i > 0
        invariant 0 <= i <= |commits|
        invariant Valid() && objects == old(objects)
        invariant newTip == if i == |commits| then tip else keys[i]
        decreases i
      {
        i := i - 1;
        var replayed := commits[i].(parent := Some(newTip));
        assert replayed == commits[i];
        assert ObjectKey(CommitObj(replayed)) == keys[i];
        newTip := StoreObject(CommitObj(replayed));
      }
    }

    /**
     * `rebase_branch`: refuses a missing target branch and a detached HEAD,
     * reports equal tips as up to date, and otherwise walks and replays.
     * The walk only succeeds when the target tip is the parent of the oldest
     * collected commit, so the replay reproduces the original commits: the
     * store is unchanged, and the branch named by HEAD is written with its
     * own tip.
     */
    method RebaseBranch(target: Branch) returns (outcome: RebaseOutcome, keys: seq<Key>, commits: seq<Commit>)
      requires Valid()
      modifies this`objects, this`refs
      ensures Valid()
      ensures objects == old(objects)
      ensures outcome != Rebased ==> refs == old(refs)
      ensures outcome == NoSuchBranch <==> target !in old(refs)
      ensures outcome == DetachedHead <==> target in old(refs) && !Attached(old(CurrentHead()))
      ensures outcome == UpToDate <==>
        target in old(refs) && Attached(old(CurrentHead())) && old(CurrentHead()).commit == old(refs)[target]
      ensures outcome.CommitNotFound? || outcome == NoCommonAncestor || outcome == CyclicHistory || outcome == Rebased ==>
        && target in old(refs) && Attached(old(CurrentHead()))
        && Walked(objects, keys, commits, old(CurrentHead()).commit, old(refs)[target])
      ensures outcome == NoCommonAncestor ==>
        var n := NextInWalk(old(CurrentHead()).commit, commits);
        n.None? || n == Some("")
      ensures outcome == Rebased ==>
        && |keys| >= 1
        && NextInWalk(old(CurrentHead()).commit, commits) == Some(old(refs)[target])
        && keys[0] == old(CurrentHead()).commit
        && refs == old(refs)[old(CurrentHead()).branch.value := keys[0]]
      ensures outcome.Succeeded() ==>
        && target in old(refs) && Attached(old(CurrentHead()))
        && (outcome == Rebased ==> refs[old(CurrentHead()).branch.value] == old(CurrentHead()).commit)
    {
      keys, commits := [], [];
      if target !in refs {
        return NoSuchBranch, keys, commits;
      }
      var info := CurrentHead();
      if !Attached(info) {
        return DetachedHead, keys, commits;
      }
      var tip := refs[target];
      if info.commit == tip {
        return UpToDate, keys, commits;
      }
      outcome, keys, commits := WalkToTip(info.commit, tip);
      if outcome != Rebased {
        return;
      }
      var newTip := Replay(keys, commits, info.commit, tip);
      refs := refs[info.branch.value := newTip];
    }
  }
}

/**
 * A concrete repository where `main` tracks `a.txt` and `feature` does not:
 * once HEAD points at `feature` the removal set of `checkout_branch` is
 * empty, while the tracked files of `main`, read before the switch, would
 * have removed `a.txt`.
 */
module CheckoutCounterexample {
  import opened JitTypes
  import opened Head

  lemma CheckoutKeepsStaleFile()
    ensures
      var treeA := map["a.txt" := Present("ha", false, 0)];
      var treeB := map["b.txt" := Present("hb", false, 1)];
      var objs := map["ka" := CommitObj(Commit("first", None, 0, treeA)), "kb" := CommitObj(Commit("second", None, 1, treeB))];
      var refs := map["main" := "ka", "feature" := "kb"];
      && TrackedIn(HeadFor("feature"), refs, objs).Keys - treeB.Keys == {}
      && TrackedIn(HeadFor("main"), refs, objs).Keys - treeB.Keys == {"a.txt"}
  {
    var treeA := map["a.txt" := Present("ha", false, 0)];
    var treeB := map["b.txt" := Present("hb", false, 1)];
    var objs := map["ka" := CommitObj(Commit("first", None, 0, treeA)), "kb" := CommitObj(Commit("second", None, 1, treeB))];
    var refs := map["main" := "ka", "feature" := "kb"];
    ResolveAttachedCommit("feature", refs);
    ResolveAttachedCommit("main", refs);
    assert LiveEntries(treeB).Keys == {"b.txt"};
    assert LiveEntries(treeA).Keys == {"a.txt"};
  }
}
