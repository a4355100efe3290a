/**
 * The lookup-and-retain entry points of the inode namespace:
 * `inode_find` and `inode_find_nofollow`.  Each rejects a path that is NULL
 * or not absolute, otherwise builds a zeroed search descriptor holding the
 * path, takes the inode semaphore, runs the tree search, and on success
 * adds one reference to the matched node and hands back the unresolved
 * remainder of the path, before giving the semaphore back.
 *
 * Both methods return, besides the node, the state after the call, the
 * caller's `relpath` variable after the call, and the trace of events the
 * call performed (see `LockTrace`).
 */
module FsInodeFind {
  import opened Wrappers
  import opened Inode
  import opened LockTrace

  /** Performs one event: extends the trace and keeps it replayable from `s0`. */
  method Perform<T>(ghost s0: FsState<T>, cur: FsState<T>, trace: seq<Event>, e: Event)
    returns (next: FsState<T>, trace': seq<Event>)
    requires Replay(s0, trace) == Some(cur)
    requires Step(cur, e).Some?
    ensures Step(cur, e) == Some(next)
    ensures trace' == trace + [e]
    ensures Replay(s0, trace') == Some(next)
    ensures forall x :: Occurrences(trace', x) == Occurrences(trace, x) + (if x == e then 1 else 0)
  {
    next := Step(cur, e).value;
    trace' := trace + [e];
    ReplayAppend(s0, trace, [e]);
    assert [e][1..] == [];
    forall x ensures Occurrences(trace', x) == Occurrences(trace, x) + (if x == e then 1 else 0) {
      OccurrencesAppend(trace, [e], x);
    }
  }

  /**
   * `inode_find`: look `path` up, following a soft link at the terminal
   * node, and retain the node found.
   */
  method InodeFind<T>(s: FsState<T>, path: Option<string>, relpath: OutParam<Option<string>>, search: Oracle<T>)
    returns (node: Option<NodeId>, s': FsState<T>, relpath': OutParam<Option<string>>, trace: seq<Event>)
    requires PathAccepted(path) ==> !s.held
    requires PathAccepted(path) ==> AnswersWithNode(search(s.tree, SearchDesc(path, None, None)))
    // A rejected path: no lock, no reference, no write.
    ensures !PathAccepted(path) ==> node == None && s' == s && relpath' == relpath && trace == []
    // Otherwise the semaphore is taken first and given last, once each.
    ensures PathAccepted(path) ==>
              |trace| >= 3 && trace[0] == SemTake && trace[|trace| - 1] == SemGive
              && Occurrences(trace, SemTake) == 1 && Occurrences(trace, SemGive) == 1
    // Nothing else happens: one search, and one retain exactly when a node is returned.
    ensures PathAccepted(path) ==> |trace| == if node.Some? then 4 else 3
    ensures s'.held == s.held && s'.tree == s.tree
    // The search sees the caller's path in an otherwise zeroed descriptor.
    ensures PathAccepted(path) ==> trace[1] == Search(SearchDesc(path, None, None), true)
    // A node comes back exactly when the search succeeds, and it is the one it matched.
    ensures node.Some? <==> PathAccepted(path) && search(s.tree, SearchDesc(path, None, None)).ret >= 0
    ensures node.Some? ==> node == search(s.tree, SearchDesc(path, None, None)).desc.node
    // Exactly one reference more on the node returned, none anywhere else.
    ensures forall n: NodeId :: Refs(s', n) == Refs(s, n) + (if node == Some(n) then 1 else 0)
    ensures node.None? ==> s'.crefs == s.crefs
    ensures forall n: NodeId :: Occurrences(trace, Retain(n)) == (if node == Some(n) then 1 else 0)
    ensures forall i :: 0 <= i < |trace| && trace[i].Retain? ==> HeldBefore(s, trace, i)
    // The remainder is written only on success and only through a non-NULL pointer.
    ensures relpath' == if node.Some? && relpath.Slot?
                        then Slot(search(s.tree, SearchDesc(path, None, None)).desc.relpath)
                        else relpath
    // The trace is exactly what turned `s` into `s'`.
    ensures Replay(s, trace) == Some(s')
  {
    node, s', relpath', trace := None, s, relpath, [];
    if !PathAccepted(path) {
      return;
    }

    var desc := InitialDesc(path.value);

    s', trace := Perform(s, s', trace, SemTake);
    var reply := search(s'.tree, desc);
    s', trace := Perform(s, s', trace, Search(desc, true));
    if reply.ret >= 0 {
      node := reply.desc.node;
      s', trace := Perform(s, s', trace, Retain(node.value));
      if relpath.Slot? {
        relpath' := Slot(reply.desc.relpath);
      }
    }
    s', trace := Perform(s, s', trace, SemGive);

    ReplayCountsRetains(s, trace);
    ReplayLockBalance(s, trace);
    forall i | 0 <= i < |trace| && trace[i].Retain? ensures HeldBefore(s, trace, i) {
      RetainOnlyUnderLock(s, trace, i);
    }
  }

  /**
   * `inode_find_nofollow`: the same steps as `InodeFind`, except that the
   * search does not dereference a soft link at the terminal node (links
   * earlier in the path are still followed), so a link itself can be found
   * and retained.
   */
  method InodeFindNofollow<T>(s: FsState<T>, path: Option<string>, relpath: OutParam<Option<string>>, searchNofollow: Oracle<T>)
    returns (node: Option<NodeId>, s': FsState<T>, relpath': OutParam<Option<string>>, trace: seq<Event>)
    requires PathAccepted(path) ==> !s.held
    requires PathAccepted(path) ==> AnswersWithNode(searchNofollow(s.tree, SearchDesc(path, None, None)))
    // A rejected path: no lock, no reference, no write.
    ensures !PathAccepted(path) ==> node == None && s' == s && relpath' == relpath && trace == []
    // Otherwise the semaphore is taken first and given last, once each.
    ensures PathAccepted(path) ==>
              |trace| >= 3 && trace[0] == SemTake && trace[|trace| - 1] == SemGive
              && Occurrences(trace, SemTake) == 1 && Occurrences(trace, SemGive) == 1
    // Nothing else happens: one search, and one retain exactly when a node is returned.
    ensures PathAccepted(path) ==> |trace| == if node.Some? then 4 else 3
    ensures s'.held == s.held && s'.tree == s.tree
    // The search sees the caller's path in an otherwise zeroed descriptor.
    ensures PathAccepted(path) ==> trace[1] == Search(SearchDesc(path, None, None), false)
    // A node comes back exactly when the search succeeds, and it is the one it matched.
    ensures node.Some? <==> PathAccepted(path) && searchNofollow(s.tree, SearchDesc(path, None, None)).ret >= 0
    ensures node.Some? ==> node == searchNofollow(s.tree, SearchDesc(path, None, None)).desc.node
    // Exactly one reference more on the node returned, none anywhere else.
    ensures forall n: NodeId :: Refs(s', n) == Refs(s, n) + (if node == Some(n) then 1 else 0)
    ensures node.None? ==> s'.crefs == s.crefs
    ensures forall n: NodeId :: Occurrences(trace, Retain(n)) == (if node == Some(n) then 1 else 0)
    ensures forall i :: 0 <= i < |trace| && trace[i].Retain? ==> HeldBefore(s, trace, i)
    // The remainder is written only on success and only through a non-NULL pointer.
    ensures relpath' == if node.Some? && relpath.Slot?
                        then Slot(searchNofollow(s.tree, SearchDesc(path, None, None)).desc.relpath)
                        else relpath
    // The trace is exactly what turned `s` into `s'`.
    ensures Replay(s, trace) == Some(s')
  {
    node, s', relpath', trace := None, s, relpath, [];
    if !PathAccepted(path) {
      return;
    }

    var desc := InitialDesc(path.value);

    s', trace := Perform(s, s', trace, SemTake);
    var reply := searchNofollow(s'.tree, desc);
    s', trace := Perform(s, s', trace, Search(desc, false));
    if reply.ret >= 0 {
      node := reply.desc.node;
      s', trace := Perform(s, s', trace, Retain(node.value));
      if relpath.Slot? {
        relpath' := Slot(reply.desc.relpath);
      }
    }
    s', trace := Perform(s, s', trace, SemGive);

    ReplayCountsRetains(s, trace);
    ReplayLockBalance(s, trace);
    forall i | 0 <= i < |trace| && trace[i].Retain? ensures HeldBefore(s, trace, i) {
      RetainOnlyUnderLock(s, trace, i);
    }
  }
}
