# NuttX inode lookup-and-retain, modelled in Dafny

This project models the two lookup entry points of the NuttX pseudo-filesystem
inode namespace, `inode_find` and `inode_find_nofollow`
(`fs/inode/fs_inodefind.c`). They are called from the `open()` logic to get a
counted reference to the inode a path names. Each one

1. returns NULL at once if the path is NULL or does not start with `/`;
2. zeroes a search descriptor and stores the path in it;
3. takes the global inode semaphore;
4. runs the tree search (`inode_search`, or `inode_search_nofollow`, which does
   not dereference a soft link at the terminal node);
5. on success takes the matched node from the descriptor, increments its
   reference count `i_crefs`, and stores the unresolved remainder of the path
   through `relpath` when that pointer is not NULL;
6. gives the semaphore back and returns the node, or NULL.

## How it is modelled

- `wrappers.dfy` — `Option`, standing in for a pointer that may be NULL.
- `inode.dfy` (module `Inode`) — node identities, the search descriptor
  (`path`, `node`, `relpath`), the zeroed descriptor, the kernel state
  `FsState<T>` (tree topology `T`, a map from node to `i_crefs`, and a flag
  saying whether the calling task holds the inode semaphore), the entry guard
  `PathAccepted`, and the caller's `relpath` output pointer `OutParam`.
  The tree search is an uninterpreted oracle `Oracle<T> = (T, SearchDesc) ->
  SearchReply`: a total function from the tree topology and the descriptor to
  the search's return value and the descriptor as the search leaves it. Its
  internals are not modelled. The model assumes three things about it:
  - a successful search names a node (the source asserts this);
  - the search reads only the tree topology, not the reference counts or the
    semaphore;
  - the search changes nothing: the `Search` event leaves the whole state as
    it was, so it touches no `i_crefs`, no topology and not the semaphore.

  Two guarantees of `InodeFind` and `InodeFindNofollow` rest on the last
  assumption: `ensures s'.tree == s.tree` and the frame saying that no node
  other than the returned one changes its reference count.
- `locktrace.dfy` (module `LockTrace`) — the side effects of a lookup as
  events (`SemTake`, `Search`, `Retain`, `SemGive`) and a small-step semantics
  `Replay` that applies them and fails when an event happens without the
  semaphore (or a take happens while it is already held). The entry points
  compute their states through the same `Step`, so the clause
  `Replay(s, trace) == Some(s')` holds by construction. The independent content
  is the declarative part of their contracts (the reference counts, the
  semaphore flag, the returned node, `relpath`) and three lemmas about every
  replayable trace.
- `fs_inodefind.dfy` (module `FsInodeFind`) — the two entry points as methods
  that follow the C statement by statement and return the node, the state
  after the call, the caller's `relpath` variable after the call, and the trace
  of events they performed.

## Model

| member | source | states |
|---|---|---|
| FsInodeFind.InodeFind | fs/inode/fs_inodefind.c:67-108 | A NULL or non-absolute path returns NULL with no event, no state change and `*relpath` untouched; otherwise the call performs exactly a take, one search, a retain only on success, and a give, so the holding state on exit equals the one on entry; the search gets a descriptor holding the caller's path with every other field NULL; a node is returned exactly when the search returns a value >= 0 and it is the node the search matched; that node, and no other, gains exactly one reference, and the increment happens while the semaphore is held; on failure no count changes; `*relpath` receives the search's remainder only on success and only through a non-NULL pointer; the trace replays from the entry state to the exit state |
| FsInodeFind.InodeFindNofollow | fs/inode/fs_inodefind.c:110-153 | The same contract as `InodeFind`, with the no-follow search consulted in place of the following one and recorded as a no-follow search event |
| LockTrace.ReplayCountsRetains | fs/inode/fs_inodefind.c:94-96 | Under any replayable sequence of lookup events, each node's `i_crefs` ends as its initial count plus the number of times it was retained, and the tree topology is unchanged |
| LockTrace.ReplayLockBalance | fs/inode/fs_inodefind.c:85-106 | Under any replayable sequence of lookup events, the semaphore is held at the end exactly when it was held at the start plus the takes minus the gives |
| LockTrace.RetainOnlyUnderLock | fs/inode/fs_inodefind.c:85-106 | In any replayable sequence of lookup events, every reference increment occurs at a point where the semaphore is held |

## Left out

- The tree search (`inode_search`, `inode_search_nofollow`): path splitting, the tree walk, soft-link dereferencing and the computation of the relative path live in files that are not part of this model; the search is an uninterpreted oracle that reads only the tree topology, never the reference counts, and changes no state.
- The inode semaphore is a flag saying whether the calling task holds it. Blocking, contention and whether `inode_semtake` is re-entrant are defined in a file that is not part of this model; the entry points therefore require that the caller does not already hold the semaphore when the path passes the guard.
- `DEBUGASSERT(node != NULL)` becomes a precondition: past the guard, the one search reply consulted must name a node whenever it reports success.
- `i_crefs` is an unbounded natural number. The field belongs to `struct inode`, which is declared in a header that is not part of this model. The model drops the field's fixed width: in NuttX it is a 16-bit signed integer, so an increment past its maximum wraps around instead of adding 1, and the model does not show that wrap. A node missing from the reference-count map counts as holding no references.
- The search descriptor holds only the three fields these entry points use (`path`, `node`, `relpath`); the other fields of `struct inode_search_s` are declared in a header that is not part of this model. `memset` and C string representation are not modelled: a path is a sequence of characters.
- `CONFIG_PSEUDOFS_SOFTLINKS`: `InodeFindNofollow` is always present in the model; the configuration switch that compiles it out is not modelled.
- Inode release, unlink, reclamation, insertion and mounting are not in the modelled file.
- `configs/spresense/src/cxd56_bringup.c`: board bring-up (peripheral initialisation, power management, GPIO, clocks, the procfs mount) is driver glue with no algorithm to state.
