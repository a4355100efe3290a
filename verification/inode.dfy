/**
 * The data the inode lookup entry points work on: node identities, the
 * reference counts of the inode namespace, the inode semaphore, the search
 * descriptor handed to the tree search, and the search itself as an
 * uninterpreted oracle over the tree topology.
 */
module Inode {
  import opened Wrappers

  /** Identity of a `struct inode` (its address). */
  type NodeId = nat

  /**
   * The search descriptor `struct inode_search_s`, restricted to the fields
   * the lookup entry points read or write: the requested path, the node the
   * search matched and the unresolved remainder of the path.  `None` is a
   * NULL pointer.
   */
  datatype SearchDesc = SearchDesc(path: Option<string>, node: Option<NodeId>, relpath: Option<string>)

  /** A descriptor after `memset(&desc, 0, sizeof(desc))`: every pointer NULL. */
  const ZeroDesc: SearchDesc := SearchDesc(None, None, None)

  /** The descriptor the entry points build: zeroed, then `desc.path = path`. */
  function InitialDesc(p: string): (d: SearchDesc)
  {
    ZeroDesc.(path := Some(p))
  }

  /**
   * What one call of the tree search produces: its integer return value
   * (negative on failure) and the descriptor as the search left it.
   */
  datatype SearchReply = SearchReply(ret: int, desc: SearchDesc)

  /**
   * The tree search (`inode_search` or `inode_search_nofollow`) as an
   * uninterpreted oracle.  `T` is the topology of the inode tree; the
   * search reads the topology and not the reference counts.
   */
  type Oracle<!T> = (T, SearchDesc) -> SearchReply

  /** The search reports success only together with a matched node. */
  predicate AnswersWithNode(reply: SearchReply)
  {
    reply.ret >= 0 ==> reply.desc.node.Some?
  }

  /**
   * The part of the kernel the lookup touches: the tree topology, the
   * reference count `i_crefs` of every node, and whether the calling task
   * holds the inode semaphore.
   */
  datatype FsState<T> = FsState(tree: T, crefs: map<NodeId, nat>, held: bool)

  /** `i_crefs` of node `n`; a node the map does not list holds no references. */
  function Refs<T>(s: FsState<T>, n: NodeId): (c: nat)
  {
    if n in s.crefs then s.crefs[n] else 0
  }

  /** The entry guard: the path is not NULL and its first character is '/'. */
  predicate PathAccepted(path: Option<string>)
  {
    path.Some? && |path.value| > 0 && path.value[0] == '/'
  }

  /** A caller-supplied output pointer (`FAR const char **relpath`) that may be NULL. */
  datatype OutParam<V> = NullOut | Slot(contents: V)
}
