/**
 * A small-step semantics for the side effects of a lookup.  A lookup is
 * described by the sequence of events it performs on the kernel state;
 * `Replay` applies them one at a time and fails as soon as an event is
 * performed without the inode semaphore that it needs (or, for a take, with
 * the semaphore already held, which this model forbids: re-entrant takes
 * are not modelled).
 */
module LockTrace {
  import opened Wrappers
  import opened Inode

  datatype Event =
    | SemTake                                 // inode_semtake()
    | Search(desc: SearchDesc, follow: bool)  // inode_search / inode_search_nofollow
    | Retain(node: NodeId)                    // node->i_crefs++
    | SemGive                                 // inode_semgive()

  /** One event applied to the state, or `None` when the event is not allowed there. */
  function Step<T>(s: FsState<T>, e: Event): (r: Option<FsState<T>>)
  {
    match e
    case SemTake => if s.held then None else Some(s.(held := true))
    // The search is assumed to change nothing.
    case Search(_, _) => if s.held then Some(s) else None
    case Retain(n) => if s.held then Some(s.(crefs := s.crefs[n := Refs(s, n) + 1])) else None
    case SemGive => if s.held then Some(s.(held := false)) else None
  }

  /** The events of `t` applied in order, or `None` if one of them is not allowed. */
  function Replay<T>(s: FsState<T>, t: seq<Event>): (r: Option<FsState<T>>)
    decreases |t|
  {
    if |t| == 0 then Some(s)
    else match Step(s, t[0])
      case None => None
      case Some(s1) => Replay(s1, t[1..])
  }

  /** Number of times `e` occurs in `t`. */
  function Occurrences(t: seq<Event>, e: Event): (k: nat)
    decreases |t|
  {
    if |t| == 0 then 0
    else (if t[0] == e then 1 else 0) + Occurrences(t[1..], e)
  }

  /** Whether the semaphore is held after the first `i` events of `t`. */
  ghost predicate HeldBefore<T>(s: FsState<T>, t: seq<Event>, i: nat)
    requires i <= |t|
  {
    var r := Replay(s, t[..i]);
    r.Some? && r.value.held
  }

  /** Replaying a concatenation replays the first part, then the second from where it left off. */
  lemma {:induction false} ReplayAppend<T>(s: FsState<T>, a: seq<Event>, b: seq<Event>)
    ensures Replay(s, a + b) ==
              match Replay(s, a)
              case None => None
              case Some(m) => Replay(m, b)
    decreases |a|
  {
    if |a| == 0 {
      assert a + b == b;
    } else {
      assert (a + b)[0] == a[0];
      assert (a + b)[1..] == a[1..] + b;
      match Step(s, a[0]) {
        case None =>
        case Some(s1) => ReplayAppend(s1, a[1..], b);
      }
    }
  }

  /** Counting occurrences distributes over concatenation. */
  lemma {:induction false} OccurrencesAppend(a: seq<Event>, b: seq<Event>, e: Event)
    ensures Occurrences(a + b, e) == Occurrences(a, e) + Occurrences(b, e)
    decreases |a|
  {
    if |a| == 0 {
      assert a + b == b;
    } else {
      assert (a + b)[0] == a[0];
      assert (a + b)[1..] == a[1..] + b;
      OccurrencesAppend(a[1..], b, e);
    }
  }

  /**
   * Reference counts change only through `Retain` events: every node ends
   * with its initial count plus the number of times it was retained, and the
   * tree topology is never touched.
   */
  lemma {:induction false} ReplayCountsRetains<T>(s: FsState<T>, t: seq<Event>)
    requires Replay(s, t).Some?
    ensures Replay(s, t).value.tree == s.tree
    ensures forall n :: Refs(Replay(s, t).value, n) == Refs(s, n) + Occurrences(t, Retain(n))
    decreases |t|
  {
    if |t| > 0 {
      var s1 := Step(s, t[0]).value;
      ReplayCountsRetains(s1, t[1..]);
    }
  }

  /**
   * The semaphore alternates between taken and given: the final holding
   * state is the initial one plus the takes minus the gives.
   */
  lemma {:induction false} ReplayLockBalance<T>(s: FsState<T>, t: seq<Event>)
    requires Replay(s, t).Some?
    ensures (if Replay(s, t).value.held then 1 else 0)
            == (if s.held then 1 else 0) + Occurrences(t, SemTake) - Occurrences(t, SemGive)
    decreases |t|
  {
    if |t| > 0 {
      var s1 := Step(s, t[0]).value;
      ReplayLockBalance(s1, t[1..]);
    }
  }

  /** Every `Retain` of a replayable trace happens while the semaphore is held. */
  lemma RetainOnlyUnderLock<T>(s: FsState<T>, t: seq<Event>, i: nat)
    requires Replay(s, t).Some?
    requires i < |t| && t[i].Retain?
    ensures HeldBefore(s, t, i)
  {
    assert t == t[..i] + t[i..];
    ReplayAppend(s, t[..i], t[i..]);
    var m := Replay(s, t[..i]).value;
    assert t[i..][0] == t[i];
    assert Step(m, t[i]).Some?;
  }
}
