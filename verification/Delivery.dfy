/** Bounded delivery from a producer to an observer. */
module Delivery {

  // A queue with a full-queue policy, a producer, one delivery thread, a closer, and callers of drain.
  // Every method that holds the queue's lock is one atomic step, and so is every read or write of a flag
  // outside it; the steps of the parties interleave in any order. The same machine is the attachment
  // writer of the logbook.

  datatype Policy = LatestOnly | DropNewest | DropOldest

  datatype Queue<T> = Queue(capacity: nat, policy: Policy, items: seq<T>, dropped: nat, closed: bool)

  datatype Offer<T> = Offer(queue: Queue<T>, accepted: bool)

  function Offered<T>(q: Queue<T>, x: T): Offer<T> {
    if q.closed then Offer(q, false)
    else if |q.items| < q.capacity then Offer(q.(items := q.items + [x]), true)
    else
      match q.policy
      case LatestOnly => Offer(q.(items := [x]), true)
      case DropOldest =>
        Offer(q.(items := (if q.items == [] then [] else q.items[1..]) + [x], dropped := q.dropped + 1), true)
      case DropNewest => Offer(q.(dropped := q.dropped + 1), false)
  }

  class ObservationQueue<T> {
    const capacity: nat
    const policy: Policy
    var items: seq<T>
    var dropped: nat
    var closed: bool

    ghost function Abs(): Queue<T>
      reads this
    {
      Queue(capacity, policy, items, dropped, closed)
    }

    ghost predicate Valid()
      reads this
    {
      QueueInv(Abs())
    }

    /** A LATEST_ONLY queue holds one item whatever capacity is asked for. */
    constructor (capacity: nat, policy: Policy)
      requires capacity >= 1
      ensures Valid()
      ensures Abs() == Queue(if policy == LatestOnly then 1 else capacity, policy, [], 0, false)
    {
      this.policy := policy;
      this.capacity := if policy == LatestOnly then 1 else capacity;
      items, dropped, closed := [], 0, false;
    }

    /** Never fails; the answer says whether the item was kept. */
    method Offer(x: T) returns (accepted: bool)
      requires Valid()
      modifies this
      ensures Valid()
      ensures old(closed) ==> !accepted && Abs() == old(Abs())
      ensures !old(closed) && |old(items)| < capacity ==> accepted && Abs() == old(Abs()).(items := old(items) + [x])
      ensures !old(closed) && |old(items)| == capacity ==>
                match policy
                // the one item held is replaced, and that is no drop
                case LatestOnly => accepted && Abs() == old(Abs()).(items := [x])
                // the oldest item queued is dropped
                case DropOldest =>
                  accepted && Abs() == old(Abs()).(items := old(items)[1..] + [x], dropped := old(dropped) + 1)
                // the offer is dropped
                case DropNewest => !accepted && Abs() == old(Abs()).(dropped := old(dropped) + 1)
      ensures var r := Offered(old(Abs()), x); Abs() == r.queue && accepted == r.accepted
    {
      if closed { return false; }
      if |items| < capacity {
        items := items + [x];
        return true;
      }
      if policy == LatestOnly {
        items := [];
        items := items + [x];
        return true;
      }
      if policy == DropOldest {
        items := items[1..];
        items := items + [x];
        dropped := dropped + 1;
        return true;
      }
      dropped := dropped + 1;
      return false;
    }

    /** One round of the waiting loop: the oldest item if there is one. */
    method TryTake() returns (found: bool, x: seq<T>)
      requires Valid()
      modifies this
      ensures Valid() && found == (old(items) != [])
      ensures x == if found then [old(items)[0]] else []
      ensures Abs() == if found then old(Abs()).(items := old(items)[1..]) else old(Abs())
    {
      if items == [] { return false, []; }
      found, x := true, [items[0]];
      items := items[1..];
    }

    method TakeDropped() returns (n: nat)
      requires Valid()
      modifies this
      ensures Valid() && n == old(dropped) && Abs() == old(Abs()).(dropped := 0)
    {
      n := dropped;
      dropped := 0;
    }

    /** The items left behind are charged to the tally and named. */
    method Abandon() returns (lost: seq<T>)
      requires Valid()
      modifies this
      ensures Valid() && lost == old(items)
      ensures Abs() == old(Abs()).(items := [], dropped := old(dropped) + |lost|)
    {
      lost := items;
      if lost != [] {
        items := [];
        dropped := dropped + |lost|;
      }
    }

    method Close()
      requires Valid()
      modifies this
      ensures Valid() && Abs() == old(Abs()).(closed := true)
    {
      closed := true;
    }
  }

  ghost predicate QueueInv<T>(q: Queue<T>) {
    q.capacity >= 1 && |q.items| <= q.capacity && (q.policy == LatestOnly ==> q.capacity == 1)
  }

  // ---------------------------------------------------------------- the parties

  /** Where the delivery thread is in its loop. */
  datatype Thread<T> =
    | NotStarted
    | AtTop                 // about to test the stop flag
    | Taking                // inside take
    | GotNone               // take came back empty
    | Holding(item: T)      // took an item, has not cleared the idle flag yet
    | Observing(item: T)    // about to hand the item to the observer
    | AtFinally             // about to read the depth
    | SettingIdle           // the depth read was 0
    | Exited

  /** How far the closer has come after draining; BeforeDetach is about to forget the thread. */
  datatype Closer = BeforeStop | BeforeClose | BeforeAbandon | BeforeDetach | Joining

  predicate HasAbandoned(c: Closer) {
    c == BeforeDetach || c == Joining
  }

  /**
    What there was when drain read the depth: everything kept so far that has not been abandoned,
    the idle flag, and the numbers a caller can read: offers made while open, and drops, counting
    tallies already taken.
  */
  datatype Seen<T> = Seen(kept: seq<T>, idle: bool, offers: nat, drops: nat)

  /** Where a call of drain is; `last` marks the check after the deadline. */
  datatype Drain<T> =
    | Outside
    | AtDepth(last: bool)                   // about to read the depth
    | AtIdle(last: bool, seen: Seen<T>)     // read depth 0, about to read the idle flag
    | AtThread                              // about to ask whether the thread is alive
    | AtDepthOnly                           // it is not: about to read the depth alone
    | Returned(drained: bool, seen: Seen<T>)

  /**
    `offered` and `accepted` are the offers made while the queue was open and those answered with
    true; `taken` is the sum of all tallies read; `superseded` counts the items a LATEST_ONLY queue
    replaced; `delivered` holds the items handed to the observer, of which `failed` raised.
  */
  datatype State<T> = State(queue: Queue<T>, thread: Thread<T>, stop: bool, idle: bool, closer: Closer,
                            offered: seq<T>, accepted: seq<T>, delivered: seq<T>, failed: nat,
                            abandoned: seq<T>, taken: nat, superseded: nat, drain: Drain<T>)

  datatype Action<T> =
    | Produce(item: T)
    | EnsureThread
    | ThreadStep(timeout: bool, raises: bool)
    | ReadTally
    | CloserStep
    | DrainStep(late: bool)     // late: the deadline has passed

  function Start<T>(capacity: nat, policy: Policy): State<T>
    requires capacity >= 1
  {
    State(Queue(if policy == LatestOnly then 1 else capacity, policy, [], 0, false), NotStarted, false, true,
          BeforeStop, [], [], [], 0, [], 0, 0, Outside)
  }

  /** How many items the next offer replaces without counting them as dropped. */
  function Replaced<T>(q: Queue<T>): nat {
    if q.policy == LatestOnly && |q.items| >= q.capacity then |q.items| else 0
  }

  function Produced<T>(s: State<T>, x: T): State<T> {
    if s.queue.closed then s
    else
      var r := Offered(s.queue, x);
      s.(queue := r.queue, offered := s.offered + [x],
         accepted := if r.accepted then s.accepted + [x] else s.accepted,
         superseded := s.superseded + Replaced(s.queue))
  }

  /** One atomic step of the delivery loop; waiting inside take goes on until an item, a timeout or the close. */
  function Threaded<T>(s: State<T>, timeout: bool, raises: bool): State<T> {
    match s.thread
    case NotStarted => s
    case Exited => s
    case AtTop => s.(thread := if s.stop then Exited else Taking)
    case Taking =>
      if s.queue.items != [] then
        s.(queue := s.queue.(items := s.queue.items[1..]), thread := Holding(s.queue.items[0]))
      else if s.queue.closed || timeout then s.(thread := GotNone)
      else s
    case GotNone => s.(thread := if s.queue.closed then Exited else AtTop)
    case Holding(x) => s.(idle := false, thread := Observing(x))
    case Observing(x) =>
      s.(delivered := s.delivered + [x], failed := s.failed + (if raises then 1 else 0), thread := AtFinally)
    case AtFinally => s.(thread := if s.queue.items == [] then SettingIdle else AtTop)
    case SettingIdle => s.(idle := true, thread := AtTop)
  }

  function Closing<T>(s: State<T>): State<T> {
    match s.closer
    case BeforeStop => s.(stop := true, closer := BeforeClose)
    case BeforeClose => s.(queue := s.queue.(closed := true), closer := BeforeAbandon)
    case BeforeAbandon =>
      s.(queue := s.queue.(items := [], dropped := s.queue.dropped + |s.queue.items|),
         abandoned := s.abandoned + s.queue.items, closer := BeforeDetach)
    case BeforeDetach => s.(closer := Joining)
    case Joining => s
  }

  predicate Alive<T>(t: Thread<T>) {
    !t.NotStarted? && !t.Exited?
  }

  function Look<T>(s: State<T>): Seen<T> {
    Seen(Kept(s), s.idle, |s.offered|, s.queue.dropped + s.taken)
  }

  /** One read of drain's loop; the first step after a return is a new call. */
  function Draining<T>(s: State<T>, late: bool): Drain<T> {
    match s.drain
    case Outside => AtDepth(late)
    case Returned(_, _) => AtDepth(late)
    case AtDepth(last) =>
      if s.queue.items == [] then AtIdle(last, Look(s)) else if last then Returned(false, Look(s)) else AtThread
    case AtIdle(last, seen) =>
      if s.idle then Returned(true, seen) else if last then Returned(false, seen) else AtThread
    case AtThread => if Alive(s.thread) && s.closer != Joining then AtDepth(late) else AtDepthOnly
    case AtDepthOnly => Returned(s.queue.items == [], Look(s))
  }

  function Act<T>(s: State<T>, a: Action<T>): State<T> {
    match a
    case Produce(x) => Produced(s, x)
    case EnsureThread => if !s.stop && s.thread.NotStarted? then s.(thread := AtTop) else s
    case ThreadStep(timeout, raises) => Threaded(s, timeout, raises)
    case ReadTally => s.(taken := s.taken + s.queue.dropped, queue := s.queue.(dropped := 0))
    case CloserStep => Closing(s)
    case DrainStep(late) => s.(drain := Draining(s, late))
  }

  function ActAll<T>(s: State<T>, actions: seq<Action<T>>): State<T>
    decreases |actions|
  {
    if actions == [] then s else ActAll(Act(s, actions[0]), actions[1..])
  }

  // ---------------------------------------------------------------- order

  predicate IsSubsequence<T(==)>(s: seq<T>, t: seq<T>)
    decreases |t|
  {
    if s == [] then true
    else if t == [] then false
    else
      || (s[|s| - 1] == t[|t| - 1] && IsSubsequence(s[..|s| - 1], t[..|t| - 1]))
      || IsSubsequence(s, t[..|t| - 1])
  }

  lemma SubsequenceSkip<T>(s: seq<T>, t: seq<T>, x: T)
    requires IsSubsequence(s, t)
    ensures IsSubsequence(s, t + [x])
  {
    assert (t + [x])[..|t|] == t;
  }

  lemma SubsequenceSnoc<T>(s: seq<T>, t: seq<T>, x: T)
    requires IsSubsequence(s, t)
    ensures IsSubsequence(s + [x], t + [x])
  {
    assert (s + [x])[..|s|] == s && (t + [x])[..|t|] == t;
  }

  /** Taking elements out keeps it a subsequence. */
  lemma {:induction false} SubsequenceCut<T>(a: seq<T>, b: seq<T>, c: seq<T>, t: seq<T>)
    requires IsSubsequence(a + b + c, t)
    ensures IsSubsequence(a + c, t)
    decreases |t|
  {
    var s := a + b + c;
    if a + c != [] {
      var front := t[..|t| - 1];
      if IsSubsequence(s, front) {
        SubsequenceCut(a, b, c, front);
      } else if c != [] {
        var c' := c[..|c| - 1];
        assert s[..|s| - 1] == a + b + c' && (a + c)[..|a + c| - 1] == a + c';
        SubsequenceCut(a, b, c', front);
      } else if b != [] {
        assert s[..|s| - 1] == a + b[..|b| - 1] + c;
        SubsequenceCut(a, b[..|b| - 1], c, front);
        assert t == front + [t[|t| - 1]];
        SubsequenceSkip(a + c, front, t[|t| - 1]);
      } else {
        assert s == a + c;
      }
    }
  }

  // ---------------------------------------------------------------- the invariant

  function Hand<T>(t: Thread<T>): seq<T> {
    match t
    case Holding(x) => [x]
    case Observing(x) => [x]
    case _ => []
  }

  /** What has been delivered or still will be, oldest first. */
  function Kept<T>(s: State<T>): seq<T> {
    s.delivered + Hand(s.thread) + s.queue.items
  }

  /** Everything kept, from the observer back to the newest queued item; what the closer abandoned was newest. */
  function Flow<T>(s: State<T>): seq<T> {
    Kept(s) + s.abandoned
  }

  ghost predicate ClosingInv<T>(s: State<T>) {
    && (s.stop <==> s.closer != BeforeStop)
    && (s.queue.closed <==> s.closer == BeforeAbandon || HasAbandoned(s.closer))
    && (!HasAbandoned(s.closer) ==> s.abandoned == [])
    && (HasAbandoned(s.closer) ==> s.queue.items == [])
  }

  /** Everything about numbers and flags. */
  ghost predicate Bounds<T>(s: State<T>) {
    && QueueInv(s.queue) && ClosingInv(s)
    && |s.offered| == |s.delivered| + |Hand(s.thread)| + |s.queue.items| + s.queue.dropped + s.taken + s.superseded
    && (s.superseded > 0 ==> s.queue.policy == LatestOnly)
    && (s.thread.Observing? ==> !s.idle)
    && s.failed <= |s.delivered|
  }

  ghost predicate DeliveryInv<T>(s: State<T>) {
    && Bounds(s)
    && IsSubsequence(Flow(s), s.offered)
    && (s.queue.policy == DropNewest ==> Flow(s) == s.accepted)
    && (s.queue.policy != DropNewest ==> s.accepted == s.offered && Newest(Flow(s), s.offered))
  }

  /** The newest offer has not been lost. */
  predicate Newest<T(==)>(flow: seq<T>, offered: seq<T>) {
    offered != [] ==> flow != [] && flow[|flow| - 1] == offered[|offered| - 1]
  }

  lemma ProducedKeepsBounds<T>(s: State<T>, x: T)
    requires Bounds(s)
    ensures Bounds(Produced(s, x))
  {
  }

  lemma ProducedFlow<T>(s: State<T>, x: T)
    requires Bounds(s) && !s.queue.closed && IsSubsequence(Flow(s), s.offered)
    ensures var s' := Produced(s, x);
            && IsSubsequence(Flow(s'), s.offered + [x])
            && (s'.accepted == s.accepted ==> Flow(s') == Flow(s))
            && (s'.accepted != s.accepted ==> Flow(s') != [] && Flow(s')[|Flow(s')| - 1] == x)
            && (s.queue.policy == DropNewest && s'.accepted != s.accepted ==> Flow(s') == Flow(s) + [x])
  {
    var q, s' := s.queue, Produced(s, x);
    var early := s.delivered + Hand(s.thread);
    assert Flow(s) == early + q.items && Flow(s') == early + s'.queue.items;
    if |q.items| < q.capacity {
      assert Flow(s') == Flow(s) + [x];
      SubsequenceSnoc(Flow(s), s.offered, x);
    } else if q.policy == DropNewest {
      SubsequenceSkip(Flow(s), s.offered, x);
    } else {
      ReplacedFlow(s, x);
    }
  }

  /** A full queue that replaces: the oldest queued items leave the middle of the flow. */
  lemma ReplacedFlow<T>(s: State<T>, x: T)
    requires Bounds(s) && !s.queue.closed && |s.queue.items| == s.queue.capacity && s.queue.policy != DropNewest
    requires IsSubsequence(Flow(s), s.offered)
    ensures var f := Flow(Produced(s, x));
            IsSubsequence(f, s.offered + [x]) && f != [] && f[|f| - 1] == x
  {
    var q := s.queue;
    var early := s.delivered + Hand(s.thread);
    var k := if q.policy == LatestOnly then |q.items| else 1;
    var s' := Produced(s, x);
    assert s'.queue.items == q.items[k..] + [x];
    FlowIs(s, early, q.items);
    FlowIs(s', early, q.items[k..] + [x]);
    DropAndAppend(early, q.items, k, x, s.offered);
  }

  lemma FlowIs<T>(s: State<T>, early: seq<T>, items: seq<T>)
    requires early == s.delivered + Hand(s.thread) && items == s.queue.items && s.abandoned == []
    ensures Flow(s) == early + items
  {
  }

  lemma DropAndAppend<T>(early: seq<T>, items: seq<T>, k: nat, x: T, offered: seq<T>)
    requires k <= |items| && IsSubsequence(early + items, offered)
    ensures IsSubsequence(early + (items[k..] + [x]), offered + [x])
  {
    hide IsSubsequence;
    assert early + items == early + items[..k] + items[k..];
    SubsequenceCut(early, items[..k], items[k..], offered);
    SubsequenceSnoc(early + items[k..], offered, x);
    assert early + items[k..] + [x] == early + (items[k..] + [x]);
  }

  lemma ProducedKeepsInv<T>(s: State<T>, x: T)
    requires DeliveryInv(s)
    ensures DeliveryInv(Produced(s, x))
  {
    ProducedKeepsBounds(s, x);
    if !s.queue.closed { ProducedFlow(s, x); }
  }

  /** The thread only moves items along the flow. */
  lemma ThreadedFlow<T>(s: State<T>, timeout: bool, raises: bool)
    ensures Flow(Threaded(s, timeout, raises)) == Flow(s)
  {
    match s.thread
    case Taking =>
      if s.queue.items != [] {
        assert s.queue.items == [s.queue.items[0]] + s.queue.items[1..];
        assert s.delivered + [] + s.queue.items == s.delivered + [s.queue.items[0]] + s.queue.items[1..];
      }
    case Observing(x) => assert s.delivered + [x] + [] == s.delivered + [x];
    case _ =>
  }

  lemma ThreadedKeepsInv<T>(s: State<T>, timeout: bool, raises: bool)
    requires DeliveryInv(s)
    ensures DeliveryInv(Threaded(s, timeout, raises))
  {
    ThreadedFlow(s, timeout, raises);
    ThreadedKeepsRest(s, timeout, raises);
  }

  /** What the thread leaves alone, and the numbers and flags after its step. */
  ghost predicate KeepsRest<T>(s: State<T>, s': State<T>) {
    Bounds(s') && s'.offered == s.offered && s'.accepted == s.accepted && s'.queue.policy == s.queue.policy
  }

  lemma TakingKeepsRest<T>(s: State<T>, timeout: bool, raises: bool)
    requires Bounds(s) && s.thread.Taking?
    ensures KeepsRest(s, Threaded(s, timeout, raises))
  {
  }

  lemma ObservingKeepsRest<T>(s: State<T>, timeout: bool, raises: bool)
    requires Bounds(s) && (s.thread.Holding? || s.thread.Observing?)
    ensures KeepsRest(s, Threaded(s, timeout, raises))
  {
  }

  lemma SameButThread<T>(s: State<T>, thread: Thread<T>, idle: bool)
    requires Bounds(s) && Hand(s.thread) == [] == Hand(thread)
    ensures KeepsRest(s, s.(thread := thread, idle := idle))
  {
  }

  lemma EmptyHandedKeepsRest<T>(s: State<T>, timeout: bool, raises: bool)
    requires Bounds(s) && !s.thread.Taking? && Hand(s.thread) == []
    ensures KeepsRest(s, Threaded(s, timeout, raises))
  {
    hide Bounds, KeepsRest;
    var s' := Threaded(s, timeout, raises);
    SameButThread(s, s'.thread, s'.idle);
  }

  lemma ThreadedKeepsRest<T>(s: State<T>, timeout: bool, raises: bool)
    requires Bounds(s)
    ensures KeepsRest(s, Threaded(s, timeout, raises))
  {
    hide Bounds, Threaded, KeepsRest;
    if s.thread.Taking? {
      TakingKeepsRest(s, timeout, raises);
    } else if s.thread.Holding? || s.thread.Observing? {
      ObservingKeepsRest(s, timeout, raises);
    } else {
      EmptyHandedKeepsRest(s, timeout, raises);
    }
  }

  /** Abandoning only renames what it leaves behind. */
  lemma ClosingFlow<T>(s: State<T>)
    requires ClosingInv(s)
    ensures Flow(Closing(s)) == Flow(s)
  {
    if s.closer == BeforeAbandon {
      assert s.abandoned == [];
      assert Kept(s) == s.delivered + Hand(s.thread) + [] + s.queue.items;
    }
  }

  lemma ClosingKeepsBounds<T>(s: State<T>)
    requires Bounds(s)
    ensures Bounds(Closing(s)) && Closing(s).offered == s.offered && Closing(s).accepted == s.accepted
    ensures Closing(s).queue.policy == s.queue.policy
  {
  }

  lemma ClosingKeepsInv<T>(s: State<T>)
    requires DeliveryInv(s)
    ensures DeliveryInv(Closing(s))
  {
    ClosingFlow(s);
    ClosingKeepsBounds(s);
    hide Bounds, Flow, Closing, IsSubsequence;
  }

  lemma ActKeepsInv<T>(s: State<T>, a: Action<T>)
    requires DeliveryInv(s)
    ensures DeliveryInv(Act(s, a))
  {
    match a
    case Produce(x) => ProducedKeepsInv(s, x);
    case ThreadStep(timeout, raises) => ThreadedKeepsInv(s, timeout, raises);
    case CloserStep => ClosingKeepsInv(s);
    case DrainStep(_) => assert Flow(Act(s, a)) == Flow(s);
    case EnsureThread => assert Flow(Act(s, a)) == Flow(s);
    case ReadTally => assert Flow(Act(s, a)) == Flow(s);
  }

  lemma {:induction false} RunKeepsInv<T>(s: State<T>, actions: seq<Action<T>>)
    requires DeliveryInv(s)
    ensures DeliveryInv(ActAll(s, actions))
    decreases |actions|
  {
    if actions != [] {
      ActKeepsInv(s, actions[0]);
      RunKeepsInv(Act(s, actions[0]), actions[1..]);
    }
  }

  // ---------------------------------------------------------------- results

  lemma {:induction false} PolicyIsConstant<T>(s: State<T>, actions: seq<Action<T>>)
    ensures ActAll(s, actions).queue.policy == s.queue.policy
    decreases |actions|
  {
    if actions != [] {
      PolicyIsKept(s, actions[0]);
      PolicyIsConstant(Act(s, actions[0]), actions[1..]);
    }
  }

  lemma PolicyIsKept<T>(s: State<T>, a: Action<T>)
    ensures Act(s, a).queue.policy == s.queue.policy
  {
    match a
    case Produce(_) =>
    case ThreadStep(_, _) =>
    case _ =>
  }

  lemma Reachable<T>(capacity: nat, policy: Policy, actions: seq<Action<T>>)
    requires capacity >= 1
    ensures var s := ActAll(Start<T>(capacity, policy), actions); DeliveryInv(s) && s.queue.policy == policy
  {
    RunKeepsInv(Start<T>(capacity, policy), actions);
    PolicyIsConstant(Start<T>(capacity, policy), actions);
  }

  lemma DeliveredInOrder<T>(s: State<T>)
    requires DeliveryInv(s)
    ensures IsSubsequence(s.delivered, s.offered)
  {
    var later := Hand(s.thread) + s.queue.items + s.abandoned;
    assert Flow(s) == s.delivered + later + [];
    SubsequenceCut(s.delivered, later, [], s.offered);
    assert s.delivered + [] == s.delivered;
  }

  /**
    Under every interleaving: what is delivered is a subsequence of the offers, in order; the depth
    is bounded; and without a replacing policy every offer made while open has been delivered, is in
    hand, is queued, or is in the drop tally, counting tallies already read.
  */
  lemma NothingIsLostSilently<T>(capacity: nat, policy: Policy, actions: seq<Action<T>>)
    requires capacity >= 1
    ensures var s := ActAll(Start<T>(capacity, policy), actions);
            && IsSubsequence(s.delivered, s.offered)
            && |s.queue.items| <= s.queue.capacity
            && (policy != LatestOnly ==>
                  |s.offered| == |s.delivered| + |Hand(s.thread)| + |s.queue.items| + s.queue.dropped + s.taken)
  {
    Reachable(capacity, policy, actions);
    DeliveredInOrder(ActAll(Start<T>(capacity, policy), actions));
  }

  /**
    What each policy keeps. DROP_NEWEST: exactly the accepted offers, the earliest ones, in order.
    The other two accept every offer, and the newest is always delivered, in hand, queued or named
    among the abandoned.
  */
  lemma PolicyKeeps<T>(capacity: nat, policy: Policy, actions: seq<Action<T>>)
    requires capacity >= 1
    ensures var s := ActAll(Start<T>(capacity, policy), actions);
            if policy == DropNewest then s.accepted == Flow(s)
            else s.accepted == s.offered && Newest(Flow(s), s.offered)
  {
    Reachable(capacity, policy, actions);
  }

  /** The queue holds the last offers made, in order: what a replacing policy lost was older. */
  ghost predicate HoldsNewest<T>(s: State<T>) {
    s.queue.policy != DropNewest && !HasAbandoned(s.closer) ==>
      IsSuffix(s.queue.items, s.offered)
  }

  predicate IsSuffix<T(==)>(items: seq<T>, all: seq<T>) {
    |items| <= |all| && items == all[|all| - |items|..]
  }

  lemma SuffixSnoc<T>(items: seq<T>, all: seq<T>, x: T)
    requires IsSuffix(items, all)
    ensures IsSuffix(items + [x], all + [x])
  {
  }

  lemma SuffixDrop<T>(items: seq<T>, all: seq<T>)
    requires IsSuffix(items, all) && items != []
    ensures IsSuffix(items[1..], all)
  {
  }

  lemma OfferedHoldsNewest<T>(q: Queue<T>, x: T, all: seq<T>)
    requires QueueInv(q) && !q.closed && q.policy != DropNewest && IsSuffix(q.items, all)
    ensures IsSuffix(Offered(q, x).queue.items, all + [x])
  {
    hide IsSuffix;
    if |q.items| < q.capacity {
      SuffixSnoc(q.items, all, x);
    } else {
      SuffixDrop(q.items, all);
      SuffixSnoc(q.items[1..], all, x);
      if q.policy == LatestOnly { assert q.items[1..] + [x] == [x]; }
    }
  }

  lemma ProducedHoldsNewest<T>(s: State<T>, x: T)
    requires QueueInv(s.queue) && HoldsNewest(s)
    ensures HoldsNewest(Produced(s, x))
  {
    hide IsSuffix, Offered;
    PolicyIsKept(s, Produce(x));
    if !s.queue.closed && s.queue.policy != DropNewest && !HasAbandoned(s.closer) {
      OfferedHoldsNewest(s.queue, x, s.offered);
    }
  }

  lemma ThreadTakes<T>(s: State<T>, timeout: bool, raises: bool)
    ensures var after := Threaded(s, timeout, raises);
            && after.closer == s.closer && after.offered == s.offered && after.queue.policy == s.queue.policy
            && (after.queue.items == s.queue.items ||
                (s.queue.items != [] && after.queue.items == s.queue.items[1..]))
  {
    match s.thread
    case Taking =>
    case _ =>
  }

  lemma ThreadedHoldsNewest<T>(s: State<T>, timeout: bool, raises: bool)
    requires HoldsNewest(s)
    ensures HoldsNewest(Threaded(s, timeout, raises))
  {
    hide IsSuffix, Threaded;
    ThreadTakes(s, timeout, raises);
    if s.queue.items != [] && s.queue.policy != DropNewest && !HasAbandoned(s.closer) {
      SuffixDrop(s.queue.items, s.offered);
    }
  }

  lemma ActHoldsNewest<T>(s: State<T>, a: Action<T>)
    requires QueueInv(s.queue) && HoldsNewest(s)
    ensures HoldsNewest(Act(s, a))
  {
    hide IsSuffix, Produced, Threaded, Draining;
    match a
    case Produce(x) => ProducedHoldsNewest(s, x);
    case ThreadStep(timeout, raises) => ThreadedHoldsNewest(s, timeout, raises);
    case _ =>
  }

  lemma {:induction false} RunHoldsNewest<T>(s: State<T>, actions: seq<Action<T>>)
    requires DeliveryInv(s) && HoldsNewest(s)
    ensures HoldsNewest(ActAll(s, actions))
    decreases |actions|
  {
    if actions != [] {
      ActKeepsInv(s, actions[0]);
      ActHoldsNewest(s, actions[0]);
      RunHoldsNewest(Act(s, actions[0]), actions[1..]);
    }
  }

  /** A policy that replaces always drops the oldest queued: what is queued is always the last of the offers. */
  lemma QueueHoldsNewest<T>(capacity: nat, policy: Policy, actions: seq<Action<T>>)
    requires capacity >= 1 && policy != DropNewest
    ensures var s := ActAll(Start<T>(capacity, policy), actions);
            !HasAbandoned(s.closer) ==>
              |s.queue.items| <= |s.offered| && s.queue.items == s.offered[|s.offered| - |s.queue.items|..]
  {
    RunHoldsNewest(Start<T>(capacity, policy), actions);
    PolicyIsConstant(Start<T>(capacity, policy), actions);
  }

  /** Everything accepted was delivered or is named as abandoned, and the tallies account for the rest. */
  ghost predicate AllAccounted<T>(s: State<T>) {
    && s.queue.items == [] && Hand(s.thread) == []
    && Flow(s) == s.delivered + s.abandoned
    && (s.queue.policy != LatestOnly ==> |s.offered| == |s.delivered| + s.queue.dropped + s.taken)
  }

  lemma EndIsAccounted<T>(s: State<T>)
    requires DeliveryInv(s) && HasAbandoned(s.closer) && !Alive(s.thread)
    ensures AllAccounted(s)
  {
    assert s.delivered + [] + [] + s.abandoned == s.delivered + s.abandoned;
  }

  /** After the closer is through and the thread has exited, nothing is queued or in hand. */
  lemma ClosedIsEmpty<T>(capacity: nat, policy: Policy, actions: seq<Action<T>>)
    requires capacity >= 1
    ensures var s := ActAll(Start<T>(capacity, policy), actions);
            HasAbandoned(s.closer) && !Alive(s.thread) ==> AllAccounted(s)
  {
    Reachable(capacity, policy, actions);
    var s := ActAll(Start<T>(capacity, policy), actions);
    if HasAbandoned(s.closer) && !Alive(s.thread) { EndIsAccounted(s); }
  }

  /** Own steps the thread still makes once the queue is closed and empty. */
  function StepsLeft<T>(t: Thread<T>): nat {
    match t
    case NotStarted => 0
    case Exited => 0
    case AtTop => 1
    case GotNone => 1
    case Taking => 2
    case SettingIdle => 2
    case AtFinally => 3
    case Observing(_) => 4
    case Holding(_) => 5
  }

  function ThreadSteps<T>(actions: seq<Action<T>>): nat {
    if actions == [] then 0 else (if actions[0].ThreadStep? then 1 else 0) + ThreadSteps(actions[1..])
  }

  /** Once the closer has abandoned the backlog, five steps of the thread, however interleaved, end it. */
  lemma {:induction false} ThreadExits<T>(s: State<T>, actions: seq<Action<T>>)
    requires ClosingInv(s) && HasAbandoned(s.closer) && ThreadSteps(actions) >= StepsLeft(s.thread)
    ensures !Alive(ActAll(s, actions).thread)
    decreases |actions|
  {
    if actions != [] {
      StepNearer(s, actions[0]);
      ThreadExits(Act(s, actions[0]), actions[1..]);
    }
  }

  lemma StepNearer<T>(s: State<T>, a: Action<T>)
    requires ClosingInv(s) && HasAbandoned(s.closer)
    ensures var s' := Act(s, a);
            && ClosingInv(s') && HasAbandoned(s'.closer)
            && StepsLeft(s'.thread) <= StepsLeft(s.thread)
            && (a.ThreadStep? && StepsLeft(s.thread) > 0 ==> StepsLeft(s'.thread) < StepsLeft(s.thread))
  {
    match a
    case ThreadStep(_, _) =>
    case Produce(_) =>
    case _ =>
  }

  // ---------------------------------------------------------------- what drain's answer means

  /** What was kept then has been delivered by now. */
  predicate Delivered<T(==)>(seen: Seen<T>, s: State<T>) {
    seen.kept <= s.delivered
  }

  /** The thread still has in hand the item it had in hand then. */
  predicate StillInHand<T(==)>(seen: Seen<T>, s: State<T>) {
    Hand(s.thread) != [] && seen.kept == s.delivered + Hand(s.thread)
  }

  /** Since depth 0 was read: one of the two, and the counts are those of that moment. */
  ghost predicate SeenInv<T>(seen: Seen<T>, s: State<T>) {
    && (Delivered(seen, s) || StillInHand(seen, s))
    && (StillInHand(seen, s) && s.idle ==> s.thread.Holding? && seen.idle)
    && (s.queue.policy != LatestOnly ==> |seen.kept| + seen.drops == seen.offers)
  }

  ghost predicate DrainInv<T>(s: State<T>) {
    s.drain.AtIdle? ==> SeenInv(s.drain.seen, s)
  }

  lemma NotBoth<T>(seen: Seen<T>, s: State<T>)
    ensures StillInHand(seen, s) ==> !Delivered(seen, s) && |seen.kept| == |s.delivered| + 1
  {
  }

  lemma LookIsSeen<T>(s: State<T>)
    requires Bounds(s) && s.queue.items == []
    ensures SeenInv(Look(s), s)
  {
    assert Kept(s) == s.delivered + Hand(s.thread);
    if Hand(s.thread) == [] { assert Kept(s) == s.delivered; }
  }

  /** No step of the thread makes the idle flag true while an item is in hand, or forgets one. */
  lemma SeenStays<T>(seen: Seen<T>, s: State<T>, timeout: bool, raises: bool)
    requires Bounds(s) && SeenInv(seen, s)
    ensures SeenInv(seen, Threaded(s, timeout, raises))
  {
    match s.thread
    case Taking =>
    case Observing(_) =>
    case Holding(_) =>
    case _ =>
  }

  /** Only the deliveries, the hand and the flag matter. */
  lemma SeenCarries<T>(seen: Seen<T>, s: State<T>, s': State<T>)
    requires SeenInv(seen, s) && SameHands(s, s')
    ensures SeenInv(seen, s')
  {
  }

  predicate SameHands<T(==)>(s: State<T>, s': State<T>) {
    && Hand(s'.thread) == Hand(s.thread) && s'.thread.Holding? == s.thread.Holding?
    && s'.delivered == s.delivered && s'.idle == s.idle && s'.queue.policy == s.queue.policy
  }

  /** Steps of the others leave the thread, the flag and the deliveries alone. */
  lemma OthersKeepHands<T>(s: State<T>, a: Action<T>)
    requires !a.ThreadStep?
    ensures SameHands(s, Act(s, a)) && (!a.DrainStep? ==> Act(s, a).drain == s.drain)
  {
    match a
    case Produce(_) =>
    case CloserStep =>
    case _ =>
  }

  lemma ThreadKeepsDrain<T>(s: State<T>, timeout: bool, raises: bool)
    ensures Threaded(s, timeout, raises).drain == s.drain
  {
  }

  lemma DrainActKeepsInv<T>(s: State<T>, a: Action<T>)
    requires Bounds(s) && DrainInv(s)
    ensures DrainInv(Act(s, a))
  {
    hide Bounds, SeenInv, Threaded, SameHands;
    match a
    case ThreadStep(timeout, raises) =>
      ThreadKeepsDrain(s, timeout, raises);
      if s.drain.AtIdle? { SeenStays(s.drain.seen, s, timeout, raises); }
    case DrainStep(_) =>
      if s.queue.items == [] { LookIsSeen(s); }
      OthersKeepHands(s, a);
      var s' := Act(s, a);
      if s'.drain.AtIdle? { SeenCarries(s'.drain.seen, s, s'); }
    case _ =>
      OthersKeepHands(s, a);
      if s.drain.AtIdle? { SeenCarries(s.drain.seen, s, Act(s, a)); }
  }

  lemma {:induction false} DrainRunKeepsInv<T>(s: State<T>, actions: seq<Action<T>>)
    requires DeliveryInv(s) && DrainInv(s)
    ensures DrainInv(ActAll(s, actions)) && DeliveryInv(ActAll(s, actions))
    decreases |actions|
  {
    if actions != [] {
      ActKeepsInv(s, actions[0]);
      DrainActKeepsInv(s, actions[0]);
      DrainRunKeepsInv(Act(s, actions[0]), actions[1..]);
    }
  }

  /**
    What it means that drain has just returned True, by whichever branch and however the others
    interleaved with its reads: everything kept when it read the depth has been delivered,
      - exactly unless the thread still has in hand the item it had in hand at that read;
      - for the policies that count their drops, exactly if by now the observer has been called as
        often as offers had been made at that read, less the drops tallied by then: a check the
        caller can make;
      - and in any case if the idle flag was clear at that read and was then seen set.
    About items offered after that read it says nothing.
  */
  lemma WhatDrainedMeans<T>(capacity: nat, policy: Policy, actions: seq<Action<T>>, late: bool)
    requires capacity >= 1
    requires var s := ActAll(Start<T>(capacity, policy), actions);
             !s.drain.Returned? && Draining(s, late).Returned? && Draining(s, late).drained
    ensures var s := ActAll(Start<T>(capacity, policy), actions);
            var seen := Draining(s, late).seen;
            && (Delivered(seen, s) <==> !StillInHand(seen, s))
            && (policy != LatestOnly ==> (Delivered(seen, s) <==> |s.delivered| + seen.drops >= seen.offers))
            && (s.drain.AtIdle? && !seen.idle ==> Delivered(seen, s))
  {
    var start := Start<T>(capacity, policy);
    DrainRunKeepsInv(start, actions);
    PolicyIsConstant(start, actions);
    var s := ActAll(start, actions);
    if s.queue.items == [] { LookIsSeen(s); }
    NotBoth(Draining(s, late).seen, s);
  }

  /**
    A call of drain that finds the queue empty and the flag set returns True; the last check of one that
    does not, False.
  */
  lemma WhenDrainReturns<T>(s: State<T>, last: bool, late: bool)
    requires s.drain == AtDepth(last)
    ensures var seen := Act(s, DrainStep(late));
            && (s.queue.items == [] && s.idle ==> Act(seen, DrainStep(late)).drain == Returned(true, Look(s)))
            && (s.queue.items != [] && last ==> seen.drain.Returned? && !seen.drain.drained)
            && (s.queue.items == [] && !s.idle && last ==>
                  var end := Act(seen, DrainStep(late)).drain; end.Returned? && !end.drained)
            && (s.queue.items != [] && !last && !Alive(s.thread) ==>
                  var end := Act(Act(seen, DrainStep(late)), DrainStep(late)).drain; end.Returned? && !end.drained)
  {
  }

  /** Once the thread is found gone, the answer is whether the queue is empty. */
  lemma WhenThreadIsGone<T>(s: State<T>, late: bool)
    requires s.drain == AtThread && (!Alive(s.thread) || s.closer == Joining)
    ensures var end := Act(Act(s, DrainStep(late)), DrainStep(late)).drain;
            end.Returned? && (end.drained <==> s.queue.items == [])
  {
  }

  // ---------------------------------------------------------------- the idle flag

  function StateAt<T>(s: State<T>, actions: seq<Action<T>>, k: nat): State<T>
    requires k <= |actions|
  {
    ActAll(s, actions[..k])
  }

  lemma StateFirst<T>(s: State<T>, actions: seq<Action<T>>)
    ensures StateAt(s, actions, 0) == s
  {
    assert actions[..0] == [];
  }

  lemma StateAfter<T>(s: State<T>, actions: seq<Action<T>>, k: nat)
    requires k < |actions|
    ensures StateAt(s, actions, k + 1) == Act(StateAt(s, actions, k), actions[k])
  {
    assert actions[..k + 1] == actions[..k] + [actions[k]];
    ActAllSnoc(s, actions[..k], actions[k]);
  }

  /** What sets the flag, and what leads up to it. */
  lemma OnlyThenIdle<T>(s: State<T>, a: Action<T>)
    ensures !s.idle && Act(s, a).idle ==> s.thread.SettingIdle?
    ensures Act(s, a).thread.SettingIdle? && !s.thread.SettingIdle? ==>
              s.thread.AtFinally? && s.queue.items == [] && a.ThreadStep?
  {
    match a
    case ThreadStep(_, _) =>
    case _ =>
  }

  /** An item is handed over whether or not the observer raises, and nothing else is. */
  lemma HandedOver<T>(s: State<T>, a: Action<T>)
    ensures var s' := Act(s, a);
            if a.ThreadStep? && s.thread.Observing? then
              s'.delivered == s.delivered + [s.thread.item] && s'.failed == s.failed + (if a.raises then 1 else 0)
            else s'.delivered == s.delivered && s'.failed == s.failed
  {
    match a
    case ThreadStep(_, _) =>
    case _ =>
  }

  lemma {:induction false} WhereItCameFrom<T>(s: State<T>, actions: seq<Action<T>>, k: nat) returns (m: nat)
    requires k <= |actions| && !s.thread.SettingIdle? && StateAt(s, actions, k).thread.SettingIdle?
    ensures m < k && actions[m].ThreadStep?
    ensures StateAt(s, actions, m).thread.AtFinally? && StateAt(s, actions, m).queue.items == []
    ensures forall x | m < x <= k :: StateAt(s, actions, x).thread.SettingIdle?
    decreases k
  {
    hide Act;
    StateFirst(s, actions);
    if k == 0 {
      assert false;
    } else {
      StateAfter(s, actions, k - 1);
      OnlyThenIdle(StateAt(s, actions, k - 1), actions[k - 1]);
      if StateAt(s, actions, k - 1).thread.SettingIdle? {
        m := WhereItCameFrom(s, actions, k - 1);
      } else {
        m := k - 1;
      }
    }
  }

  /**
    Over any run, when the idle flag goes up, at k, the thread has earlier, at m, read the depth and
    found the queue empty with everything kept until then delivered, and has taken nothing since.
  */
  lemma IdleWasSeenEmpty<T>(capacity: nat, policy: Policy, actions: seq<Action<T>>, k: nat) returns (m: nat)
    requires capacity >= 1 && k < |actions|
    requires !StateAt(Start<T>(capacity, policy), actions, k).idle
    requires StateAt(Start<T>(capacity, policy), actions, k + 1).idle
    ensures m < k && StateAt(Start<T>(capacity, policy), actions, m).queue.items == []
    ensures var then_ := StateAt(Start<T>(capacity, policy), actions, m); Kept(then_) == then_.delivered
    ensures forall x | m < x <= k :: StateAt(Start<T>(capacity, policy), actions, x).thread.SettingIdle?
  {
    var s := Start<T>(capacity, policy);
    StateAfter(s, actions, k);
    OnlyThenIdle(StateAt(s, actions, k), actions[k]);
    m := WhereItCameFrom(s, actions, k);
    var seen := StateAt(s, actions, m);
    assert Kept(seen) == seen.delivered + Hand(seen.thread) + seen.queue.items;
  }

  // ---------------------------------------------------------------- runs in which drain says more than it knows

  lemma {:induction false} ActAllSnoc<T>(s: State<T>, actions: seq<Action<T>>, a: Action<T>)
    ensures ActAll(s, actions + [a]) == Act(ActAll(s, actions), a)
    decreases |actions|
  {
    if actions == [] {
      assert [a][1..] == [] && actions + [a] == [a];
    } else {
      assert (actions + [a])[1..] == actions[1..] + [a];
      ActAllSnoc(Act(s, actions[0]), actions[1..], a);
    }
  }

  /** Three steps of one party in a row. */
  lemma ActThrice<T>(s: State<T>, actions: seq<Action<T>>, a: Action<T>)
    ensures ActAll(s, actions + [a] + [a] + [a]) == Act(Act(Act(ActAll(s, actions), a), a), a)
  {
    ActAllSnoc(s, actions, a);
    ActAllSnoc(s, actions + [a], a);
    ActAllSnoc(s, actions + [a] + [a], a);
  }

  /**
    The thread has taken the only item and not yet cleared the idle flag: drain returns True with nothing
    delivered.
  */
  lemma DrainedWithAnItemInHand<T>(x: T) returns (actions: seq<Action<T>>)
    ensures var s := ActAll(Start<T>(1, DropNewest), actions);
            && s.drain.Returned? && s.drain.drained && s.drain.seen.kept == [x]
            && s.accepted == [x] && s.delivered == []
  {
    hide Act;
    var start := Start<T>(1, DropNewest);
    var step, look: Action<T> := ThreadStep(false, false), DrainStep(false);
    var holding := [] + [Produce(x)] + [EnsureThread] + [step] + [step];
    ActAllSnoc(start, [], Produce(x));
    ActAllSnoc(start, [] + [Produce(x)], EnsureThread);
    ActAllSnoc(start, [] + [Produce(x)] + [EnsureThread], step);
    ActAllSnoc(start, [] + [Produce(x)] + [EnsureThread] + [step], step);
    ActThrice(start, holding, look);
    actions := holding + [look] + [look] + [look];
    ToHolding(1, x);
    FromHolding(x);
  }

  /** The thread has just taken the one item offered so far. */
  function Holds<T>(capacity: nat, x: T): State<T>
    requires capacity >= 1
  {
    Start<T>(capacity, DropNewest).(thread := Holding(x), offered := [x], accepted := [x])
  }

  lemma ToHolding<T>(capacity: nat, x: T)
    requires capacity >= 1
    ensures var step: Action<T> := ThreadStep(false, false);
            Act(Act(Act(Act(Start<T>(capacity, DropNewest), Produce(x)), EnsureThread), step), step) ==
            Holds(capacity, x)
  {
    var start, step: Action<T> := Start<T>(capacity, DropNewest), ThreadStep(false, false);
    var queued := Act(start, Produce(x));
    assert queued == start.(queue := Queue(capacity, DropNewest, [x], 0, false), offered := [x], accepted := [x]);
    var started := Act(queued, EnsureThread);
    assert started == queued.(thread := AtTop);
    assert Act(started, step) == queued.(thread := Taking);
  }

  lemma FromHolding<T>(x: T)
    ensures var look: Action<T> := DrainStep(false);
            var s := Act(Act(Act(Holds(1, x), look), look), look);
            s.drain == Returned(true, Seen([x], true, 1, 0)) && s.accepted == [x] && s.delivered == []
  {
    assert Kept(Holds(1, x)) == [x];
  }

  function Reading<T>(x: T): State<T> {
    State(Queue(2, DropNewest, [], 0, false), Observing(x), false, false, BeforeStop,
          [x], [x], [], 0, [], 0, 0, AtIdle(false, Seen([x], false, 1, 0)))
  }

  /** Drain has read depth 0 while the one item offered so far is being observed. */
  lemma ReadWhileObserving<T>(x: T) returns (actions: seq<Action<T>>)
    ensures ActAll(Start<T>(2, DropNewest), actions) == Reading(x)
  {
    hide Act;
    var start := Start<T>(2, DropNewest);
    var step, look: Action<T> := ThreadStep(false, false), DrainStep(false);
    var begun: seq<Action<T>> := [] + [Produce(x)] + [EnsureThread];
    ActAllSnoc(start, [], Produce(x));
    ActAllSnoc(start, [] + [Produce(x)], EnsureThread);
    ActThrice(start, begun, step);
    ActAllSnoc(start, begun + [step] + [step] + [step], look);
    ActAllSnoc(start, begun + [step] + [step] + [step] + [look], look);
    actions := begun + [step] + [step] + [step] + [look] + [look];
    ToReading(x);
  }

  lemma ToReading<T>(x: T)
    ensures var step, look: Action<T> := ThreadStep(false, false), DrainStep(false);
            var s := Act(Act(Start<T>(2, DropNewest), Produce(x)), EnsureThread);
            Act(Act(Act(Act(Act(s, step), step), step), look), look) == Reading(x)
  {
    hide Act;
    var step: Action<T> := ThreadStep(false, false);
    ToHolding(2, x);
    ReadingFrom(x);
  }

  lemma ReadingFrom<T>(x: T)
    ensures var step, look: Action<T> := ThreadStep(false, false), DrainStep(false);
            Act(Act(Act(Holds(2, x), step), look), look) == Reading(x)
  {
    var observing := Act(Holds(2, x), ThreadStep(false, false));
    assert observing == Holds(2, x).(thread := Observing(x), idle := false);
    assert Kept(observing) == [x];
  }

  /** Between the two reads an item is delivered and another one offered: True, with the second one still queued. */
  lemma DrainIgnoresLaterOffers<T>(x: T, y: T) returns (actions: seq<Action<T>>)
    ensures var s := ActAll(Start<T>(2, DropNewest), actions);
            && s.drain.Returned? && s.drain.drained && s.drain.seen.kept == [x]
            && s.accepted == [x, y] && s.delivered == [x] && s.queue.items == [y]
  {
    hide Act;
    var start := Start<T>(2, DropNewest);
    var step: Action<T> := ThreadStep(false, false);
    var read := ReadWhileObserving(x);
    actions := read + [step] + [step] + [Produce(y)] + [step] + [DrainStep(false)];
    ActAllSnoc(start, read, step);
    ActAllSnoc(start, read + [step], step);
    ActAllSnoc(start, read + [step] + [step], Produce(y));
    ActAllSnoc(start, read + [step] + [step] + [Produce(y)], step);
    ActAllSnoc(start, read + [step] + [step] + [Produce(y)] + [step], DrainStep(false));
    FromReading(x, y);
  }

  lemma FromReading<T>(x: T, y: T)
    ensures var step: Action<T> := ThreadStep(false, false);
            var s := Act(Act(Act(Act(Act(Reading(x), step), step), Produce(y)), step), DrainStep(false));
            && s.drain == Returned(true, Seen([x], false, 1, 0))
            && s.accepted == [x, y] && s.delivered == [x] && s.queue.items == [y]
  {
    var step: Action<T> := ThreadStep(false, false);
    var s1 := Act(Reading(x), step);
    assert s1 == Reading(x).(delivered := [x], thread := AtFinally);
    var s2 := Act(s1, step);
    assert s2 == s1.(thread := SettingIdle);
    var s3 := Act(s2, Produce(y));
    assert s3.queue.items == [y] && s3.accepted == [x, y] && s3.thread == SettingIdle && s3.drain == Reading(x).drain;
    var s4 := Act(s3, step);
    assert s4 == s3.(idle := true, thread := AtTop);
  }
}
