/** The WorldBoard: namespaced state with immutable snapshots, a sliding history window, and notes. */
module WorldBoards {
  import opened Wrappers

  // Notes are one-shot and delivered in rounds. A ghost log of every post and every note passed is what
  // the fields are proved against.

  datatype BoardError =
    | NoNamespace | EmptySegment | ForeignNamespace
    | NotDeclared | NotWriter | WrongType
    | DottedName | AlreadyReceived | NoReceiver

  // ---------------------------------------------------------------- keys

  function FirstDot(key: string): (i: nat)
    ensures i <= |key| && '.' !in key[..i] && (i < |key| ==> key[i] == '.')
  {
    if key == "" || key[0] == '.' then 0
    else
      var i := FirstDot(key[1..]);
      assert key[..i + 1] == [key[0]] + key[1..][..i];
      i + 1
  }

  /** Namespace and rest: the key up to its first dot, and everything after it. */
  function SplitNamespace(key: string): (r: Result<(string, string), BoardError>)
    ensures r.Ok? ==>
              && key == r.value.0 + "." + r.value.1
              && r.value.0 != "" && r.value.1 != "" && '.' !in r.value.0
    ensures r == Err(NoNamespace) <==> '.' !in key
    ensures r == Err(EmptySegment) <==> key != "" && (key[0] == '.' || FirstDot(key) == |key| - 1)
  {
    var i := FirstDot(key);
    if i == |key| then Err(NoNamespace)
    else if i == 0 || i + 1 == |key| then Err(EmptySegment)
    else Ok((key[..i], key[i + 1..]))
  }

  function Namespace(key: string): string {
    key[..FirstDot(key)]
  }

  // ---------------------------------------------------------------- the log

  datatype Meta = Meta(valueType: nat, writer: string)

  datatype Post<V> = Post(key: string, value: V, writer: string, ts: real)

  datatype Snapshot<V> = Snapshot(seqNo: nat, ts: real, data: map<string, V>, changedKey: Option<string>,
          writer: Option<string>)

  /** The board's contents after a series of posts. */
  function DataAfter<V>(log: seq<Post<V>>): map<string, V> {
    if log == [] then map[] else DataAfter(log[..|log| - 1])[log[|log| - 1].key := log[|log| - 1].value]
  }

  /** The snapshot the n-th post produced; the zeroth is the empty one the board starts with. */
  function SnapshotAt<V>(start: real, log: seq<Post<V>>, n: nat): Snapshot<V>
    requires n <= |log|
  {
    if n == 0 then Snapshot(0, start, map[], None, None)
    else Snapshot(n, log[n - 1].ts, DataAfter(log[..n]), Some(log[n - 1].key), Some(log[n - 1].writer))
  }

  function Least(a: nat, b: nat): nat {
    if a <= b then a else b
  }

  /** The last `window` snapshots, or all of them. */
  function Window<V>(start: real, log: seq<Post<V>>, window: nat): (r: seq<Snapshot<V>>)
    ensures |r| == Least(window, |log| + 1)
    ensures forall i | 0 <= i < |r| :: r[i] == SnapshotAt(start, log, |log| + 1 - |r| + i)
  {
    var n := Least(window, |log| + 1);
    seq(n, i requires 0 <= i < n => SnapshotAt(start, log, |log| + 1 - n + i))
  }

  lemma SnapshotPrefix<V>(start: real, log: seq<Post<V>>, p: Post<V>, n: nat)
    requires n <= |log|
    ensures SnapshotAt(start, log + [p], n) == SnapshotAt(start, log, n)
  {
    if n > 0 { assert (log + [p])[..n] == log[..n]; }
  }

  /** Appending to a full deque drops its oldest entry. */
  function Pushed<V>(h: seq<Snapshot<V>>, s: Snapshot<V>, window: nat): seq<Snapshot<V>> {
    var all := h + [s];
    if |all| > window then all[|all| - window..] else all
  }

  lemma WindowSlides<V>(start: real, log: seq<Post<V>>, p: Post<V>, window: nat)
    ensures Pushed(Window(start, log, window), SnapshotAt(start, log + [p], |log| + 1), window) ==
            Window(start, log + [p], window)
  {
    var h, h' := Window(start, log, window), Window(start, log + [p], window);
    var s := SnapshotAt(start, log + [p], |log| + 1);
    if window > 0 {
      var m := |h'| - 1;
      forall i | 0 <= i < m ensures h'[i] == h[|h| - m + i] { SnapshotPrefix(start, log, p, |log| + 1 - m + i); }
      assert h' == h[|h| - m..] + [s];
      assert Pushed(h, s, window) == h[|h| - m..] + [s];
    }
  }

  lemma DataOfCurrent<V>(start: real, log: seq<Post<V>>, p: Post<V>)
    ensures SnapshotAt(start, log + [p], |log| + 1) ==
            Snapshot(|log| + 1, p.ts, SnapshotAt(start, log, |log|).data[p.key := p.value], Some(p.key), Some(p.writer))
  {
    assert (log + [p])[..|log| + 1] == log + [p] && (log + [p])[..|log|] == log && log[..|log|] == log;
  }

  /** The last post of a key before index n, if any. */
  function LastPost<V>(log: seq<Post<V>>, n: nat, key: string): (r: Option<nat>)
    requires n <= |log|
    ensures r.Some? ==> r.value < n && log[r.value].key == key && forall i | r.value < i < n :: log[i].key != key
    ensures r.None? ==> forall i | 0 <= i < n :: log[i].key != key
  {
    if n == 0 then None else if log[n - 1].key == key then Some(n - 1) else LastPost(log, n - 1, key)
  }

  /** A snapshot shows for each key the last value posted at or before it, and nothing for a key not posted yet. */
  lemma {:induction false} SnapshotShowsLastPost<V>(start: real, log: seq<Post<V>>, n: nat, key: string)
    requires n <= |log|
    ensures var data, j := SnapshotAt(start, log, n).data, LastPost(log, n, key);
            (key in data <==> j.Some?) && (j.Some? ==> data[key] == log[j.value].value)
  {
    DataShowsLastPost(log, n, key);
    if n == 0 { assert log[..0] == []; }
  }

  lemma {:induction false} DataShowsLastPost<V>(log: seq<Post<V>>, n: nat, key: string)
    requires n <= |log|
    ensures var data, j := DataAfter(log[..n]), LastPost(log, n, key);
            (key in data <==> j.Some?) && (j.Some? ==> data[key] == log[j.value].value)
  {
    if n > 0 {
      DataShowsLastPost(log, n - 1, key);
      DataGrows(log, n);
    }
  }

  lemma DataGrows<V>(log: seq<Post<V>>, n: nat)
    requires 0 < n <= |log|
    ensures DataAfter(log[..n]) == DataAfter(log[..n - 1])[log[n - 1].key := log[n - 1].value]
  {
    var upTo := log[..n];
    assert upTo[..|upTo| - 1] == log[..n - 1] && upTo[|upTo| - 1] == log[n - 1];
  }

  // ---------------------------------------------------------------- queries on the window

  function HistoryOf<V>(h: seq<Snapshot<V>>, key: string): seq<Snapshot<V>> {
    if h == [] then []
    else HistoryOf(h[..|h| - 1], key) + if h[|h| - 1].changedKey == Some(key) then [h[|h| - 1]] else []
  }

  /** What a key received over a stretch of posts. */
  function Values<V>(log: seq<Post<V>>, key: string): seq<V> {
    if log == [] then []
    else Values(log[..|log| - 1], key) + if log[|log| - 1].key == key then [log[|log| - 1].value] else []
  }

  /** The snapshots produced by posts first, first + 1, .. end - 1. */
  function Produced<V>(start: real, log: seq<Post<V>>, first: nat, end: nat): (r: seq<Snapshot<V>>)
    requires first <= end <= |log|
    ensures |r| == end - first && forall i | 0 <= i < |r| :: r[i] == SnapshotAt(start, log, first + 1 + i)
  {
    seq(end - first, i requires 0 <= i < end - first => SnapshotAt(start, log, first + 1 + i))
  }

  /** Querying snapshots for a key returns exactly what the posts behind them gave it, in order. */
  lemma {:induction false} HistoryIsPosts<V>(start: real, log: seq<Post<V>>, first: nat, end: nat, key: string)
    requires first <= end <= |log|
    ensures ShowsValues(HistoryOf(Produced(start, log, first, end), key), key, Values(log[first..end], key))
    decreases end
  {
    if first < end {
      var h, last := Produced(start, log, first, end), log[end - 1];
      HistoryIsPosts(start, log, first, end - 1, key);
      assert h[..|h| - 1] == Produced(start, log, first, end - 1);
      assert log[first..end][..end - 1 - first] == log[first..end - 1];
      SnapshotShowsLastPost(start, log, end, key);
      if last.key == key {
        ShowsOneMore(HistoryOf(h[..|h| - 1], key), key, Values(log[first..end - 1], key), h[|h| - 1], last.value);
      }
    }
  }

  ghost predicate ShowsValues<V>(h: seq<Snapshot<V>>, key: string, values: seq<V>) {
    |h| == |values| && forall i | 0 <= i < |h| :: key in h[i].data && h[i].data[key] == values[i]
  }

  lemma ShowsOneMore<V>(h: seq<Snapshot<V>>, key: string, values: seq<V>, s: Snapshot<V>, v: V)
    requires ShowsValues(h, key, values) && key in s.data && s.data[key] == v
    ensures ShowsValues(h + [s], key, values + [v])
  {
  }

  lemma {:induction false} SkipEmptySnapshot<V>(first: Snapshot<V>, h: seq<Snapshot<V>>, key: string)
    requires first.changedKey == None
    ensures HistoryOf([first] + h, key) == HistoryOf(h, key)
    decreases |h|
  {
    var all := [first] + h;
    if h == [] {
      assert all[..0] == [];
    } else {
      assert all[..|all| - 1] == [first] + h[..|h| - 1];
      SkipEmptySnapshot(first, h[..|h| - 1], key);
    }
  }

  /** The window as a whole: the last min(window, posts) posts. */
  lemma WindowShowsPosts<V>(start: real, log: seq<Post<V>>, window: nat, key: string)
    ensures ShowsValues(HistoryOf(Window(start, log, window), key), key,
                        Values(log[|log| - Least(window, |log|)..], key))
  {
    var m := Least(window, |log|);
    var recent := Produced(start, log, |log| - m, |log|);
    HistoryIsPosts(start, log, |log| - m, |log|, key);
    assert log[|log| - m..|log|] == log[|log| - m..];
    if window <= |log| {
      assert Window(start, log, window) == recent;
    } else {
      assert Window(start, log, window) == [SnapshotAt(start, log, 0)] + recent;
      SkipEmptySnapshot(SnapshotAt(start, log, 0), recent, key);
    }
  }

  /** A list sliced from -n on: the last n for positive n, the whole list for 0, all but the first |n| below that. */
  function LastN<V>(s: seq<V>, n: Option<int>): seq<V> {
    if n.None? || n.value == 0 then s
    else if n.value > 0 then s[|s| - Least(n.value, |s|)..]
    else s[Least(-n.value, |s|)..]
  }

  lemma LastNIs<V>(s: seq<V>, n: Option<int>)
    ensures var r := LastN(s, n);
            && |r| == (if n.None? || n.value == 0 then |s|
                       else if n.value > 0 then Least(n.value, |s|) else |s| - Least(-n.value, |s|))
            && r == s[|s| - |r|..]
  {
  }

  // ---------------------------------------------------------------- notes

  datatype Note<P> = Note(namespace: string, name: string, payload: P, sender: string)

  /** What a receiver does with a note: the notes it tries to pass, and whether it raises after that. */
  datatype Reaction<P> = Reaction(passes: seq<Note<P>>, raises: bool)

  /** A receiver may depend on everything delivered before. */
  type Receivers<!P> = (seq<Note<P>>, Note<P>) -> Reaction<P>

  datatype Acceptor = Acceptor(payloadType: nat)

  /** What decides whether a note can be passed: who receives, and what counts as a payload of a type. */
  datatype Desk<!P> = Desk(acceptors: map<(string, string), Acceptor>, payloadIs: (P, nat) -> bool)

  function Refusal<P>(d: Desk<P>, n: Note<P>): Result<(), BoardError> {
    if (n.namespace, n.name) !in d.acceptors then Err(NoReceiver)
    else if !d.payloadIs(n.payload, d.acceptors[(n.namespace, n.name)].payloadType) then Err(WrongType)
    else Ok(())
  }

  /** The notes of a batch a receiver manages to pass: those before the first refusal. */
  function Admitted<P>(d: Desk<P>, ns: seq<Note<P>>): (r: seq<Note<P>>)
    ensures |r| <= |ns| && forall i | 0 <= i < |r| :: Refusal(d, r[i]).Ok?
  {
    if ns == [] || Refusal(d, ns[0]).Err? then [] else [ns[0]] + Admitted(d, ns[1..])
  }

  /** The first j notes of a batch were all admitted. */
  predicate PassedSoFar<P>(d: Desk<P>, ns: seq<Note<P>>, j: nat) {
    j <= |ns| && forall i | 0 <= i < j :: Refusal(d, ns[i]).Ok?
  }

  lemma {:induction false} AdmittedIs<P>(d: Desk<P>, ns: seq<Note<P>>, j: nat)
    requires PassedSoFar(d, ns, j) && (j < |ns| ==> Refusal(d, ns[j]).Err?)
    ensures Admitted(d, ns) == ns[..j]
    decreases |ns|
  {
    if j > 0 {
      AdmittedIs(d, ns[1..], j - 1);
      assert ns[..j] == [ns[0]] + ns[1..][..j - 1];
    }
  }

  lemma AdmittedStep<P>(d: Desk<P>, ns: seq<Note<P>>, j: nat)
    requires j < |ns| && PassedSoFar(d, ns, j)
    ensures Refusal(d, ns[j]).Err? ==> Admitted(d, ns) == ns[..j]
    ensures Refusal(d, ns[j]).Ok? ==> PassedSoFar(d, ns, j + 1)
    ensures ns[..j + 1] == ns[..j] + [ns[j]]
  {
    if Refusal(d, ns[j]).Err? { AdmittedIs(d, ns, j); }
  }

  lemma AllPassed<P>(d: Desk<P>, ns: seq<Note<P>>)
    requires PassedSoFar(d, ns, |ns|)
    ensures Admitted(d, ns) == ns == ns[..|ns|]
  {
    AdmittedIs(d, ns, |ns|);
  }

  predicate Raised<P>(d: Desk<P>, a: Reaction<P>) {
    a.raises || |Admitted(d, a.passes)| < |a.passes|
  }

  /** All notes passed while a round is delivered. */
  function PassedDuring<P>(d: Desk<P>, react: Receivers<P>, before: seq<Note<P>>,
          round: seq<Note<P>>): (r: seq<Note<P>>)
    ensures forall i | 0 <= i < |r| :: Refusal(d, r[i]).Ok?
  {
    if round == [] then []
    else
      var n := |round| - 1;
      PassedDuring(d, react, before, round[..n]) + Admitted(d, react(before + round[..n], round[n]).passes)
  }

  /** The notes of a round whose receiver raised, by itself or because a note it passed was refused. */
  function Raisers<P>(d: Desk<P>, react: Receivers<P>, before: seq<Note<P>>, round: seq<Note<P>>): seq<Note<P>> {
    if round == [] then []
    else
      var n := |round| - 1;
      Raisers(d, react, before, round[..n]) + if Raised(d, react(before + round[..n], round[n])) then [round[n]] else []
  }

  lemma OneMoreNote<P>(d: Desk<P>, react: Receivers<P>, before: seq<Note<P>>, round: seq<Note<P>>, i: nat)
    requires i < |round|
    ensures var a := react(before + round[..i], round[i]);
            && PassedDuring(d, react, before, round[..i + 1]) ==
                PassedDuring(d, react, before, round[..i]) + Admitted(d, a.passes)
            && Raisers(d, react, before, round[..i + 1]) ==
               Raisers(d, react, before, round[..i]) + if Raised(d, a) then [round[i]] else []
  {
    var soFar := round[..i + 1];
    assert soFar[..|soFar| - 1] == round[..i] && soFar[|soFar| - 1] == round[i];
  }

  /** What a receiver manages to pass: everything before the first note that is refused. */
  ghost predicate Manages<P>(d: Desk<P>, ns: seq<Note<P>>, r: seq<Note<P>>) {
    && r <= ns && (forall i | 0 <= i < |r| :: Refusal(d, r[i]).Ok?)
    && (|r| < |ns| ==> Refusal(d, ns[|r|]).Err?)
  }

  lemma {:induction false} AdmittedManages<P>(d: Desk<P>, ns: seq<Note<P>>)
    ensures Manages(d, ns, Admitted(d, ns))
    decreases |ns|
  {
    if ns != [] && Refusal(d, ns[0]).Ok? {
      AdmittedManages(d, ns[1..]);
      assert ns == [ns[0]] + ns[1..];
    }
  }

  function Concat<P>(parts: seq<seq<Note<P>>>): seq<Note<P>> {
    if parts == [] then [] else Concat(parts[..|parts| - 1]) + parts[|parts| - 1]
  }

  /** What the receiver of the i-th note of a round does, knowing everything handed over before. */
  function ReactionTo<P>(react: Receivers<P>, before: seq<Note<P>>, round: seq<Note<P>>, i: nat): Reaction<P>
    requires i < |round|
  {
    react(before + round[..i], round[i])
  }

  /** Each receiver passes what it manages to, and all of that in order is what was passed. */
  ghost predicate PassesAre<P>(d: Desk<P>, react: Receivers<P>, before: seq<Note<P>>, round: seq<Note<P>>,
          passes: seq<seq<Note<P>>>, all: seq<Note<P>>) {
    && |passes| == |round| && all == Concat(passes)
    && forall i | 0 <= i < |round| :: Manages(d, ReactionTo(react, before, round, i).passes, passes[i])
  }

  /** The receiver raised by itself, or a note it passed was refused. */
  predicate RaisedAt<P>(react: Receivers<P>, before: seq<Note<P>>, round: seq<Note<P>>, passes: seq<seq<Note<P>>>,
          i: nat)
    requires i < |round| == |passes|
  {
    ReactionTo(react, before, round, i).raises || |passes[i]| < |ReactionTo(react, before, round, i).passes|
  }

  /** `raised` are the places of the notes listed, in order. */
  ghost predicate RaisersAre<P>(react: Receivers<P>, before: seq<Note<P>>, round: seq<Note<P>>,
          passes: seq<seq<Note<P>>>, raised: seq<nat>, listed: seq<Note<P>>)
    requires |round| == |passes|
  {
    && (forall i: nat :: i in raised <==> i < |round| && RaisedAt(react, before, round, passes, i))
    && (forall i, j | 0 <= i < j < |raised| :: raised[i] < raised[j])
    && |listed| == |raised| && forall j | 0 <= j < |raised| :: raised[j] < |round| && listed[j] == round[raised[j]]
  }

  lemma ReactionToPrefix<P>(react: Receivers<P>, before: seq<Note<P>>, round: seq<Note<P>>, n: nat, i: nat)
    requires i < n <= |round|
    ensures ReactionTo(react, before, round[..n], i) == ReactionTo(react, before, round, i)
  {
    assert round[..n][..i] == round[..i];
  }

  lemma PassesNext<P>(d: Desk<P>, react: Receivers<P>, before: seq<Note<P>>, round: seq<Note<P>>, n: nat,
          passes: seq<seq<Note<P>>>, all: seq<Note<P>>)
    requires n + 1 == |round| && PassesAre(d, react, before, round[..n], passes, all)
    ensures var more := Admitted(d, ReactionTo(react, before, round, n).passes);
            PassesAre(d, react, before, round, passes + [more], all + more)
  {
    hide ReactionTo, Manages, Admitted;
    var more := Admitted(d, ReactionTo(react, before, round, n).passes);
    var passes' := passes + [more];
    AdmittedManages(d, ReactionTo(react, before, round, n).passes);
    assert passes'[..n] == passes;
    forall i | 0 <= i < |round| ensures Manages(d, ReactionTo(react, before, round, i).passes, passes'[i]) {
      if i < n { ReactionToPrefix(react, before, round, n, i); }
    }
  }

  lemma RaisedAtPrefix<P>(react: Receivers<P>, before: seq<Note<P>>, round: seq<Note<P>>, n: nat,
          passes: seq<seq<Note<P>>>, more: seq<Note<P>>, i: nat)
    requires i < n == |passes| && n + 1 == |round|
    ensures RaisedAt(react, before, round, passes + [more], i) == RaisedAt(react, before, round[..n], passes, i)
  {
    hide ReactionTo;
    ReactionToPrefix(react, before, round, n, i);
  }

  lemma RaisersNext<P>(react: Receivers<P>, before: seq<Note<P>>, round: seq<Note<P>>, n: nat,
          passes: seq<seq<Note<P>>>, more: seq<Note<P>>, raised: seq<nat>, listed: seq<Note<P>>)
      returns (raised': seq<nat>)
    requires n + 1 == |round| && |passes| == n && RaisersAre(react, before, round[..n], passes, raised, listed)
    ensures var up := RaisedAt(react, before, round, passes + [more], n);
            RaisersAre(react, before, round, passes + [more], raised', listed + if up then [round[n]] else [])
  {
    hide ReactionTo, RaisedAt;
    var passes' := passes + [more];
    assert forall j | 0 <= j < |raised| :: raised[j] in raised && raised[j] < n;
    raised' := if RaisedAt(react, before, round, passes', n) then raised + [n] else raised;
    forall i: nat ensures i in raised' <==> i < |round| && RaisedAt(react, before, round, passes', i) {
      if i < n { RaisedAtPrefix(react, before, round, n, passes, more, i); }
    }
  }

  /**
    A round, note by note: what each receiver manages to pass, all of it in order the next round; and
    the notes whose receiver raised, by itself or by being refused, in order.
  */
  lemma {:induction false} RoundIs<P>(d: Desk<P>, react: Receivers<P>, before: seq<Note<P>>, round: seq<Note<P>>)
      returns (passes: seq<seq<Note<P>>>, raised: seq<nat>)
    ensures PassesAre(d, react, before, round, passes, PassedDuring(d, react, before, round))
    ensures RaisersAre(react, before, round, passes, raised, Raisers(d, react, before, round))
    decreases |round|
  {
    hide PassesAre, RaisersAre;
    if round == [] {
      NoRound(d, react, before);
      passes, raised := [], [];
    } else {
      var n := |round| - 1;
      var more := Admitted(d, ReactionTo(react, before, round, n).passes);
      passes, raised := RoundIs(d, react, before, round[..n]);
      PassesCount(d, react, before, round[..n], passes, PassedDuring(d, react, before, round[..n]));
      PassesNext(d, react, before, round, n, passes, PassedDuring(d, react, before, round[..n]));
      raised := RaisersNext(react, before, round, n, passes, more, raised, Raisers(d, react, before, round[..n]));
      passes := passes + [more];
    }
  }

  lemma PassesCount<P>(d: Desk<P>, react: Receivers<P>, before: seq<Note<P>>, round: seq<Note<P>>,
          passes: seq<seq<Note<P>>>, all: seq<Note<P>>)
    requires PassesAre(d, react, before, round, passes, all)
    ensures |passes| == |round|
  {
  }

  lemma NoRound<P>(d: Desk<P>, react: Receivers<P>, before: seq<Note<P>>)
    ensures PassesAre(d, react, before, [], [], PassedDuring(d, react, before, []))
    ensures RaisersAre(react, before, [], [], [], Raisers(d, react, before, []))
  {
  }

  predicate Receivable<P>(acceptors: map<(string, string), Acceptor>, ns: seq<Note<P>>) {
    forall i | 0 <= i < |ns| :: (ns[i].namespace, ns[i].name) in acceptors
  }

  class WorldBoard<V(==), P(==)> {
    const historySize: nat
    const startTime: real
    const valueIs: (V, nat) -> bool
    const payloadIs: (P, nat) -> bool
    var stateMeta: map<string, Meta>
    var namespaceOwners: map<string, string>
    var noteAcceptors: map<(string, string), Acceptor>
    var pendingNotes: seq<Note<P>>
    var seqNo: nat
    var current: Snapshot<V>
    var history: seq<Snapshot<V>>
    /** Every post committed and every note accepted for delivery. */
    ghost var log: seq<Post<V>>
    ghost var passed: seq<Note<P>>
    /** The receivers' side: every note handed to its receiver. */
    var delivered: seq<Note<P>>

    /** The fields are what the log of posts makes them. */
    ghost predicate StateValid()
      reads this
    {
      && seqNo == |log|
      && current == SnapshotAt(startTime, log, |log|)
      && history == Window(startTime, log, historySize)
    }

    function TheDesk(): Desk<P>
      reads `noteAcceptors
    {
      Desk(noteAcceptors, payloadIs)
    }

    /** Every declared key and every post in a namespace belongs to the namespace's one owner. */
    ghost predicate OwnersValid()
      reads this
    {
      && (forall k | k in stateMeta ::
            Namespace(k) in namespaceOwners && stateMeta[k].writer == namespaceOwners[Namespace(k)])
      && (forall i | 0 <= i < |log| ::
            Namespace(log[i].key) in namespaceOwners && log[i].writer == namespaceOwners[Namespace(log[i].key)])
    }

    ghost predicate NotesValid()
      reads this
    {
      && passed == delivered + pendingNotes
      && Receivable(noteAcceptors, pendingNotes)
    }

    ghost predicate Valid()
      reads this
    {
      StateValid() && OwnersValid() && NotesValid()
    }

    constructor (historySize: nat, startTime: real, valueIs: (V, nat) -> bool, payloadIs: (P, nat) -> bool)
      ensures Valid() && log == [] && passed == [] && delivered == []
      ensures this.historySize == historySize && this.startTime == startTime
    {
      this.historySize, this.startTime := historySize, startTime;
      this.valueIs, this.payloadIs := valueIs, payloadIs;
      stateMeta, namespaceOwners, noteAcceptors, pendingNotes := map[], map[], map[], [];
      var empty := Snapshot(0, startTime, map[], None, None);
      seqNo, current := 0, empty;
      history := if historySize == 0 then [] else [empty];
      log, passed, delivered := [], [], [];
    }

    /** The first declaration in a namespace fixes its owner for good; nobody else can declare there. */
    method DeclareState(key: string, valueType: nat, writer: string) returns (r: Result<(), BoardError>)
      requires Valid()
      modifies `stateMeta, `namespaceOwners
      ensures Valid()
      ensures r == match SplitNamespace(key)
                   case Err(e) => Err(e)
                   case Ok(parts) =>
                     if parts.0 in old(namespaceOwners) && old(namespaceOwners)[parts.0] != writer then
                       Err(ForeignNamespace)
                     else Ok(())
      ensures r.Err? ==> stateMeta == old(stateMeta) && namespaceOwners == old(namespaceOwners)
      ensures r.Ok? ==> stateMeta == old(stateMeta)[key := Meta(valueType, writer)]
                        && namespaceOwners == old(namespaceOwners)[Namespace(key) := writer]
    {
      var parts :- SplitNamespace(key);
      var namespace := parts.0;
      if namespace !in namespaceOwners {
        namespaceOwners := namespaceOwners[namespace := writer];
      } else if namespaceOwners[namespace] != writer {
        return Err(ForeignNamespace);
      }
      assert namespaceOwners == old(namespaceOwners)[namespace := writer];
      stateMeta := stateMeta[key := Meta(valueType, writer)];
      return Ok(());
    }

    /** A post is refused unless the key is declared, by this writer, with this type; a refused one leaves no trace. */
    method PostState(key: string, value: V, writer: string, ts: real) returns (r: Result<(), BoardError>)
      requires Valid()
      modifies `seqNo, `current, `history, `log
      ensures Valid()
      ensures r == if key !in stateMeta then Err(NotDeclared)
                   else if stateMeta[key].writer != writer then Err(NotWriter)
                   else if !valueIs(value, stateMeta[key].valueType) then Err(WrongType)
                   else Ok(())
      ensures log == if r.Ok? then old(log) + [Post(key, value, writer, ts)] else old(log)
    {
      if key !in stateMeta { return Err(NotDeclared); }
      if stateMeta[key].writer != writer { return Err(NotWriter); }
      if !valueIs(value, stateMeta[key].valueType) { return Err(WrongType); }
      Commit(key, value, writer, ts);
      return Ok(());
    }

    method Commit(key: string, value: V, writer: string, ts: real)
      requires StateValid()
      modifies `seqNo, `current, `history, `log
      ensures StateValid() && log == old(log) + [Post(key, value, writer, ts)]
    {
      ghost var p := Post(key, value, writer, ts);
      WindowSlides(startTime, log, p, historySize);
      DataOfCurrent(startTime, log, p);
      seqNo := seqNo + 1;
      var s := Snapshot(seqNo, ts, current.data[key := value], Some(key), Some(writer));
      current := s;
      history := history + [s];
      if |history| > historySize { history := history[|history| - historySize..]; }
      log := log + [p];
    }

    // ------------------------------------------------------------ notes

    method AcceptNotes(namespace: string, name: string, payloadType: nat) returns (r: Result<(), BoardError>)
      requires Valid()
      modifies `noteAcceptors
      ensures Valid()
      ensures r == if '.' in name then Err(DottedName)
                   else if (namespace, name) in old(noteAcceptors) then Err(AlreadyReceived)
                   else Ok(())
      ensures noteAcceptors ==
              if r.Ok? then old(noteAcceptors)[(namespace, name) := Acceptor(payloadType)] else old(noteAcceptors)
    {
      if '.' in name { return Err(DottedName); }
      if (namespace, name) in noteAcceptors { return Err(AlreadyReceived); }
      noteAcceptors := noteAcceptors[(namespace, name) := Acceptor(payloadType)];
      return Ok(());
    }

    method PassNote(n: Note<P>) returns (r: Result<(), BoardError>)
      requires Valid()
      modifies `pendingNotes, `passed
      ensures Valid() && r == Refusal(TheDesk(), n)
      ensures r == Err(NoReceiver) <==> (n.namespace, n.name) !in noteAcceptors
      ensures r == Ok(()) <==> (n.namespace, n.name) in noteAcceptors
                               && payloadIs(n.payload, noteAcceptors[(n.namespace, n.name)].payloadType)
      ensures pendingNotes == old(pendingNotes) + (if r.Ok? then [n] else [])
      ensures passed == old(passed) + (if r.Ok? then [n] else [])
    {
      if (n.namespace, n.name) !in noteAcceptors { return Err(NoReceiver); }
      if !payloadIs(n.payload, noteAcceptors[(n.namespace, n.name)].payloadType) { return Err(WrongType); }
      pendingNotes, passed := pendingNotes + [n], passed + [n];
      return Ok(());
    }

    /**
      One round: every note pending at its start is handed over once, in pass order, whatever the
      receivers raise; what they pass meanwhile waits for the next round.
    */
    method DeliverNotes(react: Receivers<P>) returns (errors: seq<Note<P>>)
      requires Valid()
      modifies `pendingNotes, `passed, `delivered
      ensures Valid()
      ensures delivered == old(delivered) + old(pendingNotes)
      ensures pendingNotes == PassedDuring(TheDesk(), react, old(delivered), old(pendingNotes))
      ensures passed == old(passed) + pendingNotes
      ensures errors == Raisers(TheDesk(), react, old(delivered), old(pendingNotes))
    {
      var round := pendingNotes;
      pendingNotes := [];
      errors := HandOver(round, react);
    }

    method HandOver(round: seq<Note<P>>, react: Receivers<P>) returns (errors: seq<Note<P>>)
      requires pendingNotes == []
      modifies `pendingNotes, `passed, `delivered
      ensures delivered == old(delivered) + round && passed == old(passed) + pendingNotes
      ensures pendingNotes == PassedDuring(TheDesk(), react, old(delivered), round)
      ensures errors == Raisers(TheDesk(), react, old(delivered), round)
      ensures Receivable(noteAcceptors, pendingNotes)
    {
      ghost var before, passed0, desk := delivered, passed, TheDesk();
      errors := [];
      for i := 0 to |round|
        invariant delivered == before + round[..i] && passed == passed0 + pendingNotes
        invariant pendingNotes == PassedDuring(desk, react, before, round[..i])
        invariant errors == Raisers(desk, react, before, round[..i])
      {
        OneMoreNote(desk, react, before, round, i);
        var raised := HandOne(round[i], react, passed0);
        if raised { errors := errors + [round[i]]; }
      }
      assert round[..|round|] == round;
    }

    method HandOne(n: Note<P>, react: Receivers<P>, ghost passed0: seq<Note<P>>) returns (raised: bool)
      requires passed == passed0 + pendingNotes
      modifies `pendingNotes, `passed, `delivered
      ensures delivered == old(delivered) + [n] && passed == passed0 + pendingNotes
      ensures pendingNotes == old(pendingNotes) + Admitted(TheDesk(), react(old(delivered), n).passes)
      ensures raised == Raised(TheDesk(), react(old(delivered), n))
    {
      raised := Receive(react(delivered, n));
      delivered := delivered + [n];
    }

    /** One receiver at work in the middle of a round. */
    method Receive(a: Reaction<P>) returns (raised: bool)
      modifies `pendingNotes, `passed
      ensures pendingNotes == old(pendingNotes) + Admitted(TheDesk(), a.passes)
      ensures passed == old(passed) + Admitted(TheDesk(), a.passes)
      ensures raised == Raised(TheDesk(), a)
    {
      ghost var desk, all, pending0, passed0 := TheDesk(), Admitted(TheDesk(), a.passes), pendingNotes, passed;
      for j := 0 to |a.passes|
        invariant PassedSoFar(desk, a.passes, j)
        invariant pendingNotes == pending0 + a.passes[..j] && passed == passed0 + a.passes[..j]
      {
        var n := a.passes[j];
        AdmittedStep(desk, a.passes, j);
        if (n.namespace, n.name) !in noteAcceptors
           || !payloadIs(n.payload, noteAcceptors[(n.namespace, n.name)].payloadType)
        {
          return true;
        }
        pendingNotes, passed := pendingNotes + [n], passed + [n];
      }
      AllPassed(desk, a.passes);
      return a.raises;
    }

    // ------------------------------------------------------------ queries

    /** Values posted to a key by the posts still in the window, most recent last; n cuts the list as slicing does. */
    method ValuesOf(key: string, n: Option<int>) returns (values: seq<V>)
      requires Valid()
      ensures var posted := Values(log[|log| - Least(historySize, |log|)..], key);
              && |values| == (if n.None? || n.value == 0 then |posted|
                              else if n.value > 0 then Least(n.value, |posted|)
                              else |posted| - Least(-n.value, |posted|))
              && values == posted[|posted| - |values|..]
      ensures values == LastN(Values(log[|log| - Least(historySize, |log|)..], key), n)
    {
      hide Window, LastN, Values, HistoryOf;
      WindowShowsPosts(startTime, log, historySize, key);
      ghost var posted := Values(log[|log| - Least(historySize, |log|)..], key);
      var shown := Show(HistoryOf(history, key), key, posted);
      values := LastN(shown, n);
      LastNIs(shown, n);
    }
  }

  method Show<V>(snaps: seq<Snapshot<V>>, key: string, ghost posted: seq<V>) returns (values: seq<V>)
    requires ShowsValues(snaps, key, posted)
    ensures values == posted
  {
    values := [];
    for i := 0 to |snaps|
      invariant values == posted[..i]
    {
      values := values + [snaps[i].data[key]];
    }
  }
}
