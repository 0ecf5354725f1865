/** Two trees with the same normal form cannot be told apart. */
module Flattening {
  import opened Wrappers
  import opened BehaviorTree
  import opened TreeInvariants
  import opened LeafProtocol

  // The normal form of a tree splices nested Sequences (and nested Fallbacks) into one child list and
  // forgets everything an IDLE node may carry: memory indexes, counters, start times and recorded
  // exceptions. Ticking and halting respect it. Two consequences: the operators may flatten what they
  // build, and a halted tree reruns like a new one.

  // ---------------------------------------------------------------- the normal form

  function PlainKind(k: ControlKind): ControlKind {
    match k
    case Sequence(_) => Sequence(false)
    case Fallback(_) => Fallback(false)
    case _ => k
  }

  /** A Sequence below a Sequence, or a Fallback below a Fallback. */
  predicate Nests(k: ControlKind, c: Tree) {
    HasMemory(k) && c.Control? && PlainKind(c.control) == PlainKind(k)
  }

  function Norm(t: Tree): Tree
    decreases t, 0
  {
    match t
    case Leaf(id, st, _) => Leaf(id, st, false)
    case Control(k, st, _, cs) =>
      var kids := Spliced(k, cs);
      Control(PlainKind(k), st, if st == RUNNING && HasMemory(k) then FirstRunning(kids) else 0, kids)
    case Decorator(k, st, n, start, _, c) =>
      Decorator(k, st, if st == RUNNING && HasCounter(k) then n else 0,
                if st == RUNNING && k.Timeout? then start else None, false, Norm(c))
  }

  function Spliced(k: ControlKind, cs: seq<Tree>): seq<Tree>
    decreases cs
  {
    if cs == [] then [] else Pieces(k, cs[0]) + Spliced(k, cs[1..])
  }

  function Pieces(k: ControlKind, c: Tree): seq<Tree>
    decreases c, 1
  {
    if Nests(k, c) then Norm(c).children else [Norm(c)]
  }

  /** Position of the first RUNNING child, or the length if there is none. */
  function FirstRunning(cs: seq<Tree>): nat {
    if cs == [] || cs[0].status == RUNNING then 0 else 1 + FirstRunning(cs[1..])
  }

  lemma {:induction false} FirstRunningIs(cs: seq<Tree>, j: nat)
    requires j < |cs| && cs[j].status == RUNNING
    requires forall i | 0 <= i < j :: cs[i].status != RUNNING
    ensures FirstRunning(cs) == j
    decreases j
  {
    if j > 0 { FirstRunningIs(cs[1..], j - 1); }
  }

  lemma {:induction false} SplicedConcat(k: ControlKind, a: seq<Tree>, b: seq<Tree>)
    ensures Spliced(k, a + b) == Spliced(k, a) + Spliced(k, b)
    decreases a
  {
    if a == [] {
      assert a + b == b;
    } else {
      assert (a + b)[1..] == a[1..] + b;
      SplicedConcat(k, a[1..], b);
    }
  }

  lemma SplicedCons(k: ControlKind, c: Tree, b: seq<Tree>)
    ensures Spliced(k, [c] + b) == Pieces(k, c) + Spliced(k, b)
  {
    assert ([c] + b)[1..] == b;
  }

  lemma {:induction false} SplicedPlain(k: ControlKind, cs: seq<Tree>)
    ensures Spliced(PlainKind(k), cs) == Spliced(k, cs)
    decreases cs
  {
    if cs != [] { SplicedPlain(k, cs[1..]); }
  }

  lemma NestedChildren(k: ControlKind, c: Tree)
    requires Nests(k, c)
    ensures Pieces(k, c) == Spliced(k, c.children)
  {
    SplicedPlain(k, c.children);
    SplicedPlain(c.control, c.children);
  }

  /** Splicing a list of normal forms that do not nest changes nothing. */
  ghost predicate IsPiece(k: ControlKind, c: Tree) {
    Norm(c) == c && !Nests(k, c)
  }

  lemma {:induction false} SplicedPieces(k: ControlKind, ps: seq<Tree>)
    requires forall i | 0 <= i < |ps| :: IsPiece(k, ps[i])
    ensures Spliced(k, ps) == ps
    decreases ps
  {
    if ps != [] { SplicedPieces(k, ps[1..]); }
  }

  lemma {:induction false} SplicedArePieces(k: ControlKind, cs: seq<Tree>)
    ensures forall i | 0 <= i < |Spliced(k, cs)| :: IsPiece(k, Spliced(k, cs)[i])
    decreases cs
  {
    if cs != [] {
      var c := cs[0];
      SplicedArePieces(k, cs[1..]);
      if Nests(k, c) {
        NestedChildren(k, c);
        SplicedArePieces(k, c.children);
      } else {
        NormIsNormal(c);
      }
    }
  }

  lemma {:induction false} NormIsNormal(t: Tree)
    ensures Norm(Norm(t)) == Norm(t)
    decreases t
  {
    match t
    case Leaf(_, _, _) =>
    case Control(k, _, _, cs) =>
      SplicedArePieces(k, cs);
      SplicedPieces(k, Spliced(k, cs));
      SplicedPlain(k, Spliced(k, cs));
    case Decorator(_, _, _, _, _, c) => NormIsNormal(c);
  }

  lemma SplicedTwice(k: ControlKind, cs: seq<Tree>)
    ensures Spliced(k, Spliced(k, cs)) == Spliced(k, cs)
  {
    SplicedArePieces(k, cs);
    SplicedPieces(k, Spliced(k, cs));
  }

  /** What a node contributes to its parent's list depends on its normal form only. */
  lemma PiecesOfNorm(k: ControlKind, a: Tree, b: Tree)
    requires Norm(a) == Norm(b)
    ensures Pieces(k, a) == Pieces(k, b)
  {
    assert Nests(k, a) <==> Nests(k, Norm(a));
    assert Nests(k, b) <==> Nests(k, Norm(b));
  }

  // ---------------------------------------------------------------- halting

  lemma {:induction false} HaltAllConcat(a: seq<Tree>, b: seq<Tree>, h: Trace)
    ensures var ra := HaltAll(a, h); var rb := HaltAll(b, ra.trace);
            HaltAll(a + b, h) == HaltWalk(ra.trees + rb.trees, rb.trace)
    decreases a
  {
    if a == [] {
      assert a + b == b;
    } else {
      assert (a + b)[1..] == a[1..] + b;
      HaltAllConcat(a[1..], b, Halt(a[0], h).trace);
    }
  }

  lemma {:induction false} HaltNorm(t: Tree, h: Trace)
    ensures Halt(Norm(t), h).trace == Halt(t, h).trace
    ensures Norm(Halt(Norm(t), h).tree) == Norm(Halt(t, h).tree)
    decreases t, 0
  {
    match t
    case Leaf(_, _, _) =>
    case Control(k, _, _, cs) =>
      HaltAllSpliced(k, cs, h);
      SplicedPlain(k, HaltAll(Spliced(k, cs), h).trees);
    case Decorator(_, _, _, _, _, c) => HaltNorm(c, h);
  }

  lemma {:induction false} HaltAllSpliced(k: ControlKind, cs: seq<Tree>, h: Trace)
    ensures HaltAll(Spliced(k, cs), h).trace == HaltAll(cs, h).trace
    ensures Spliced(k, HaltAll(Spliced(k, cs), h).trees) == Spliced(k, HaltAll(cs, h).trees)
    decreases cs
  {
    if cs != [] {
      var c, rest := cs[0], Spliced(k, cs[1..]);
      var r := Halt(c, h);
      HaltPieces(k, c, h);
      var rp := HaltAll(Pieces(k, c), h);
      HaltAllConcat(Pieces(k, c), rest, h);
      HaltAllSpliced(k, cs[1..], r.trace);
      SplicedConcat(k, rp.trees, HaltAll(rest, r.trace).trees);
      SplicedCons(k, r.tree, HaltAll(cs[1..], r.trace).trees);
    }
  }

  lemma {:induction false} HaltPieces(k: ControlKind, c: Tree, h: Trace)
    ensures HaltAll(Pieces(k, c), h).trace == Halt(c, h).trace
    ensures Spliced(k, HaltAll(Pieces(k, c), h).trees) == Pieces(k, Halt(c, h).tree)
    decreases c, 1
  {
    if Nests(k, c) {
      HaltAllSpliced(c.control, c.children, h);
      SplicedPlain(k, HaltAll(Pieces(k, c), h).trees);
      SplicedPlain(c.control, HaltAll(Pieces(k, c), h).trees);
    } else {
      HaltNorm(c, h);
      HaltOne(Norm(c), h);
      var a, b := Halt(Norm(c), h).tree, Halt(c, h).tree;
      PiecesOfNorm(k, a, b);
      SplicedCons(k, a, []);
      assert [a] + [] == [a];
    }
  }

  /** Trees with one normal form halt alike. */
  lemma HaltAlike(a: Tree, b: Tree, h: Trace)
    requires Norm(a) == Norm(b)
    ensures Halt(a, h).trace == Halt(b, h).trace && Norm(Halt(a, h).tree) == Norm(Halt(b, h).tree)
  {
    HaltNorm(a, h);
    HaltNorm(b, h);
  }

  // ---------------------------------------------------------------- where a walk resumes

  /** The part of the spliced list from the RUNNING child on. */
  function ActivePart(k: ControlKind, cs: seq<Tree>): seq<Tree>
    decreases cs
  {
    if cs != [] && Nests(k, cs[0]) && cs[0].status == RUNNING && cs[0].index < |cs[0].children| then
      ActivePart(k, cs[0].children[cs[0].index..]) + Spliced(k, cs[1..])
    else
      Spliced(k, cs)
  }

  /** The part of the spliced list before it. */
  function DonePart(k: ControlKind, cs: seq<Tree>): seq<Tree>
    decreases cs
  {
    if cs != [] && Nests(k, cs[0]) && cs[0].status == RUNNING && cs[0].index < |cs[0].children| then
      Spliced(k, cs[0].children[..cs[0].index]) + DonePart(k, cs[0].children[cs[0].index..])
    else
      []
  }

  lemma NormKeepsStatus(t: Tree)
    ensures Norm(t).status == t.status
  {
    match t
    case Leaf(_, _, _) =>
    case Control(_, _, _, _) =>
    case Decorator(_, _, _, _, _, _) =>
  }

  lemma {:induction false} IdleSpliced(k: ControlKind, cs: seq<Tree>)
    requires forall i | 0 <= i < |cs| :: AllIdle(cs[i])
    ensures forall i | 0 <= i < |Spliced(k, cs)| :: Spliced(k, cs)[i].status == IDLE
    ensures ActivePart(k, cs) == Spliced(k, cs) && DonePart(k, cs) == []
    decreases cs
  {
    if cs != [] {
      if Nests(k, cs[0]) {
        NestedChildren(k, cs[0]);
        IdleSpliced(k, cs[0].children);
      } else {
        NormKeepsStatus(cs[0]);
      }
      IdleSpliced(k, cs[1..]);
    }
  }

  lemma {:induction false} PartsMakeTheList(k: ControlKind, cs: seq<Tree>)
    requires forall i | 0 <= i < |cs| :: Sound(cs[i])
    ensures Spliced(k, cs) == DonePart(k, cs) + ActivePart(k, cs)
    ensures forall i | 0 <= i < |DonePart(k, cs)| :: DonePart(k, cs)[i].status == IDLE
    ensures cs != [] && cs[0].status == RUNNING ==>
              ActivePart(k, cs) != [] && ActivePart(k, cs)[0].status == RUNNING
    decreases cs
  {
    hide Sound;
    if cs != [] {
      var c := cs[0];
      if Nests(k, c) && c.status == RUNNING {
        assert Sound(c);
        NestedParts(k, c);
      } else {
        NormKeepsStatus(c);
      }
    }
  }

  lemma {:induction false} NestedParts(k: ControlKind, c: Tree)
    requires Sound(c) && Nests(k, c) && c.status == RUNNING
    ensures c.index < |c.children|
    ensures var s := c.children[c.index..];
            var done := Spliced(k, c.children[..c.index]) + DonePart(k, s);
            && Pieces(k, c) == done + ActivePart(k, s)
            && (forall i | 0 <= i < |done| :: done[i].status == IDLE)
            && ActivePart(k, s) != [] && ActivePart(k, s)[0].status == RUNNING
    decreases c
  {
    hide Pieces;
    var a, s := c.children[..c.index], c.children[c.index..];
    NestedChildren(k, c);
    PartsMakeTheList(k, s);
    IdleSpliced(k, a);
    assert c.children == a + s;
    SplicedInParts(k, a, s);
  }

  lemma SplicedInParts(k: ControlKind, a: seq<Tree>, s: seq<Tree>)
    requires Spliced(k, s) == DonePart(k, s) + ActivePart(k, s)
    ensures Spliced(k, a + s) == (Spliced(k, a) + DonePart(k, s)) + ActivePart(k, s)
  {
    SplicedConcat(k, a, s);
  }

  // ---------------------------------------------------------------- walking

  lemma WalkCons(c: Tree, rest: seq<Tree>, go: Status, now: real, o: Oracle, h: Trace)
    requires go == SUCCESS || go == FAILURE
    ensures var s := Tick(c, now, o, h); var r := WalkList([c] + rest, go, now, o, h);
            if s.status == RUNNING then
              r == Walk([s.tree] + rest, 0, RUNNING, s.trace)
            else if s.status == Opposite(go) then
              var w := HaltAll(rest, s.trace);
              r == Walk([s.tree] + w.trees, 0, s.status, w.trace)
            else
              var w := WalkList(rest, go, now, o, s.trace);
              r == Walk([s.tree] + w.trees, w.done + 1, w.status, w.trace)
  {
    assert ([c] + rest)[1..] == rest;
  }

  /** Walking two lists one after the other. */
  ghost predicate WalksOn(ra: Walk, b: seq<Tree>, r: Walk, go: Status, now: real, o: Oracle)
    requires go == SUCCESS || go == FAILURE
  {
    if ra.status == RUNNING then
      r.trees == ra.trees + b && r.status == RUNNING && r.trace == ra.trace
    else if ra.status == Opposite(go) then
      var rb := HaltAll(b, ra.trace);
      r.trees == ra.trees + rb.trees && r.status == ra.status && r.trace == rb.trace
    else
      var rb := WalkList(b, go, now, o, ra.trace);
      r.trees == ra.trees + rb.trees && r.status == rb.status && r.trace == rb.trace
  }

  lemma WalksOnCons(t: Tree, ra: Walk, b: seq<Tree>, r: Walk, go: Status, now: real, o: Oracle)
    requires go == SUCCESS || go == FAILURE
    requires WalksOn(ra, b, r, go, now, o)
    ensures WalksOn(Walk([t] + ra.trees, ra.done + 1, ra.status, ra.trace), b,
                    Walk([t] + r.trees, r.done + 1, r.status, r.trace), go, now, o)
  {
  }

  lemma {:induction false} WalkConcat(a: seq<Tree>, b: seq<Tree>, go: Status, now: real, o: Oracle, h: Trace)
    requires go == SUCCESS || go == FAILURE
    ensures WalksOn(WalkList(a, go, now, o, h), b, WalkList(a + b, go, now, o, h), go, now, o)
    decreases a
  {
    hide HaltAll, Tick;
    if a == [] {
      assert a + b == b;
    } else {
      var c, rest := a[0], a[1..];
      assert a == [c] + rest;
      assert a + b == [c] + (rest + b);
      WalkCons(c, rest, go, now, o, h);
      WalkCons(c, rest + b, go, now, o, h);
      var s := Tick(c, now, o, h);
      if s.status == RUNNING {
      } else if s.status == Opposite(go) {
        HaltAllConcat(rest, b, s.trace);
      } else {
        WalkConcat(rest, b, go, now, o, s.trace);
        var ra, r := WalkList(rest, go, now, o, s.trace), WalkList(rest + b, go, now, o, s.trace);
        WalksOnCons(s.tree, ra, b, r, go, now, o);
      }
    }
  }

  // ---------------------------------------------------------------- ticking

  /** Same status, same calls, same normal form afterwards. */
  ghost predicate Alike(a: Step, b: Step) {
    a.status == b.status && a.trace == b.trace && Norm(a.tree) == Norm(b.tree)
  }

  function Going(k: ControlKind): Status {
    if k.Fallback? then FAILURE else SUCCESS
  }

  /** The pieces of the head of a list that a walk still visits, and those it has left behind. */
  function HeadActive(k: ControlKind, c: Tree): seq<Tree> {
    if Nests(k, c) && c.status == RUNNING && c.index < |c.children| then ActivePart(k, c.children[c.index..])
    else Pieces(k, c)
  }

  function HeadDone(k: ControlKind, c: Tree): seq<Tree> {
    if Nests(k, c) && c.status == RUNNING && c.index < |c.children| then
      Spliced(k, c.children[..c.index]) + DonePart(k, c.children[c.index..])
    else []
  }

  lemma {:induction false} TickNorm(t: Tree, now: real, o: Oracle, h: Trace)
    requires Sound(t)
    ensures Alike(Tick(t, now, o, h), Tick(Norm(t), now, o, h))
    decreases t, 0
  {
    hide Spliced;
    match t
    case Leaf(_, _, _) =>
    case Control(k, st, idx, cs) =>
      PassNorm(k, st, idx, cs, now, o, h);
      var n := Norm(t);
      SplicedPlain(k, RunControl(n.control, if st == IDLE then 0 else n.index, n.children, now, o, h).trees);
    case Decorator(k, st, n, start, _, c) =>
      RunDecoratorNorm(k, st, n, start, c, now, o, h);
  }

  /** One pass of a control node and of its normal form. */
  lemma {:induction false} PassNorm(k: ControlKind, st: Status, idx: nat, cs: seq<Tree>, now: real, o: Oracle, h: Trace)
    requires Sound(Control(k, st, idx, cs))
    ensures var n := Norm(Control(k, st, idx, cs));
            WalksAlike(k, RunControl(k, if st == IDLE then 0 else idx, cs, now, o, h),
                       RunControl(n.control, if st == IDLE then 0 else n.index, n.children, now, o, h))
    decreases cs, 6
  {
    assert forall x | 0 <= x < |cs| :: Sound(cs[x]);
    match k
    case Sequence(_) => MemoryNorm(k, st, idx, cs, now, o, h);
    case Fallback(_) => MemoryNorm(k, st, idx, cs, now, o, h);
    case Premise =>
      NoParts(k, cs);
      WalkNorm(k, cs, SUCCESS, now, o, h);
    case Parallel(_) => ParallelNorm(k, cs, now, o, h);
  }

  lemma NoParts(k: ControlKind, cs: seq<Tree>)
    requires !HasMemory(k)
    ensures ActivePart(k, cs) == Spliced(k, cs) && DonePart(k, cs) == []
  {
  }

  ghost predicate WalksAlike(k: ControlKind, a: Walk, b: Walk) {
    a.status == b.status && a.trace == b.trace && Spliced(k, a.trees) == Spliced(k, b.trees)
  }

  /** One pass of a Sequence or Fallback, resumed at its index, and of its normal form. */
  lemma {:induction false} MemoryNorm(k: ControlKind, st: Status, idx: nat, cs: seq<Tree>, now: real, o: Oracle,
          h: Trace)
    requires HasMemory(k) && Sound(Control(k, st, idx, cs))
    ensures var ns := Spliced(k, cs);
            WalksAlike(k, RunControl(k, if st == IDLE then 0 else idx, cs, now, o, h),
                       RunControl(PlainKind(k), if st == IDLE then 0 else FirstRunning(ns), ns, now, o, h))
    decreases cs, 5
  {
    var t := Control(k, st, idx, cs);
    assert forall x | 0 <= x < |cs| :: Sound(t.children[x]);
    if st == IDLE {
      IdleSpliced(k, cs);
      WalkNorm(k, cs, Going(k), now, o, h);
      WalkFromStart(cs, Going(k), now, o, h);
      WalkFromStart(Spliced(k, cs), Going(k), now, o, h);
    } else {
      assert idx < |cs| && cs[idx].status == RUNNING;
      forall x | 0 <= x < |cs| && x != idx ensures AllIdle(cs[x]) { assert AllIdle(t.children[x]); }
      ResumedNorm(k, idx, cs, now, o, h);
    }
  }

  lemma {:induction false} ResumedNorm(k: ControlKind, idx: nat, cs: seq<Tree>, now: real, o: Oracle, h: Trace)
    requires HasMemory(k) && idx < |cs| && cs[idx].status == RUNNING
    requires forall i | 0 <= i < |cs| :: Sound(cs[i])
    requires forall i | 0 <= i < |cs| && i != idx :: AllIdle(cs[i])
    ensures var ns := Spliced(k, cs);
            WalksAlike(k, WalkFrom(idx, cs, Going(k), now, o, h), WalkFrom(FirstRunning(ns), ns, Going(k), now, o, h))
    decreases cs, 4
  {
    var done, suffix := cs[..idx], cs[idx..];
    var front, active := Spliced(k, done) + DonePart(k, suffix), ActivePart(k, suffix);
    ResumePoint(k, idx, cs);
    WalkNorm(k, suffix, Going(k), now, o, h);
    var ns := Spliced(k, cs);
    assert ns[..|front|] == front && ns[|front|..] == active;
    ResumedTrees(k, done, suffix, front, WalkList(suffix, Going(k), now, o, h).trees,
                 WalkList(active, Going(k), now, o, h).trees);
  }

  /** The normal form's memory index is where the walk resumes. */
  lemma ResumePoint(k: ControlKind, idx: nat, cs: seq<Tree>)
    requires HasMemory(k) && idx < |cs| && cs[idx].status == RUNNING
    requires forall i | 0 <= i < |cs| :: Sound(cs[i])
    requires forall i | 0 <= i < |cs| && i != idx :: AllIdle(cs[i])
    ensures var front := Spliced(k, cs[..idx]) + DonePart(k, cs[idx..]);
            var active := ActivePart(k, cs[idx..]);
            Spliced(k, cs) == front + active && active != [] && FirstRunning(Spliced(k, cs)) == |front|
            && Spliced(k, front) == front
  {
    var done, suffix := cs[..idx], cs[idx..];
    IdleSpliced(k, done);
    PartsMakeTheList(k, suffix);
    SplicedConcat(k, done, suffix);
    assert cs == done + suffix;
    var front, active := Spliced(k, done) + DonePart(k, suffix), ActivePart(k, suffix);
    Associate(Spliced(k, done), DonePart(k, suffix), active);
    var ns := Spliced(k, cs);
    assert ns == front + active;
    FirstRunningIs(ns, |front|);
    SplicedArePieces(k, cs);
    forall i | 0 <= i < |front| ensures IsPiece(k, front[i]) { assert front[i] == ns[i]; }
    SplicedPieces(k, front);
  }

  lemma ResumedTrees(k: ControlKind, done: seq<Tree>, suffix: seq<Tree>, front: seq<Tree>, r: seq<Tree>, rn: seq<Tree>)
    requires front == Spliced(k, done) + DonePart(k, suffix) && Spliced(k, front) == front
    requires Spliced(k, r) == DonePart(k, suffix) + Spliced(k, rn)
    ensures Spliced(k, done + r) == Spliced(k, front + rn)
  {
    SplicedConcat(k, done, r);
    SplicedConcat(k, front, rn);
    Associate(Spliced(k, done), DonePart(k, suffix), Spliced(k, rn));
  }

  lemma {:induction false} WalkNorm(k: ControlKind, cs: seq<Tree>, go: Status, now: real, o: Oracle, h: Trace)
    requires go == Going(k)
    requires forall i | 0 <= i < |cs| :: Sound(cs[i])
    requires HasMemory(k) ==> forall i | 1 <= i < |cs| :: AllIdle(cs[i])
    ensures var r := WalkList(cs, go, now, o, h);
            var ra := WalkList(ActivePart(k, cs), go, now, o, h);
            && r.status == ra.status && r.trace == ra.trace
            && Spliced(k, r.trees) == DonePart(k, cs) + Spliced(k, ra.trees)
    decreases cs, 3
  {
    hide Sound, Tick, Pieces, AllIdle;
    if cs != [] {
      var c, rest := cs[0], cs[1..];
      assert cs == [c] + rest;
      HeadNorm(k, c, go, now, o, h);
      TickKeepsSound(c, now, o, h);
      var s := Tick(c, now, o, h);
      var w := WalkList(HeadActive(k, c), go, now, o, h);
      WalkCons(c, rest, go, now, o, h);
      WalkConcat(HeadActive(k, c), Spliced(k, rest), go, now, o, h);
      assert ActivePart(k, cs) == HeadActive(k, c) + Spliced(k, rest);
      assert DonePart(k, cs) == HeadDone(k, c);
      if s.status == RUNNING {
        SplicedTwice(k, rest);
        JoinHead(k, s.tree, HeadDone(k, c), w.trees, rest, Spliced(k, rest));
      } else if s.status == Opposite(go) {
        HaltAllSpliced(k, rest, s.trace);
        JoinHead(k, s.tree, HeadDone(k, c), w.trees, HaltAll(rest, s.trace).trees,
                 HaltAll(Spliced(k, rest), s.trace).trees);
      } else {
        if HasMemory(k) { IdleSpliced(k, rest); } else { NoParts(k, rest); }
        WalkNorm(k, rest, go, now, o, s.trace);
        JoinHead(k, s.tree, HeadDone(k, c), w.trees, WalkList(rest, go, now, o, s.trace).trees,
                 WalkList(Spliced(k, rest), go, now, o, s.trace).trees);
      }
    }
  }

  lemma JoinHead(k: ControlKind, head: Tree, done: seq<Tree>, pieces: seq<Tree>, rest: seq<Tree>, rest': seq<Tree>)
    requires Pieces(k, head) == done + Spliced(k, pieces)
    requires Spliced(k, rest) == Spliced(k, rest')
    ensures Spliced(k, [head] + rest) == done + Spliced(k, pieces + rest')
  {
    SplicedCons(k, head, rest);
    SplicedConcat(k, pieces, rest');
    var p, r := Spliced(k, pieces), Spliced(k, rest');
    Associate(done, p, r);
  }

  lemma Associate(a: seq<Tree>, b: seq<Tree>, c: seq<Tree>)
    ensures (a + b) + c == a + (b + c)
  {
  }

  /** Ticking a child is walking its pieces. */
  lemma {:induction false} HeadNorm(k: ControlKind, c: Tree, go: Status, now: real, o: Oracle, h: Trace)
    requires go == Going(k) && Sound(c)
    ensures var s := Tick(c, now, o, h);
            var w := WalkList(HeadActive(k, c), go, now, o, h);
            && w.status == s.status && w.trace == s.trace
            && Pieces(k, s.tree) == HeadDone(k, c) + Spliced(k, w.trees)
    decreases c, 2
  {
    hide BehaviorTree.Tick;
    TickKeepsSound(c, now, o, h);
    var s := Tick(c, now, o, h);
    if Nests(k, c) {
      NestedHead(k, c, go, now, o, h);
    } else {
      TickNorm(c, now, o, h);
      var n := Tick(Norm(c), now, o, h);
      WalkOne(Norm(c), go, now, o, h);
      TickKeepsKind(c, now, o, h);
      PiecesOfNorm(k, s.tree, n.tree);
      SplicedCons(k, n.tree, []);
      assert [n.tree] + [] == [n.tree];
    }
  }

  lemma WalkOne(c: Tree, go: Status, now: real, o: Oracle, h: Trace)
    requires go == SUCCESS || go == FAILURE
    ensures var s, w := Tick(c, now, o, h), WalkList([c], go, now, o, h);
            w.status == (if s.status == RUNNING || s.status == Opposite(go) then s.status else go)
            && w.trace == s.trace && w.trees == [s.tree]
  {
    var s := Tick(c, now, o, h);
    WalkCons(c, [], go, now, o, h);
    assert [c] + [] == [c];
    assert HaltAll([], s.trace) == HaltWalk([], s.trace);
    assert WalkList([], go, now, o, s.trace) == Walk([], 0, go, s.trace);
  }

  lemma TickKeepsKind(c: Tree, now: real, o: Oracle, h: Trace)
    ensures var t := Tick(c, now, o, h).tree;
            (c.Control? <==> t.Control?) && (c.Control? ==> t.control == c.control)
  {
    match c
    case Leaf(_, _, _) =>
    case Control(_, _, _, _) =>
    case Decorator(_, _, _, _, _, _) =>
  }

  lemma {:induction false} NestedHead(k: ControlKind, c: Tree, go: Status, now: real, o: Oracle, h: Trace)
    requires go == Going(k) && Sound(c) && Nests(k, c)
    ensures var s := Tick(c, now, o, h);
            var w := WalkList(HeadActive(k, c), go, now, o, h);
            && w.status == s.status && w.trace == s.trace
            && Pieces(k, s.tree) == HeadDone(k, c) + Spliced(k, w.trees)
    decreases c, 1
  {
    hide Tick, AllIdle, WalkList, Norm;
    var cc := c.children;
    var i := if c.status == IDLE then 0 else c.index;
    var front, suffix := cc[..i], cc[i..];
    assert Sound(c) && forall x | 0 <= x < |cc| :: Sound(cc[x]);
    forall x | 1 <= x < |suffix| ensures AllIdle(suffix[x]) { assert AllIdle(cc[i + x]); }
    WalkNorm(k, suffix, go, now, o, h);
    var r := WalkList(suffix, go, now, o, h);
    var s := Tick(c, now, o, h);
    NestedTick(k, c, i, go, now, o, h);
    assert s.status == r.status && s.trace == r.trace && s.tree.children == front + r.trees;
    TickKeepsKind(c, now, o, h);
    NestedChildren(k, s.tree);
    SplicedConcat(k, front, r.trees);
    if c.status == IDLE {
      IdleSpliced(k, cc);
      NestedChildren(k, c);
      assert suffix == cc && front == [];
    }
  }

  lemma NestedTick(k: ControlKind, c: Tree, i: nat, go: Status, now: real, o: Oracle, h: Trace)
    requires go == Going(k) && Nests(k, c) && IsResting(c.status)
    requires i == (if c.status == IDLE then 0 else c.index) && i <= |c.children|
    ensures var s := Tick(c, now, o, h); var r := WalkList(c.children[i..], go, now, o, h);
            && s.status == r.status && s.trace == r.trace
            && s.tree.Control? && s.tree.children == c.children[..i] + r.trees
  {
    var cs := c.children;
    assert WalkFrom(i, cs, go, now, o, h).trees == cs[..i] + WalkList(cs[i..], go, now, o, h).trees by {
      if i == |cs| { assert cs[i..] == [] && cs[..i] == cs; }
    }
    assert RunControl(c.control, i, cs, now, o, h) == WalkFrom(i, cs, go, now, o, h);
  }

  // ---- children compared one by one, for Parallel

  lemma {:induction false} SplicedPointwise(k: ControlKind, cs: seq<Tree>)
    requires !HasMemory(k)
    ensures |Spliced(k, cs)| == |cs| && forall i | 0 <= i < |cs| :: Spliced(k, cs)[i] == Norm(cs[i])
    decreases cs
  {
    if cs != [] { SplicedPointwise(k, cs[1..]); }
  }

  ghost predicate SameNorms(a: seq<Tree>, b: seq<Tree>) {
    |a| == |b| && forall i | 0 <= i < |a| :: Norm(a[i]) == Norm(b[i])
  }

  lemma SameNormsSplice(k: ControlKind, a: seq<Tree>, b: seq<Tree>)
    requires !HasMemory(k) && SameNorms(a, b)
    ensures Spliced(k, a) == Spliced(k, b)
  {
    SplicedPointwise(k, a);
    SplicedPointwise(k, b);
  }

  lemma {:induction false} HaltRunningAlike(a: seq<Tree>, b: seq<Tree>, h: Trace)
    requires SameNorms(a, b)
    ensures HaltRunning(a, h).trace == HaltRunning(b, h).trace
    ensures SameNorms(HaltRunning(a, h).trees, HaltRunning(b, h).trees)
    decreases a
  {
    if a != [] {
      var x, y := HaltIfRunning(a[0], h), HaltIfRunning(b[0], h);
      HaltIfRunningAlike(a[0], b[0], h);
      HaltRunningAlike(a[1..], b[1..], x.trace);
      HaltRunningCons(a, h);
      HaltRunningCons(b, h);
    }
  }

  function HaltIfRunning(c: Tree, h: Trace): HaltStep {
    if c.status == RUNNING then Halt(c, h) else HaltStep(c, h)
  }

  lemma HaltRunningCons(a: seq<Tree>, h: Trace)
    requires a != []
    ensures var x := HaltIfRunning(a[0], h); var rest := HaltRunning(a[1..], x.trace);
            HaltRunning(a, h) == HaltWalk([x.tree] + rest.trees, rest.trace)
  {
  }

  lemma HaltIfRunningAlike(a: Tree, b: Tree, h: Trace)
    requires Norm(a) == Norm(b)
    ensures HaltIfRunning(a, h).trace == HaltIfRunning(b, h).trace
    ensures Norm(HaltIfRunning(a, h).tree) == Norm(HaltIfRunning(b, h).tree)
  {
    NormKeepsStatus(a);
    NormKeepsStatus(b);
    HaltAlike(a, b, h);
  }

  lemma {:induction false} PollNorm(cs: seq<Tree>, ns: seq<Tree>, now: real, o: Oracle, h: Trace)
    requires |ns| == |cs| && forall i | 0 <= i < |cs| :: Sound(cs[i]) && ns[i] == Norm(cs[i])
    ensures var a, b := PollAll(cs, now, o, h), PollAll(ns, now, o, h);
            && a.successes == b.successes && a.failures == b.failures && a.trace == b.trace
            && SameNorms(a.trees, b.trees)
    decreases cs, 1
  {
    hide BehaviorTree.Tick;
    if cs != [] {
      TickNorm(cs[0], now, o, h);
      PollNorm(cs[1..], ns[1..], now, o, Tick(cs[0], now, o, h).trace);
    }
  }

  lemma {:induction false} ParallelNorm(k: ControlKind, cs: seq<Tree>, now: real, o: Oracle, h: Trace)
    requires k.Parallel? && forall i | 0 <= i < |cs| :: Sound(cs[i])
    ensures var a, b := RunControl(k, 0, cs, now, o, h), RunControl(k, 0, Spliced(k, cs), now, o, h);
            a.status == b.status && a.trace == b.trace && Spliced(k, a.trees) == Spliced(k, b.trees)
    decreases cs, 2
  {
    var ns := Spliced(k, cs);
    SplicedPointwise(k, cs);
    PollNorm(cs, ns, now, o, h);
    var p, q := PollAll(cs, now, o, h), PollAll(ns, now, o, h);
    HaltRunningAlike(p.trees, q.trees, p.trace);
    SameNormsSplice(k, p.trees, q.trees);
    SameNormsSplice(k, HaltRunning(p.trees, p.trace).trees, HaltRunning(q.trees, p.trace).trees);
  }

  // ---- decorators

  ghost predicate PassesAlike(k: DecoratorKind, a: Pass, b: Pass) {
    && a.status == b.status && a.trace == b.trace && Norm(a.child) == Norm(b.child)
    && (a.status == RUNNING && HasCounter(k) ==> a.count == b.count)
    && (a.status == RUNNING && k.Timeout? ==> a.startTime == b.startTime)
  }

  lemma {:induction false} RunDecoratorNorm(k: DecoratorKind, st: Status, n: nat, start: Option<real>, c: Tree,
                                            now: real, o: Oracle, h: Trace)
    requires IsResting(st) && Sound(c)
    ensures var n' := if st == RUNNING && HasCounter(k) then n else 0;
            var start' := if st == RUNNING && k.Timeout? then start else None;
            PassesAlike(k, RunDecorator(k, st == IDLE, n, start, c, now, o, h),
                        RunDecorator(k, st == IDLE, n', start', Norm(c), now, o, h))
    decreases c, 3
  {
    hide Tick;
    var n' := if st == RUNNING && HasCounter(k) then n else 0;
    var start' := if st == RUNNING && k.Timeout? then start else None;
    match k
    case Inverter => TickNorm(c, now, o, h);
    case ForceSuccess => TickNorm(c, now, o, h);
    case Repeat(times) =>
      CountPassNorm(k, SUCCESS, times, if st == IDLE then 0 else n, start, start', c, now, o, h);
    case Retry(attempts) =>
      CountPassNorm(k, FAILURE, attempts, if st == IDLE then 0 else n, start, start', c, now, o, h);
    case ForEach(key, items) => ForEachNorm(key, items, st, n, start, start', c, now, o, h);
    case RepeatUntil(_) => TickNorm(c, now, o, h);
    case Timeout(seconds) => TimeoutNorm(seconds, st, n, start, start', c, now, o, h);
  }

  lemma {:induction false} ForEachNorm(key: string, items: seq<int>, st: Status, n: nat, s: Option<real>,
          s': Option<real>, c: Tree, now: real, o: Oracle, h: Trace)
    requires IsResting(st) && Sound(c)
    ensures PassesAlike(ForEach(key, items), RunDecorator(ForEach(key, items), st == IDLE, n, s, c, now, o, h),
                        RunDecorator(ForEach(key, items), st == IDLE, if st == RUNNING then n else 0, s', Norm(c),
                                     now, o, h))
    decreases c, 3, 0
  {
    hide ItemPass;
    if st == RUNNING {
      ItemPassNorm(key, items, n, s, s', c, now, o, h);
    } else {
      NormIsNormal(c);
      if items != [] {
        var w := WriteItem(key, items[0]);
        ItemPassNorm(key, items, 0, s, s', c, now, o, h + [Asked(w, o(h, w))]);
      }
    }
  }

  lemma {:induction false} TimeoutNorm(seconds: real, st: Status, n: nat, s: Option<real>, s': Option<real>, c: Tree,
                                       now: real, o: Oracle, h: Trace)
    requires IsResting(st) && Sound(c) && (st == RUNNING ==> s == s')
    ensures PassesAlike(Timeout(seconds), RunDecorator(Timeout(seconds), st == IDLE, n, s, c, now, o, h),
                        RunDecorator(Timeout(seconds), st == IDLE, 0, s', Norm(c), now, o, h))
    decreases c, 2
  {
    hide Norm;
    TickNorm(c, now, o, h);
    NormIsNormal(c);
    HaltNorm(c, h);
  }

  lemma {:induction false} CountPassNorm(k: DecoratorKind, counted: Status, limit: int, n: nat, s: Option<real>,
                                         s': Option<real>, c: Tree, now: real, o: Oracle, h: Trace)
    requires Sound(c) && (k.Repeat? || k.Retry?)
    ensures PassesAlike(k, CountPass(counted, limit, n, s, c, now, o, h),
                        CountPass(counted, limit, n, s', Norm(c), now, o, h))
    decreases c, 2
  {
    hide Tick;
    TickNorm(c, now, o, h);
    var a, b := Tick(c, now, o, h), Tick(Norm(c), now, o, h);
    HaltAlike(a.tree, b.tree, a.trace);
    CountPassIs(counted, limit, n, s, c, now, o, h);
    CountPassIs(counted, limit, n, s', Norm(c), now, o, h);
  }

  lemma {:induction false} ItemPassNorm(key: string, items: seq<int>, n: nat, s: Option<real>, s': Option<real>,
          c: Tree, now: real, o: Oracle, h: Trace)
    requires Sound(c)
    ensures PassesAlike(ForEach(key, items), ItemPass(key, items, n, s, c, now, o, h),
                        ItemPass(key, items, n, s', Norm(c), now, o, h))
    decreases c, 2
  {
    hide Tick;
    TickNorm(c, now, o, h);
  }

  // ---------------------------------------------------------------- whole runs

  /**
    Sound trees with one normal form are indistinguishable: under every sequence of ticks and
    halts they return the same statuses and make the same calls in the same order.
  */
  lemma {:induction false} SameNormSameRuns(a: Tree, b: Tree, ops: seq<Op>, o: Oracle, h: Trace)
    requires Sound(a) && Sound(b) && Norm(a) == Norm(b)
    ensures var ra, rb := RunOps(a, ops, o, h), RunOps(b, ops, o, h);
            ra.statuses == rb.statuses && ra.trace == rb.trace && Norm(ra.tree) == Norm(rb.tree)
    decreases |ops|
  {
    if ops != [] {
      match ops[0]
      case DoTick(now) =>
        TickNorm(a, now, o, h);
        TickNorm(b, now, o, h);
        TickKeepsSound(a, now, o, h);
        TickKeepsSound(b, now, o, h);
        var s, s' := Tick(a, now, o, h), Tick(b, now, o, h);
        SameNormSameRuns(s.tree, s'.tree, ops[1..], o, s.trace);
      case DoHalt =>
        HaltAlike(a, b, h);
        HaltKeepsSound(a, h);
        HaltKeepsSound(b, h);
        var s, s' := Halt(a, h), Halt(b, h);
        SameNormSameRuns(s.tree, s'.tree, ops[1..], o, s.trace);
    }
  }

  lemma {:induction false} IdleNormIsBuilt(t: Tree)
    requires AllIdle(t)
    ensures Norm(t) == Norm(Built(t))
    decreases t
  {
    match t
    case Leaf(_, _, _) =>
    case Control(k, _, _, cs) => IdleSplicedIsBuilt(k, cs);
    case Decorator(_, _, _, _, _, c) => IdleNormIsBuilt(c);
  }

  lemma {:induction false} IdleSplicedIsBuilt(k: ControlKind, cs: seq<Tree>)
    requires forall i | 0 <= i < |cs| :: AllIdle(cs[i])
    ensures Spliced(k, cs) == Spliced(k, BuiltAll(cs))
    decreases cs
  {
    if cs != [] {
      IdleNormIsBuilt(cs[0]);
      IdleSplicedIsBuilt(k, cs[1..]);
      PiecesOfNorm(k, cs[0], Built(cs[0]));
      assert BuiltAll(cs)[1..] == BuiltAll(cs[1..]);
    }
  }

  /**
    Rerun equals fresh: a tree whose nodes are all IDLE, whatever a halt left in its indexes,
    counters and start times, behaves on every later sequence as a newly built one.
  */
  lemma {:induction false} RerunEqualsFresh(t: Tree, ops: seq<Op>, o: Oracle, h: Trace)
    requires AllIdle(t)
    ensures var rerun, built := RunOps(t, ops, o, h), RunOps(Built(t), ops, o, h);
            rerun.statuses == built.statuses && rerun.trace == built.trace
  {
    IdleNormIsBuilt(t);
    BuiltIsIdle(t);
    IdleIsSound(t);
    IdleIsSound(Built(t));
    SameNormSameRuns(t, Built(t), ops, o, h);
  }

  /** In particular after any run that ends in a halt. */
  lemma HaltedEqualsFresh(t: Tree, before: seq<Op>, after: seq<Op>, o: Oracle)
    requires Sound(t)
    ensures var r := RunOps(t, before, o, []);
            var halted := Halt(r.tree, r.trace);
            var again, built := RunOps(halted.tree, after, o, halted.trace), RunOps(Built(t), after, o, halted.trace);
            again.statuses == built.statuses && again.trace == built.trace
  {
    NoOrphans(t, before, o, []);
    var r := RunOps(t, before, o, []);
    HaltKeepsSound(r.tree, r.trace);
    var halted := Halt(r.tree, r.trace);
    RerunEqualsFresh(halted.tree, after, o, halted.trace);
    RunKeepsShape(t, before, o, []);
    HaltKeepsShape(r.tree, r.trace);
  }

  lemma {:induction false} RunKeepsShape(t: Tree, ops: seq<Op>, o: Oracle, h: Trace)
    ensures Built(RunOps(t, ops, o, h).tree) == Built(t)
    decreases |ops|
  {
    if ops != [] {
      match ops[0]
      case DoTick(now) =>
        TickKeepsShape(t, now, o, h);
        var s := Tick(t, now, o, h);
        RunKeepsShape(s.tree, ops[1..], o, s.trace);
      case DoHalt =>
        HaltKeepsShape(t, h);
        var s := Halt(t, h);
        RunKeepsShape(s.tree, ops[1..], o, s.trace);
    }
  }

  // ---------------------------------------------------------------- the operator DSL

  /** Tree expressions: `>>` and `&` build Sequences, `|` a Fallback; the rest wraps. */
  datatype Expr =
    | Atom(tree: Tree)
    | Then(left: Expr, right: Expr)        // left >> right
    | And(left: Expr, right: Expr)         // left & right
    | Or(left: Expr, right: Expr)          // left | right
    | Guard(left: Expr, right: Expr)       // left.premise(right)
    | Wrap(decorator: DecoratorKind, inner: Expr)

  /** The children of an operator-built node of this kind, or the node itself. */
  function FlattenChildren(k: ControlKind, t: Tree): seq<Tree> {
    if t.Control? && t.control == k then t.children else [t]
  }

  /** The tree the operators build. */
  function Flat(e: Expr): Tree {
    match e
    case Atom(t) => t
    case Then(l, r) => Joined(Sequence(false), Flat(l), Flat(r))
    case And(l, r) => Joined(Sequence(false), Flat(l), Flat(r))
    case Or(l, r) => Joined(Fallback(false), Flat(l), Flat(r))
    case Guard(l, r) => Control(Premise, IDLE, 0, [Flat(l), Flat(r)])
    case Wrap(k, i) => Decorator(k, IDLE, 0, None, false, Flat(i))
  }

  function Joined(k: ControlKind, l: Tree, r: Tree): Tree {
    Control(k, IDLE, 0, FlattenChildren(k, l) + FlattenChildren(k, r))
  }

  /** One explicit two-child node per operator. */
  function Nested(e: Expr): Tree {
    match e
    case Atom(t) => t
    case Then(l, r) => Control(Sequence(true), IDLE, 0, [Nested(l), Nested(r)])
    case And(l, r) => Control(Sequence(true), IDLE, 0, [Nested(l), Nested(r)])
    case Or(l, r) => Control(Fallback(true), IDLE, 0, [Nested(l), Nested(r)])
    case Guard(l, r) => Control(Premise, IDLE, 0, [Nested(l), Nested(r)])
    case Wrap(k, i) => Decorator(k, IDLE, 0, None, false, Nested(i))
  }

  ghost predicate AtomsIdle(e: Expr) {
    match e
    case Atom(t) => AllIdle(t)
    case Then(l, r) => AtomsIdle(l) && AtomsIdle(r)
    case And(l, r) => AtomsIdle(l) && AtomsIdle(r)
    case Or(l, r) => AtomsIdle(l) && AtomsIdle(r)
    case Guard(l, r) => AtomsIdle(l) && AtomsIdle(r)
    case Wrap(_, i) => AtomsIdle(i)
  }

  lemma {:induction false} BuildsAreIdle(e: Expr)
    requires AtomsIdle(e)
    ensures AllIdle(Flat(e)) && AllIdle(Nested(e))
  {
    match e
    case Atom(t) =>
    case Then(l, r) => BuildsAreIdle(l); BuildsAreIdle(r);
    case And(l, r) => BuildsAreIdle(l); BuildsAreIdle(r);
    case Or(l, r) => BuildsAreIdle(l); BuildsAreIdle(r);
    case Guard(l, r) => BuildsAreIdle(l); BuildsAreIdle(r);
    case Wrap(_, i) => BuildsAreIdle(i);
  }

  lemma SplicedFlattenChildren(k: ControlKind, t: Tree)
    requires HasMemory(k)
    ensures Spliced(k, FlattenChildren(k, t)) == Pieces(k, t)
  {
    if t.Control? && t.control == k {
      NestedChildren(k, t);
    } else {
      SplicedCons(k, t, []);
      assert [t] + [] == [t];
    }
  }

  lemma SplicedPair(k: ControlKind, a: Tree, b: Tree)
    ensures Spliced(k, [a, b]) == Pieces(k, a) + Pieces(k, b)
  {
    SplicedCons(k, a, [b]);
    SplicedCons(k, b, []);
    assert [a] + [b] == [a, b] && [b] + [] == [b];
  }

  lemma JoinedNorm(k: ControlKind, l: Tree, r: Tree, l': Tree, r': Tree)
    requires HasMemory(k) && !k.explicit && Norm(l) == Norm(l') && Norm(r) == Norm(r')
    ensures Norm(Joined(k, l, r)) == Norm(Control(k.(explicit := true), IDLE, 0, [l', r']))
  {
    hide Spliced;
    var nested := k.(explicit := true);
    SplicedConcat(k, FlattenChildren(k, l), FlattenChildren(k, r));
    SplicedFlattenChildren(k, l);
    SplicedFlattenChildren(k, r);
    PiecesOfNorm(k, l, l');
    PiecesOfNorm(k, r, r');
    SplicedPair(k, l', r');
    SplicedPlain(nested, [l', r']);
  }

  lemma {:induction false} BuildsHaveOneNorm(e: Expr)
    ensures Norm(Flat(e)) == Norm(Nested(e))
  {
    match e
    case Atom(t) =>
    case Then(l, r) =>
      BuildsHaveOneNorm(l); BuildsHaveOneNorm(r);
      JoinedNorm(Sequence(false), Flat(l), Flat(r), Nested(l), Nested(r));
    case And(l, r) =>
      BuildsHaveOneNorm(l); BuildsHaveOneNorm(r);
      JoinedNorm(Sequence(false), Flat(l), Flat(r), Nested(l), Nested(r));
    case Or(l, r) =>
      BuildsHaveOneNorm(l); BuildsHaveOneNorm(r);
      JoinedNorm(Fallback(false), Flat(l), Flat(r), Nested(l), Nested(r));
    case Guard(l, r) =>
      BuildsHaveOneNorm(l); BuildsHaveOneNorm(r);
      SplicedPair(Premise, Flat(l), Flat(r));
      SplicedPair(Premise, Nested(l), Nested(r));
    case Wrap(_, i) => BuildsHaveOneNorm(i);
  }

  /**
    The operators may flatten: for every expression, the tree they build and the tree with one
    two-child node per operator return the same statuses and start, continue and halt the same
    leaves in the same order, under every sequence of ticks and halts.
  */
  lemma FlatteningPreservesMeaning(e: Expr, ops: seq<Op>, o: Oracle, h: Trace)
    requires AtomsIdle(e)
    ensures var flat, nested := RunOps(Flat(e), ops, o, h), RunOps(Nested(e), ops, o, h);
            flat.statuses == nested.statuses && flat.trace == nested.trace
  {
    BuildsAreIdle(e);
    BuildsHaveOneNorm(e);
    IdleIsSound(Flat(e));
    IdleIsSound(Nested(e));
    SameNormSameRuns(Flat(e), Nested(e), ops, o, h);
  }
}
