/**
  Non-maximum suppression: sort by confidence, keep the best, drop what overlaps it too much, and
  go on with the rest.
*/
module Nms {
  import opened Overlap
  import opened Wrappers

  datatype Detection = Detection(box: Box, kind: string, confidence: real, id: int)

  // ---------------------------------------------------------------- sorting

  /** A stable sort, highest confidence first: earlier entries go before later ones of equal confidence. */
  function Insert(d: Detection, ds: seq<Detection>): seq<Detection> {
    if ds == [] || ds[0].confidence <= d.confidence then [d] + ds else [ds[0]] + Insert(d, ds[1..])
  }

  function Sorted(ds: seq<Detection>): seq<Detection> {
    if ds == [] then [] else Insert(ds[0], Sorted(ds[1..]))
  }

  predicate Descending(ds: seq<Detection>) {
    forall i, j | 0 <= i < j < |ds| :: ds[i].confidence >= ds[j].confidence
  }

  lemma {:induction false} InsertCounts(d: Detection, ds: seq<Detection>)
    ensures multiset(Insert(d, ds)) == multiset(ds) + multiset{d}
  {
    if ds != [] {
      assert ds == [ds[0]] + ds[1..];
      if ds[0].confidence > d.confidence { InsertCounts(d, ds[1..]); }
    }
  }

  lemma {:induction false} InsertedIs(d: Detection, ds: seq<Detection>, x: Detection)
    requires x in Insert(d, ds)
    ensures x == d || x in ds
  {
    if ds != [] && ds[0].confidence > d.confidence && x != ds[0] { InsertedIs(d, ds[1..], x); }
  }

  lemma {:induction false} InsertSorts(d: Detection, ds: seq<Detection>)
    requires Descending(ds)
    ensures Descending(Insert(d, ds))
  {
    if ds != [] && ds[0].confidence > d.confidence {
      var rest := Insert(d, ds[1..]);
      InsertSorts(d, ds[1..]);
      forall i | 0 <= i < |rest| ensures ds[0].confidence >= rest[i].confidence {
        InsertedIs(d, ds[1..], rest[i]);
      }
    }
  }

  lemma {:induction false} SortedSorts(ds: seq<Detection>)
    ensures Descending(Sorted(ds)) && multiset(Sorted(ds)) == multiset(ds)
  {
    if ds != [] {
      SortedSorts(ds[1..]);
      InsertSorts(ds[0], Sorted(ds[1..]));
      InsertCounts(ds[0], Sorted(ds[1..]));
      assert ds == [ds[0]] + ds[1..];
    }
  }

  lemma {:induction false} SortedIsStable(ds: seq<Detection>)
    requires Descending(ds)
    ensures Sorted(ds) == ds
  {
    if ds != [] {
      SortedIsStable(ds[1..]);
      if |ds| > 1 { assert ds[1..][0].confidence <= ds[0].confidence; }
      assert ds == [ds[0]] + ds[1..];
    }
  }

  /** The detections of one confidence, in order. */
  function Tied(ds: seq<Detection>, c: real): seq<Detection> {
    if ds == [] then [] else (if ds[0].confidence == c then [ds[0]] else []) + Tied(ds[1..], c)
  }

  lemma {:induction false} InsertKeepsTies(d: Detection, ds: seq<Detection>, c: real)
    ensures Tied(Insert(d, ds), c) == Tied([d] + ds, c)
  {
    if ds != [] && ds[0].confidence > d.confidence {
      InsertKeepsTies(d, ds[1..], c);
      assert Insert(d, ds)[1..] == Insert(d, ds[1..]) && ([d] + ds)[1..] == ds && ([d] + ds[1..])[1..] == ds[1..];
    }
  }

  /** Sorting keeps detections of equal confidence in the order they came. */
  lemma {:induction false} SortedKeepsTies(ds: seq<Detection>, c: real)
    ensures Tied(Sorted(ds), c) == Tied(ds, c)
  {
    if ds != [] {
      SortedKeepsTies(ds[1..], c);
      InsertKeepsTies(ds[0], Sorted(ds[1..]), c);
    }
  }

  /** The score filter keeps whoever reaches the score, in order. */
  lemma {:induction false} PassingKeepsTies(ds: seq<Detection>, score: real, c: real)
    ensures Tied(Passing(ds, score), c) == if c >= score then Tied(ds, c) else []
  {
    if ds != [] {
      var rest := Passing(ds[1..], score);
      PassingKeepsTies(ds[1..], score, c);
      assert [] + rest == rest && ([ds[0]] + rest)[1..] == rest;
    }
  }

  /** No two detections have the same confidence. */
  ghost predicate Distinct(ds: multiset<Detection>) {
    forall d, e | d in ds && e in ds && d.confidence == e.confidence :: d == e && ds[d] == 1
  }

  lemma SameHead(a: seq<Detection>, b: seq<Detection>)
    requires a != [] && b != [] && Descending(a) && Descending(b) && Distinct(multiset(a)) && multiset(a) == multiset(b)
    ensures a[0] == b[0]
  {
    assert a[0] in multiset(b) && b[0] in multiset(a);
    var i :| 0 <= i < |a| && a[i] == b[0];
    var j :| 0 <= j < |b| && b[j] == a[0];
  }

  lemma Tail(a: seq<Detection>)
    requires a != []
    ensures multiset(a[1..]) == multiset(a) - multiset{a[0]}
  {
    assert a == [a[0]] + a[1..];
  }

  lemma DistinctTail(a: seq<Detection>)
    requires a != [] && Distinct(multiset(a)) && Descending(a)
    ensures Distinct(multiset(a[1..])) && Descending(a[1..])
  {
    Tail(a);
    var m, m' := multiset(a), multiset(a[1..]);
    forall d, e | d in m' && e in m' && d.confidence == e.confidence ensures d == e && m'[d] == 1 {
      assert d in m && e in m;
    }
  }

  lemma TailsMatch(a: seq<Detection>, b: seq<Detection>)
    requires a != [] && b != [] && multiset(a) == multiset(b) && a[0] == b[0]
    ensures multiset(a[1..]) == multiset(b[1..])
  {
    Tail(a);
    Tail(b);
  }

  lemma SameEmptiness(a: seq<Detection>, b: seq<Detection>)
    requires multiset(a) == multiset(b)
    ensures a == [] <==> b == []
  {
    if a != [] { assert a[0] in multiset(b); }
    if b != [] { assert b[0] in multiset(a); }
  }

  lemma Uncons(a: seq<Detection>, b: seq<Detection>)
    requires a != [] && b != [] && a[0] == b[0] && a[1..] == b[1..]
    ensures a == b
  {
    assert a == [a[0]] + a[1..] && b == [b[0]] + b[1..];
  }

  /** With distinct confidences there is only one sorted order. */
  lemma {:induction false} SortIsCanonical(a: seq<Detection>, b: seq<Detection>)
    requires Descending(a) && Descending(b) && Distinct(multiset(a)) && multiset(a) == multiset(b)
    ensures a == b
    decreases |a|
  {
    SameEmptiness(a, b);
    if a != [] {
      SameHead(a, b);
      TailsMatch(a, b);
      DistinctTail(a);
      DistinctTail(b);
      SortIsCanonical(a[1..], b[1..]);
      Uncons(a, b);
    }
  }

  // ---------------------------------------------------------------- suppression

  /** The detections overlapping `best` less than the threshold. */
  function Apart(best: Detection, ds: seq<Detection>, threshold: real): (r: seq<Detection>)
    ensures |r| <= |ds|
  {
    if ds == [] then []
    else (if Iou(best.box, ds[0].box) < threshold then [ds[0]] else []) + Apart(best, ds[1..], threshold)
  }

  function Greedy(ds: seq<Detection>, threshold: real): seq<Detection>
    decreases |ds|
  {
    if ds == [] then [] else [ds[0]] + Greedy(Apart(ds[0], ds[1..], threshold), threshold)
  }

  function Passing(ds: seq<Detection>, score: real): (r: seq<Detection>)
    ensures |r| <= |ds|
  {
    if ds == [] then []
    else (if ds[0].confidence >= score then [ds[0]] else []) + Passing(ds[1..], score)
  }

  function Survivors(ds: seq<Detection>, threshold: real, score: real): seq<Detection> {
    Greedy(Sorted(Passing(ds, score)), threshold)
  }

  /** Keep the best of what is left until nothing is. */
  method KeepBest(sorted: seq<Detection>, threshold: real) returns (keep: seq<Detection>)
    ensures keep == Greedy(sorted, threshold)
  {
    hide Iou;
    var ds := sorted;
    keep := [];
    while ds != []
      invariant keep + Greedy(ds, threshold) == Greedy(sorted, threshold)
      decreases |ds|
    {
      var best := ds[0];
      ds := ds[1..];
      keep := keep + [best];
      ds := Apart(best, ds, threshold);
    }
  }


  lemma CountNext(x: Detection, rest: seq<Detection>, d: Detection)
    ensures multiset([x] + rest)[d] == multiset(rest)[d] + if x == d then 1 else 0
  {
  }

  lemma {:induction false} ApartCounts(best: Detection, ds: seq<Detection>, threshold: real, d: Detection)
    ensures multiset(Apart(best, ds, threshold))[d] == if Iou(best.box, d.box) < threshold then multiset(ds)[d] else 0
  {
    hide Iou;
    if ds != [] {
      var rest := Apart(best, ds[1..], threshold);
      ApartCounts(best, ds[1..], threshold, d);
      assert ds == [ds[0]] + ds[1..] && [] + rest == rest;
      CountNext(ds[0], ds[1..], d);
      CountNext(ds[0], rest, d);
    }
  }

  lemma ApartIs(best: Detection, ds: seq<Detection>, threshold: real, x: Detection)
    requires x in Apart(best, ds, threshold)
    ensures x in ds
  {
    hide Iou;
    ApartCounts(best, ds, threshold, x);
    assert multiset(Apart(best, ds, threshold))[x] > 0;
  }

  lemma {:induction false} ApartDescends(best: Detection, ds: seq<Detection>, threshold: real)
    requires Descending(ds)
    ensures Descending(Apart(best, ds, threshold))
  {
    hide Iou;
    if ds != [] {
      ApartDescends(best, ds[1..], threshold);
      var rest := Apart(best, ds[1..], threshold);
      forall i | 0 <= i < |rest| ensures ds[0].confidence >= rest[i].confidence {
        ApartIs(best, ds[1..], threshold, rest[i]);
      }
    }
  }

  lemma {:induction false} PassingCounts(ds: seq<Detection>, score: real, d: Detection)
    ensures multiset(Passing(ds, score))[d] == if d.confidence >= score then multiset(ds)[d] else 0
  {
    if ds != [] {
      var rest := Passing(ds[1..], score);
      PassingCounts(ds[1..], score, d);
      assert ds == [ds[0]] + ds[1..] && [] + rest == rest;
      CountNext(ds[0], ds[1..], d);
      CountNext(ds[0], rest, d);
    }
  }

  predicate PairwiseApart(ds: seq<Detection>, threshold: real) {
    forall i, j | 0 <= i < j < |ds| :: Iou(ds[i].box, ds[j].box) < threshold
  }

  lemma {:induction false} GreedyCounts(ds: seq<Detection>, threshold: real, d: Detection)
    ensures multiset(Greedy(ds, threshold))[d] <= multiset(ds)[d]
    decreases |ds|
  {
    hide Iou;
    if ds != [] {
      var rest := Apart(ds[0], ds[1..], threshold);
      GreedyCounts(rest, threshold, d);
      ApartCounts(ds[0], ds[1..], threshold, d);
      Tail(ds);
      var kept := Greedy(rest, threshold);
      assert multiset([ds[0]] + kept)[d] == multiset{ds[0]}[d] + multiset(kept)[d];
    }
  }

  /** What survives after the best is one of the rest and overlaps the best less than the threshold. */
  lemma KeptAfter(ds: seq<Detection>, threshold: real, k: Detection)
    requires ds != [] && k in Greedy(Apart(ds[0], ds[1..], threshold), threshold)
    ensures k in ds[1..] && Iou(ds[0].box, k.box) < threshold
  {
    hide Iou;
    var rest := Apart(ds[0], ds[1..], threshold);
    GreedyCounts(rest, threshold, k);
    ApartCounts(ds[0], ds[1..], threshold, k);
    assert multiset(Greedy(rest, threshold))[k] > 0;
  }

  lemma {:induction false} GreedyApart(ds: seq<Detection>, threshold: real)
    ensures PairwiseApart(Greedy(ds, threshold), threshold)
    decreases |ds|
  {
    hide Iou;
    if ds != [] {
      var rest := Apart(ds[0], ds[1..], threshold);
      var kept := Greedy(rest, threshold);
      GreedyApart(rest, threshold);
      forall i | 0 <= i < |kept| ensures Iou(ds[0].box, kept[i].box) < threshold {
        KeptAfter(ds, threshold, kept[i]);
      }
    }
  }

  lemma {:induction false} GreedyDescends(ds: seq<Detection>, threshold: real)
    requires Descending(ds)
    ensures Descending(Greedy(ds, threshold))
    decreases |ds|
  {
    hide Iou;
    if ds != [] {
      var rest := Apart(ds[0], ds[1..], threshold);
      ApartDescends(ds[0], ds[1..], threshold);
      GreedyDescends(rest, threshold);
      var kept := Greedy(rest, threshold);
      forall i | 0 <= i < |kept| ensures ds[0].confidence >= kept[i].confidence {
        KeptAfter(ds, threshold, kept[i]);
      }
    }
  }

  predicate Beats(k: Detection, d: Detection, threshold: real) {
    k.confidence >= d.confidence && Iou(k.box, d.box) >= threshold
  }

  /** Whoever is dropped, in whatever copy, overlaps a survivor at least as confident. */
  lemma {:induction false} LoserIsBeaten(ds: seq<Detection>, threshold: real, d: Detection) returns (k: Detection)
    requires Descending(ds) && multiset(Greedy(ds, threshold))[d] < multiset(ds)[d]
    ensures k in Greedy(ds, threshold) && Beats(k, d, threshold)
    decreases |ds|
  {
    hide Iou, Apart;
    var best, rest := ds[0], Apart(ds[0], ds[1..], threshold);
    if d in ds[1..] && Iou(best.box, d.box) >= threshold {
      k := best;
    } else {
      StillDropped(ds, threshold, d);
      ApartDescends(best, ds[1..], threshold);
      k := LoserIsBeaten(rest, threshold, d);
    }
  }

  /** A copy dropped, but not by the best, is dropped later on. */
  lemma StillDropped(ds: seq<Detection>, threshold: real, d: Detection)
    requires ds != [] && multiset(Greedy(ds, threshold))[d] < multiset(ds)[d]
    requires d in ds[1..] ==> Iou(ds[0].box, d.box) < threshold
    ensures var rest := Apart(ds[0], ds[1..], threshold);
            multiset(Greedy(rest, threshold))[d] < multiset(rest)[d]
  {
    hide Iou, Apart;
    var rest := Apart(ds[0], ds[1..], threshold);
    var kept := Greedy(rest, threshold);
    Tail(ds);
    ApartCounts(ds[0], ds[1..], threshold, d);
    assert Greedy(ds, threshold) == [ds[0]] + kept;
    assert multiset([ds[0]] + kept)[d] == multiset{ds[0]}[d] + multiset(kept)[d];
  }

  lemma MemberAt(ds: seq<Detection>, d: Detection) returns (i: nat)
    requires multiset(ds)[d] > 0
    ensures i < |ds| && ds[i] == d
  {
    assert d in ds;
    i :| i < |ds| && ds[i] == d;
  }

  lemma {:induction false} ApartAll(best: Detection, ds: seq<Detection>, threshold: real)
    requires forall i | 0 <= i < |ds| :: Iou(best.box, ds[i].box) < threshold
    ensures Apart(best, ds, threshold) == ds
  {
    hide Iou;
    if ds != [] {
      ApartAll(best, ds[1..], threshold);
      assert ds == [ds[0]] + ds[1..];
    }
  }

  lemma {:induction false} GreedyKeepsApart(ds: seq<Detection>, threshold: real)
    requires PairwiseApart(ds, threshold)
    ensures Greedy(ds, threshold) == ds
    decreases |ds|
  {
    hide Iou;
    if ds != [] {
      var rest := ds[1..];
      forall i | 0 <= i < |rest| ensures Iou(ds[0].box, rest[i].box) < threshold { assert rest[i] == ds[i + 1]; }
      forall i, j | 0 <= i < j < |rest| ensures Iou(rest[i].box, rest[j].box) < threshold {
        assert rest[i] == ds[i + 1] && rest[j] == ds[j + 1];
      }
      ApartAll(ds[0], rest, threshold);
      GreedyKeepsApart(rest, threshold);
      assert ds == [ds[0]] + rest;
    }
  }

  lemma {:induction false} PassingAll(ds: seq<Detection>, score: real)
    requires forall i | 0 <= i < |ds| :: ds[i].confidence >= score
    ensures Passing(ds, score) == ds
  {
    if ds != [] {
      PassingAll(ds[1..], score);
      assert ds == [ds[0]] + ds[1..];
    }
  }

  /**
    One class: the survivors come from the input, pass the score, are sorted and pairwise below the
    threshold; and whatever passed the score and did not survive overlaps, at or above the
    threshold, a survivor at least as confident.
  */
  lemma SurvivorsAre(ds: seq<Detection>, threshold: real, score: real)
    ensures var r := Survivors(ds, threshold, score);
            && multiset(r) <= multiset(ds)
            && Descending(r) && PairwiseApart(r, threshold)
            && (forall i | 0 <= i < |r| :: r[i].confidence >= score)
            && (forall d: Detection | d.confidence >= score && multiset(r)[d] < multiset(ds)[d] ::
                  exists k :: k in r && Beats(k, d, threshold))
  {
    hide Iou, Greedy;
    var p := Passing(ds, score);
    var sorted := Sorted(p);
    var r := Greedy(sorted, threshold);
    SortedSorts(p);
    GreedyApart(sorted, threshold);
    GreedyDescends(sorted, threshold);
    forall d: Detection ensures multiset(r)[d] <= multiset(p)[d] <= multiset(ds)[d] {
      GreedyCounts(sorted, threshold, d);
      PassingCounts(ds, score, d);
    }
    forall i | 0 <= i < |r| ensures r[i].confidence >= score {
      PassingCounts(ds, score, r[i]);
      assert multiset(r)[r[i]] > 0;
    }
    forall d: Detection | d.confidence >= score && multiset(r)[d] < multiset(ds)[d]
      ensures exists k :: k in r && Beats(k, d, threshold)
    {
      PassingCounts(ds, score, d);
      var k := LoserIsBeaten(sorted, threshold, d);
    }
  }

  /** Of equal boxes at most one is kept, whatever the threshold. */
  predicate NoBoxTwice(ds: seq<Detection>) {
    forall i, j | 0 <= i < j < |ds| && Proper(ds[i].box) :: ds[i].box != ds[j].box
  }

  lemma ApartIsDifferent(ds: seq<Detection>, threshold: real)
    requires threshold <= 1.0 && PairwiseApart(ds, threshold)
    ensures NoBoxTwice(ds)
  {
    hide Iou;
    forall i, j | 0 <= i < j < |ds| && Proper(ds[i].box) ensures ds[i].box != ds[j].box {
      if Proper(ds[j].box) { OneIffEqual(ds[i].box, ds[j].box); }
    }
  }

  method Suppress(detections: seq<Detection>, threshold: real, score: real) returns (keep: seq<Detection>)
    ensures keep == Survivors(detections, threshold, score)
    ensures threshold <= 1.0 ==> NoBoxTwice(keep)
  {
    hide Iou;
    if detections == [] { return []; }
    SurvivorsAre(detections, threshold, score);
    if threshold <= 1.0 { ApartIsDifferent(Survivors(detections, threshold, score), threshold); }
    keep := KeepBest(Sorted(Passing(detections, score)), threshold);
  }

  /** Of two detections with the same box the more confident is kept, and the first if they are equally so. */
  lemma OneOfTwo(d: Detection, e: Detection, threshold: real, score: real)
    requires Proper(d.box) && d.box == e.box && threshold <= 1.0 && d.confidence >= score && e.confidence >= score
    ensures Survivors([d, e], threshold, score) == [if e.confidence > d.confidence then e else d]
  {
    hide Iou;
    OneIffEqual(d.box, e.box);
    assert [d, e][1..] == [e];
    assert Passing([e], score) == [e];
    assert Passing([d, e], score) == [d, e];
    assert Sorted([e]) == [e];
    var best, other := if e.confidence > d.confidence then e else d, if e.confidence > d.confidence then d else e;
    assert Insert(d, [e]) == [best, other] by { if e.confidence > d.confidence { assert Insert(d, []) == [d]; } }
    assert Apart(best, [other], threshold) == [];
    assert [best, other][1..] == [other];
    assert Greedy([], threshold) == [];
    assert Greedy([best, other], threshold) == [best];
    assert Sorted([d, e]) == [best, other];
  }

  /** Suppressing again changes nothing, not even the order. */
  lemma SurvivorsSurvive(ds: seq<Detection>, threshold: real, score: real)
    ensures var r := Survivors(ds, threshold, score); Survivors(r, threshold, score) == r
  {
    hide Iou;
    var r := Survivors(ds, threshold, score);
    SurvivorsAre(ds, threshold, score);
    PassingAll(r, score);
    SortedIsStable(r);
    GreedyKeepsApart(r, threshold);
  }

  lemma PassingMultiset(a: seq<Detection>, b: seq<Detection>, score: real)
    requires multiset(a) == multiset(b)
    ensures multiset(Passing(a, score)) == multiset(Passing(b, score))
  {
    forall d: Detection ensures multiset(Passing(a, score))[d] == multiset(Passing(b, score))[d] {
      PassingCounts(a, score, d);
      PassingCounts(b, score, d);
    }
  }

  /** With distinct confidences the order of the input does not matter. */
  lemma OrderDoesNotMatter(a: seq<Detection>, b: seq<Detection>, threshold: real, score: real)
    requires multiset(a) == multiset(b) && Distinct(multiset(a))
    ensures Survivors(a, threshold, score) == Survivors(b, threshold, score)
  {
    var p, q := Passing(a, score), Passing(b, score);
    PassingMultiset(a, b, score);
    SortedSorts(p);
    SortedSorts(q);
    forall d: Detection, e: Detection | d in multiset(p) && e in multiset(p) && d.confidence == e.confidence
      ensures d == e && multiset(p)[d] == 1
    {
      PassingCounts(a, score, d);
      PassingCounts(a, score, e);
    }
    SortIsCanonical(Sorted(p), Sorted(q));
  }

  // ---------------------------------------------------------------- by class

  function OfKind(ds: seq<Detection>, kind: string): (r: seq<Detection>)
    ensures AllOf(r, kind)
  {
    if ds == [] then []
    else OfKind(ds[..|ds| - 1], kind) + if ds[|ds| - 1].kind == kind then [ds[|ds| - 1]] else []
  }

  /** The classes in order of first appearance. */
  function Kinds(ds: seq<Detection>): seq<string> {
    if ds == [] then []
    else
      var before := Kinds(ds[..|ds| - 1]);
      if ds[|ds| - 1].kind in before then before else before + [ds[|ds| - 1].kind]
  }

  function PerKind(ds: seq<Detection>, kinds: seq<string>, threshold: real, score: real): seq<Detection> {
    if kinds == [] then []
    else
      PerKind(ds, kinds[..|kinds| - 1], threshold, score) + Survivors(OfKind(ds, kinds[|kinds| - 1]), threshold, score)
  }

  lemma PerKindNext(ds: seq<Detection>, kinds: seq<string>, i: nat, threshold: real, score: real)
    requires i < |kinds|
    ensures PerKind(ds, kinds[..i + 1], threshold, score) ==
            PerKind(ds, kinds[..i], threshold, score) + Survivors(OfKind(ds, kinds[i]), threshold, score)
  {
    assert kinds[..i + 1][..i] == kinds[..i];
  }

  function Processed(ds: seq<Detection>, agnostic: bool, threshold: real, score: real): seq<Detection> {
    if agnostic then Survivors(ds, threshold, score) else PerKind(ds, Kinds(ds), threshold, score)
  }

  /** Group by class in a dictionary that remembers the order its keys were inserted. */
  method GroupByKind(detections: seq<Detection>) returns (keys: seq<string>, groups: map<string, seq<Detection>>)
    ensures keys == Kinds(detections)
    ensures forall k :: k in groups <==> k in keys
    ensures forall k | k in groups :: groups[k] == OfKind(detections, k)
  {
    keys, groups := [], map[];
    for i := 0 to |detections|
      invariant keys == Kinds(detections[..i])
      invariant forall k :: k in groups <==> k in keys
      invariant forall k :: OfKind(detections[..i], k) == if k in groups then groups[k] else []
    {
      var d := detections[i];
      ghost var init := detections[..i + 1];
      assert init[..|init| - 1] == detections[..i] && init[|init| - 1] == d;
      if d.kind !in groups {
        keys := keys + [d.kind];
        groups := groups[d.kind := []];
      }
      groups := groups[d.kind := groups[d.kind] + [d]];
    }
    assert detections[..|detections|] == detections;
  }

  /** The whole step; `removed` is the count put into the metadata; nothing is put there when nothing was detected. */
  method Process(detections: seq<Detection>, agnostic: bool, threshold: real, score: real)
      returns (out: seq<Detection>, removed: Option<nat>)
    ensures out == Processed(detections, agnostic, threshold, score)
    ensures removed == if detections == [] then None else Some(|detections| - |out|)
  {
    if detections == [] {
      return detections, None;
    }
    hide Survivors, PerKind, Kinds, NoBoxTwice;
    if agnostic {
      out := Suppress(detections, threshold, score);
    } else {
      out := SuppressByKind(detections, threshold, score);
    }
    NeverMore(detections, agnostic, threshold, score);
    removed := Some(|detections| - |out|);
  }

  method SuppressByKind(detections: seq<Detection>, threshold: real, score: real) returns (out: seq<Detection>)
    ensures out == PerKind(detections, Kinds(detections), threshold, score)
  {
    hide Survivors, OfKind;
    var keys, groups := GroupByKind(detections);
    out := [];
    for i := 0 to |keys|
      invariant out == PerKind(detections, keys[..i], threshold, score)
    {
      PerKindNext(detections, keys, i, threshold, score);
      var kept := Suppress(groups[keys[i]], threshold, score);
      out := out + kept;
    }
    assert keys[..|keys|] == keys;
  }

  // ---------------------------------------------------------------- what the step keeps, by class

  /** Every survivor is one of the detections, no more often than it was detected. */
  lemma NothingIsInvented(ds: seq<Detection>, agnostic: bool, threshold: real, score: real)
    ensures var r := Processed(ds, agnostic, threshold, score); multiset(r) <= multiset(ds) && |r| <= |ds|
  {
    var r := Processed(ds, agnostic, threshold, score);
    if agnostic {
      SurvivorsAre(ds, threshold, score);
    } else {
      forall d: Detection ensures multiset(r)[d] <= multiset(ds)[d] {
        ClassesAreIndependent(ds, threshold, score, d.kind);
        SurvivorsAre(OfKind(ds, d.kind), threshold, score);
        OfKindCounts(r, d.kind, d);
        OfKindCounts(ds, d.kind, d);
      }
    }
    FewerInside(r, ds);
  }

  lemma NeverMore(ds: seq<Detection>, agnostic: bool, threshold: real, score: real)
    ensures |Processed(ds, agnostic, threshold, score)| <= |ds|
  {
    hide Processed;
    NothingIsInvented(ds, agnostic, threshold, score);
  }

  lemma FewerInside(a: seq<Detection>, b: seq<Detection>)
    requires multiset(a) <= multiset(b)
    ensures |a| <= |b|
  {
    assert multiset(b) == multiset(a) + (multiset(b) - multiset(a));
    assert |multiset(b)| == |multiset(a)| + |multiset(b) - multiset(a)|;
    assert |multiset(a)| == |a| && |multiset(b)| == |b|;
  }

  lemma {:induction false} OfKindConcat(x: seq<Detection>, y: seq<Detection>, kind: string)
    ensures OfKind(x + y, kind) == OfKind(x, kind) + OfKind(y, kind)
    decreases |y|
  {
    if y == [] {
      assert x + y == x;
    } else {
      assert (x + y)[..|x + y| - 1] == x + y[..|y| - 1];
      OfKindConcat(x, y[..|y| - 1], kind);
    }
  }

  lemma {:induction false} OfKindCounts(ds: seq<Detection>, kind: string, d: Detection)
    ensures multiset(OfKind(ds, kind))[d] == if d.kind == kind then multiset(ds)[d] else 0
    decreases |ds|
  {
    if ds != [] {
      OfKindCounts(ds[..|ds| - 1], kind, d);
      assert ds == ds[..|ds| - 1] + [ds[|ds| - 1]];
    }
  }

  predicate AllOf(ds: seq<Detection>, kind: string) {
    forall i | 0 <= i < |ds| :: ds[i].kind == kind
  }

  lemma {:induction false} OfKindAll(ds: seq<Detection>, kind: string)
    requires AllOf(ds, kind)
    ensures OfKind(ds, kind) == ds
    decreases |ds|
  {
    if ds != [] {
      OfKindAll(ds[..|ds| - 1], kind);
      assert ds == ds[..|ds| - 1] + [ds[|ds| - 1]];
    }
  }

  lemma {:induction false} OfKindNone(ds: seq<Detection>, kind: string, other: string)
    requires AllOf(ds, kind) && other != kind
    ensures OfKind(ds, other) == []
    decreases |ds|
  {
    if ds != [] { OfKindNone(ds[..|ds| - 1], kind, other); }
  }

  lemma OfKindUniform(ds: seq<Detection>, kind: string, other: string)
    requires AllOf(ds, kind)
    ensures OfKind(ds, other) == if other == kind then ds else []
  {
    if other == kind { OfKindAll(ds, kind); } else { OfKindNone(ds, kind, other); }
  }

  lemma {:induction false} KindsAre(ds: seq<Detection>)
    ensures forall i, j | 0 <= i < j < |Kinds(ds)| :: Kinds(ds)[i] != Kinds(ds)[j]
    ensures forall k :: k in Kinds(ds) <==> OfKind(ds, k) != []
    decreases |ds|
  {
    if ds != [] { KindsAre(ds[..|ds| - 1]); }
  }

  /** Where the class is first seen. */
  ghost predicate FirstSeen(ds: seq<Detection>, k: string, m: nat) {
    m < |ds| && ds[m].kind == k && forall n | 0 <= n < m :: ds[n].kind != k
  }

  lemma {:induction false} KindSeen(ds: seq<Detection>, k: string)
    ensures k in Kinds(ds) <==> exists m :: 0 <= m < |ds| && ds[m].kind == k
    decreases |ds|
  {
    if ds != [] {
      var front := ds[..|ds| - 1];
      KindSeen(front, k);
      assert forall m | 0 <= m < |front| :: front[m] == ds[m];
    }
  }

  /** The classes come in the order they are first seen. */
  lemma {:induction false} KindsInOrder(ds: seq<Detection>, i: nat, j: nat, m: nat, n: nat)
    requires i < j < |Kinds(ds)| && FirstSeen(ds, Kinds(ds)[i], m) && FirstSeen(ds, Kinds(ds)[j], n)
    ensures m < n
    decreases |ds|
  {
    var front := ds[..|ds| - 1];
    assert forall l | 0 <= l < |front| :: front[l] == ds[l];
    KindSeen(front, Kinds(ds)[i]);
    KindSeen(front, Kinds(ds)[j]);
    KindsAre(ds);
    if j < |Kinds(front)| { KindsInOrder(front, i, j, m, n); }
  }

  lemma SurvivorsUniform(ds: seq<Detection>, kind: string, threshold: real, score: real)
    requires AllOf(ds, kind)
    ensures AllOf(Survivors(ds, threshold, score), kind)
  {
    var r := Survivors(ds, threshold, score);
    SurvivorsAre(ds, threshold, score);
    forall i | 0 <= i < |r| ensures r[i].kind == kind {
      assert multiset(r)[r[i]] > 0;
      assert r[i] in ds;
    }
  }

  lemma {:induction false} PerKindPart(ds: seq<Detection>, kinds: seq<string>, threshold: real, score: real, k: string)
    requires forall i, j | 0 <= i < j < |kinds| :: kinds[i] != kinds[j]
    ensures OfKind(PerKind(ds, kinds, threshold, score), k) ==
            if k in kinds then Survivors(OfKind(ds, k), threshold, score) else []
    decreases |kinds|
  {
    if kinds != [] {
      var front, last := kinds[..|kinds| - 1], kinds[|kinds| - 1];
      var before, part := PerKind(ds, front, threshold, score), Survivors(OfKind(ds, last), threshold, score);
      PerKindPart(ds, front, threshold, score, k);
      SurvivorsUniform(OfKind(ds, last), last, threshold, score);
      OfKindConcat(before, part, k);
      OfKindUniform(part, last, k);
      InFront(kinds, k);
    }
  }

  lemma InFront(kinds: seq<string>, k: string)
    requires kinds != [] && forall i, j | 0 <= i < j < |kinds| :: kinds[i] != kinds[j]
    ensures k == kinds[|kinds| - 1] ==> k in kinds && k !in kinds[..|kinds| - 1]
    ensures k != kinds[|kinds| - 1] ==> (k in kinds <==> k in kinds[..|kinds| - 1])
  {
    assert kinds == kinds[..|kinds| - 1] + [kinds[|kinds| - 1]];
  }

  /** Each class keeps exactly its own survivors, as if it were alone. */
  lemma ClassesAreIndependent(ds: seq<Detection>, threshold: real, score: real, k: string)
    ensures OfKind(Processed(ds, false, threshold, score), k) == Survivors(OfKind(ds, k), threshold, score)
  {
    KindsAre(ds);
    PerKindPart(ds, Kinds(ds), threshold, score, k);
  }

  /** Whoever passes the score and is dropped overlaps a survivor of its own class at least as confident. */
  lemma ClassLoserIsBeaten(ds: seq<Detection>, threshold: real, score: real, d: Detection)
    requires d.confidence >= score && multiset(Processed(ds, false, threshold, score))[d] < multiset(ds)[d]
    ensures exists k :: k in Processed(ds, false, threshold, score) && k.kind == d.kind && Beats(k, d, threshold)
  {
    hide Iou;
    var r, same := Processed(ds, false, threshold, score), OfKind(ds, d.kind);
    ClassesAreIndependent(ds, threshold, score, d.kind);
    OfKindCounts(r, d.kind, d);
    OfKindCounts(ds, d.kind, d);
    SurvivorsAre(same, threshold, score);
    var k :| k in Survivors(same, threshold, score) && Beats(k, d, threshold);
    OfKindCounts(r, d.kind, k);
    assert multiset(OfKind(r, d.kind))[k] > 0;
  }

  /** With distinct confidences within each class, the surviving detections do not depend on the input order. */
  lemma ClassOrderDoesNotMatter(a: seq<Detection>, b: seq<Detection>, threshold: real, score: real)
    requires multiset(a) == multiset(b) && forall k :: Distinct(multiset(OfKind(a, k)))
    ensures multiset(Processed(a, false, threshold, score)) == multiset(Processed(b, false, threshold, score))
  {
    var p, q := Processed(a, false, threshold, score), Processed(b, false, threshold, score);
    forall d: Detection ensures multiset(p)[d] == multiset(q)[d] {
      ClassMultiset(a, b, d.kind);
      OrderDoesNotMatter(OfKind(a, d.kind), OfKind(b, d.kind), threshold, score);
      ClassesAreIndependent(a, threshold, score, d.kind);
      ClassesAreIndependent(b, threshold, score, d.kind);
      OfKindCounts(p, d.kind, d);
      OfKindCounts(q, d.kind, d);
    }
  }

  lemma ClassMultiset(a: seq<Detection>, b: seq<Detection>, kind: string)
    requires multiset(a) == multiset(b)
    ensures multiset(OfKind(a, kind)) == multiset(OfKind(b, kind))
  {
    forall e: Detection ensures multiset(OfKind(a, kind))[e] == multiset(OfKind(b, kind))[e] {
      OfKindCounts(a, kind, e);
      OfKindCounts(b, kind, e);
    }
  }

  lemma {:induction false} KindsUniform(before: seq<Detection>, part: seq<Detection>, kind: string)
    requires part != [] && kind !in Kinds(before) && AllOf(part, kind)
    ensures Kinds(before + part) == Kinds(before) + [kind]
    decreases |part|
  {
    var w := before + part;
    assert w[..|w| - 1] == before + part[..|part| - 1] && w[|w| - 1] == part[|part| - 1];
    if |part| == 1 {
      assert before + part[..0] == before;
    } else {
      KindsUniform(before, part[..|part| - 1], kind);
    }
  }

  lemma {:induction false} PerKindLocal(a: seq<Detection>, b: seq<Detection>, kinds: seq<string>, threshold: real,
          score: real)
    requires forall k | k in kinds :: OfKind(a, k) == OfKind(b, k)
    ensures PerKind(a, kinds, threshold, score) == PerKind(b, kinds, threshold, score)
    decreases |kinds|
  {
    if kinds != [] { PerKindLocal(a, b, kinds[..|kinds| - 1], threshold, score); }
  }

  lemma {:induction false} PerKindSurvives(ds: seq<Detection>, kinds: seq<string>, threshold: real, score: real)
    requires forall i, j | 0 <= i < j < |kinds| :: kinds[i] != kinds[j]
    ensures var r := PerKind(ds, kinds, threshold, score); Processed(r, false, threshold, score) == r
    decreases |kinds|
  {
    if kinds != [] {
      var front, last := kinds[..|kinds| - 1], kinds[|kinds| - 1];
      var before, part := PerKind(ds, front, threshold, score), Survivors(OfKind(ds, last), threshold, score);
      PerKindSurvives(ds, front, threshold, score);
      if part == [] {
        assert before + part == before;
      } else {
        PerKindPart(ds, front, threshold, score, last);
        KindsAre(before);
        SurvivorsUniform(OfKind(ds, last), last, threshold, score);
        SurvivorsSurvive(OfKind(ds, last), threshold, score);
        OneMoreKind(before, part, last, threshold, score);
      }
    }
  }

  lemma OneMoreKind(before: seq<Detection>, part: seq<Detection>, kind: string, threshold: real, score: real)
    requires part != [] && kind !in Kinds(before) && OfKind(before, kind) == []
    requires AllOf(part, kind)
    requires Processed(before, false, threshold, score) == before && Survivors(part, threshold, score) == part
    ensures Processed(before + part, false, threshold, score) == before + part
  {
    hide Iou;
    var w, kinds := before + part, Kinds(before);
    KindsUniform(before, part, kind);
    forall k ensures OfKind(w, k) == if k == kind then part else OfKind(before, k) {
      OfKindConcat(before, part, k);
      OfKindUniform(part, kind, k);
    }
    PerKindLocal(w, before, kinds, threshold, score);
    assert (kinds + [kind])[..|kinds|] == kinds;
  }

  /** The step is idempotent: a second run returns the very same list. */
  lemma ProcessTwice(ds: seq<Detection>, agnostic: bool, threshold: real, score: real)
    ensures var r := Processed(ds, agnostic, threshold, score); Processed(r, agnostic, threshold, score) == r
  {
    if agnostic {
      SurvivorsSurvive(ds, threshold, score);
    } else {
      KindsAre(ds);
      PerKindSurvives(ds, Kinds(ds), threshold, score);
    }
  }
}
