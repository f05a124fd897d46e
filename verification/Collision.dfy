/** The collision tracker: a nested loop over all pairs of registered colliders keeps, in each
    collider's own set, whom it overlaps, and tells both owners when an overlap begins, lasts and ends.

    `Tracker` is its state as a value; `CollisionManagement` proves the class against it. */
module Collision {
  import opened Sequences

  datatype Event<T> = Begin(at: T, other: T) | Stay(at: T, other: T) | End(at: T, other: T)

  datatype Tracker<T(==)> = Tracker(colliders: seq<T>, sets: map<T, set<T>>, log: seq<Event<T>>) {
    /** Whether `other` is in the collision set of `c`. */
    predicate Touching(c: T, other: T) { c in sets && other in sets[c] }

    function Insert(c: T, other: T): Tracker<T> {
      this.(sets := sets[c := (if c in sets then sets[c] else {}) + {other}])
    }

    function Erase(c: T, other: T): Tracker<T> {
      this.(sets := sets[c := (if c in sets then sets[c] else {}) - {other}])
    }

    function Notify(es: seq<Event<T>>): Tracker<T> { this.(log := log + es) }
  }

  /** The body of the pair loop. */
  function PairStep<T(==)>(t: Tracker<T>, src: T, dest: T, overlap: bool): Tracker<T> {
    if overlap then
      var t' := if t.Touching(src, dest) then t
                else t.Notify([Begin(src, dest), Begin(dest, src)]).Insert(src, dest).Insert(dest, src);
      t'.Notify([Stay(src, dest), Stay(dest, src)])
    else if t.Touching(src, dest) then
      t.Notify([End(src, dest), End(dest, src)]).Erase(src, dest).Erase(dest, src)
    else t
  }

  /** The pairs the nested loops visit, in order. */
  function Row<T>(c: T, ds: seq<T>): seq<(T, T)> {
    if ds == [] then [] else [(c, ds[0])] + Row(c, ds[1..])
  }

  function Pairs<T>(cs: seq<T>): seq<(T, T)> {
    if cs == [] then [] else Row(cs[0], cs[1..]) + Pairs(cs[1..])
  }

  function FoldPairs<T(==)>(t: Tracker<T>, ps: seq<(T, T)>, overlap: (T, T) -> bool): Tracker<T>
    decreases |ps|
  {
    if ps == [] then t
    else FoldPairs(PairStep(t, ps[0].0, ps[0].1, overlap(ps[0].0, ps[0].1)), ps[1..], overlap)
  }

  function UpdateTracker<T(==)>(t: Tracker<T>, overlap: (T, T) -> bool): Tracker<T> {
    FoldPairs(t, Pairs(t.colliders), overlap)
  }

  //
  // Runs
  //

  /** What may happen to the tracker; each update sees the overlaps of its own moment. */
  datatype Action<!T(==)> = Register(c: T) | Unregister(c: T) | Update(overlap: (T, T) -> bool)

  function Act<T(==)>(t: Tracker<T>, a: Action<T>): Tracker<T> {
    match a
    case Register(c) => t.(colliders := t.colliders + [c], sets := if c in t.sets then t.sets else t.sets[c := {}])
    case Unregister(c) => t.(colliders := Without(t.colliders, c))
    case Update(overlap) => UpdateTracker(t, overlap)
  }

  function Run<T(==)>(t: Tracker<T>, acts: seq<Action<T>>): Tracker<T>
    decreases |acts|
  {
    if acts == [] then t else Run(Act(t, acts[0]), acts[1..])
  }

  function Fresh<T(==)>(): Tracker<T> { Tracker([], map[], []) }

  //
  // What the owner of `x` hears about `y`
  //

  datatype Kind = BeginKind | StayKind | EndKind

  function KindOf<T>(e: Event<T>): Kind {
    match e
    case Begin(_, _) => BeginKind
    case Stay(_, _) => StayKind
    case End(_, _) => EndKind
  }

  /** The events told to the owner of `x` about `y`, in order. */
  function Heard<T(==)>(log: seq<Event<T>>, x: T, y: T): seq<Kind> {
    if log == [] then []
    else
      var e := log[|log| - 1];
      Heard(log[..|log| - 1], x, y) + if e.at == x && e.other == y then [KindOf(e)] else []
  }

  /** Outside an overlap, inside one, or after an event that should not have come. */
  datatype Phase = Outside | Inside | Broken

  function NextPhase(p: Phase, k: Kind): Phase {
    match (p, k)
    case (Outside, BeginKind) => Inside
    case (Inside, StayKind) => Inside
    case (Inside, EndKind) => Outside
    case _ => Broken
  }

  function PhaseOf(ks: seq<Kind>): Phase {
    if ks == [] then Outside else NextPhase(PhaseOf(ks[..|ks| - 1]), ks[|ks| - 1])
  }

  function Count(ks: seq<Kind>, k: Kind): nat {
    if ks == [] then 0 else Count(ks[..|ks| - 1], k) + if ks[|ks| - 1] == k then 1 else 0
  }

  /** The log about `x` and `y` is in step with the collision sets, on both sides. */
  ghost predicate InStep<T>(t: Tracker<T>, x: T, y: T) {
    && PhaseOf(Heard(t.log, x, y)) == (if t.Touching(x, y) then Inside else Outside)
    && Heard(t.log, x, y) == Heard(t.log, y, x)
    && t.Touching(x, y) == t.Touching(y, x)
  }

  /** The pair `{src, dest}` is the pair `{x, y}`. */
  predicate Same<T(==)>(src: T, dest: T, x: T, y: T) { (src == x && dest == y) || (src == y && dest == x) }

  lemma HeardMore<T>(log: seq<Event<T>>, e: Event<T>, x: T, y: T)
    ensures Heard(log + [e], x, y) == Heard(log, x, y) + if e.at == x && e.other == y then [KindOf(e)] else []
  {
    assert (log + [e])[..|log|] == log;
  }

  /** Mirrored events are heard once by each of the two, and by no other pair. */
  lemma HeardByBoth<T>(log: seq<Event<T>>, d: Event<T>, e: Event<T>, x: T, y: T)
    requires x != y && d.at == e.other && d.other == e.at && KindOf(d) == KindOf(e)
    ensures Heard(log + [d, e], x, y)
         == if Same(d.at, d.other, x, y) then Heard(log, x, y) + [KindOf(d)] else Heard(log, x, y)
  {
    assert log + [d, e] == log + [d] + [e];
    HeardMore(log, d, x, y);
    HeardMore(log + [d], e, x, y);
  }

  lemma PhaseMore(ks: seq<Kind>, k: Kind)
    ensures PhaseOf(ks + [k]) == NextPhase(PhaseOf(ks), k)
  {
    assert (ks + [k])[..|ks|] == ks;
  }

  /** One mirrored notification keeps two colliders in step, if it is what their sets call for. */
  lemma NotifyInStep<T>(t: Tracker<T>, d: Event<T>, e: Event<T>, t': Tracker<T>, x: T, y: T)
    requires x != y && InStep(t, x, y)
    requires d.at == e.other && d.other == e.at && KindOf(d) == KindOf(e)
    requires t'.log == t.log + [d, e]
    requires t'.Touching(x, y) == t'.Touching(y, x)
    requires if Same(d.at, d.other, x, y)
             then NextPhase(if t.Touching(x, y) then Inside else Outside, KindOf(d))
                  == (if t'.Touching(x, y) then Inside else Outside)
             else t'.Touching(x, y) == t.Touching(x, y)
    ensures InStep(t', x, y)
  {
    HeardByBoth(t.log, d, e, x, y);
    HeardByBoth(t.log, d, e, y, x);
    PhaseMore(Heard(t.log, x, y), KindOf(d));
  }

  lemma PairStepInStep<T>(t: Tracker<T>, src: T, dest: T, overlap: bool, x: T, y: T)
    requires x != y && InStep(t, x, y)
    ensures InStep(PairStep(t, src, dest, overlap), x, y)
  {
    hide PhaseOf, Heard;
    var t' := PairStep(t, src, dest, overlap);
    if overlap {
      var begun := if t.Touching(src, dest) then t
                   else t.Notify([Begin(src, dest), Begin(dest, src)]).Insert(src, dest).Insert(dest, src);
      if !t.Touching(src, dest) { NotifyInStep(t, Begin(src, dest), Begin(dest, src), begun, x, y); }
      NotifyInStep(begun, Stay(src, dest), Stay(dest, src), t', x, y);
    } else if t.Touching(src, dest) {
      NotifyInStep(t, End(src, dest), End(dest, src), t', x, y);
    }
  }

  lemma {:induction false} FoldInStep<T>(t: Tracker<T>, ps: seq<(T, T)>, overlap: (T, T) -> bool, x: T, y: T)
    requires x != y && InStep(t, x, y)
    ensures InStep(FoldPairs(t, ps, overlap), x, y)
    decreases |ps|
  {
    if ps == [] {
    } else {
      PairStepInStep(t, ps[0].0, ps[0].1, overlap(ps[0].0, ps[0].1), x, y);
      FoldInStep(PairStep(t, ps[0].0, ps[0].1, overlap(ps[0].0, ps[0].1)), ps[1..], overlap, x, y);
    }
  }

  lemma {:induction false} RunInStep<T>(t: Tracker<T>, acts: seq<Action<T>>, x: T, y: T)
    requires x != y && InStep(t, x, y)
    ensures InStep(Run(t, acts), x, y)
    decreases |acts|
  {
    if acts == [] {
    } else {
      if acts[0].Update? { FoldInStep(t, Pairs(t.colliders), acts[0].overlap, x, y); }
      RunInStep(Act(t, acts[0]), acts[1..], x, y);
    }
  }

  lemma {:induction false} PhaseCounts(ks: seq<Kind>)
    requires PhaseOf(ks) != Broken
    ensures Count(ks, BeginKind) - Count(ks, EndKind) == if PhaseOf(ks) == Inside then 1 else 0
  {
    if ks == [] {
    } else {
      PhaseCounts(ks[..|ks| - 1]);
    }
  }

  /** Over every run, with any registrations and any overlaps, for every two colliders: their Begin and
      End events alternate starting with Begin, Stay occurs only in between, begins exceed ends by one
      exactly while each is in the other's set, and both owners hear the same. */
  lemma EventsAlternate<T>(acts: seq<Action<T>>, x: T, y: T)
    requires x != y
    ensures var t := Run(Fresh(), acts);
            var heard := Heard(t.log, x, y);
            && PhaseOf(heard) != Broken
            && Count(heard, BeginKind) - Count(heard, EndKind) == (if t.Touching(x, y) then 1 else 0)
            && t.Touching(x, y) == t.Touching(y, x)
            && Heard(t.log, y, x) == heard
  {
    RunInStep(Fresh(), acts, x, y);
    PhaseCounts(Heard(Run(Fresh<T>(), acts).log, x, y));
  }

  //
  // A collider and itself
  //

  /** Some update of the run finds `c` registered twice while `c` overlaps itself. */
  ghost predicate MeetsItself<T>(t: Tracker<T>, acts: seq<Action<T>>, c: T)
    decreases |acts|
  {
    acts != [] &&
    (|| (acts[0].Update? && multiset(t.colliders)[c] >= 2 && acts[0].overlap(c, c))
     || MeetsItself(Act(t, acts[0]), acts[1..], c))
  }

  ghost predicate Unaware<T>(t: Tracker<T>, c: T) { Heard(t.log, c, c) == [] && !t.Touching(c, c) }

  lemma {:induction false} RowPairs<T>(c: T, ds: seq<T>, p: (T, T))
    ensures p in Row(c, ds) <==> p.0 == c && p.1 in ds
  {
    if ds == [] {
    } else {
      RowPairs(c, ds[1..], p);
    }
  }

  lemma {:induction false} SelfPair<T>(cs: seq<T>, c: T)
    ensures (c, c) in Pairs(cs) <==> multiset(cs)[c] >= 2
  {
    if cs == [] {
    } else {
      RowPairs(cs[0], cs[1..], (c, c));
      SelfPair(cs[1..], c);
      assert cs == [cs[0]] + cs[1..];
      assert c in cs[1..] <==> c in multiset(cs[1..]);
    }
  }

  lemma HeardTwice<T>(log: seq<Event<T>>, d: Event<T>, e: Event<T>, c: T)
    requires d.at == e.other && d.other == e.at && KindOf(d) == KindOf(e)
    ensures Heard(log + [d, e], c, c)
         == if d.at == c == d.other then Heard(log, c, c) + [KindOf(d)] + [KindOf(e)] else Heard(log, c, c)
  {
    assert log + [d, e] == log + [d] + [e];
    HeardMore(log, d, c, c);
    HeardMore(log + [d], e, c, c);
  }

  lemma TwoBeginsBreak(ks: seq<Kind>)
    ensures PhaseOf(ks + [BeginKind] + [BeginKind]) == Broken
  {
    PhaseMore(ks, BeginKind);
    PhaseMore(ks + [BeginKind], BeginKind);
  }

  ghost predicate SelfBroken<T>(t: Tracker<T>, c: T) { PhaseOf(Heard(t.log, c, c)) == Broken }

  lemma PairStepSelf<T>(t: Tracker<T>, src: T, dest: T, overlap: bool, c: T)
    requires Unaware(t, c) || SelfBroken(t, c)
    ensures var t' := PairStep(t, src, dest, overlap);
            if SelfBroken(t, c) || (src == c == dest && overlap) then SelfBroken(t', c) else Unaware(t', c)
  {
    hide PhaseOf, Heard;
    var h := Heard(t.log, c, c);
    PhaseOfNothing();
    HeardTwice(t.log, Begin(src, dest), Begin(dest, src), c);
    HeardTwice(t.log, Stay(src, dest), Stay(dest, src), c);
    HeardTwice(t.log, End(src, dest), End(dest, src), c);
    HeardTwice(t.log + [Begin(src, dest), Begin(dest, src)], Stay(src, dest), Stay(dest, src), c);
    if SelfBroken(t, c) { TwoMoreStayBroken(h, StayKind); TwoMoreStayBroken(h, EndKind); }
    TwoBeginsBreak(h);
    TwoMoreStayBroken(h + [BeginKind] + [BeginKind], StayKind);
  }

  lemma TwoMoreStayBroken(ks: seq<Kind>, k: Kind)
    requires PhaseOf(ks) == Broken
    ensures PhaseOf(ks + [k] + [k]) == Broken
  {
    PhaseMore(ks, k);
    PhaseMore(ks + [k], k);
  }

  lemma PhaseOfNothing()
    ensures PhaseOf([]) == Outside
  {
  }

  lemma {:induction false} FoldSelf<T>(t: Tracker<T>, ps: seq<(T, T)>, overlap: (T, T) -> bool, c: T)
    requires Unaware(t, c) || SelfBroken(t, c)
    ensures var t' := FoldPairs(t, ps, overlap);
            if SelfBroken(t, c) || ((c, c) in ps && overlap(c, c)) then SelfBroken(t', c) else Unaware(t', c)
    decreases |ps|
  {
    if ps == [] {
    } else {
      PairStepSelf(t, ps[0].0, ps[0].1, overlap(ps[0].0, ps[0].1), c);
      FoldSelf(PairStep(t, ps[0].0, ps[0].1, overlap(ps[0].0, ps[0].1)), ps[1..], overlap, c);
      assert ps == [ps[0]] + ps[1..];
    }
    PhaseOfNothing();
  }

  lemma {:induction false} RunSelf<T>(t: Tracker<T>, acts: seq<Action<T>>, c: T)
    requires Unaware(t, c) || SelfBroken(t, c)
    ensures if SelfBroken(t, c) || MeetsItself(t, acts, c) then SelfBroken(Run(t, acts), c)
            else Unaware(Run(t, acts), c)
    decreases |acts|
  {
    PhaseOfNothing();
    if acts == [] {
    } else {
      if acts[0].Update? {
        FoldSelf(t, Pairs(t.colliders), acts[0].overlap, c);
        SelfPair(t.colliders, c);
      }
      RunSelf(Act(t, acts[0]), acts[1..], c);
    }
  }

  /** The alternation fails for a collider and itself exactly in the runs where it was registered
      twice at an update at which it overlaps itself: it then hears two begins in a row. */
  lemma SelfEventsAlternateIff<T>(acts: seq<Action<T>>, c: T)
    ensures PhaseOf(Heard(Run(Fresh(), acts).log, c, c)) != Broken <==> !MeetsItself(Fresh(), acts, c)
  {
    RunSelf(Fresh(), acts, c);
    PhaseOfNothing();
  }

  /** A run that shows it: registered twice, then updated while overlapping itself. */
  lemma DoubleRegistrationBreaks<T>(c: T, overlap: (T, T) -> bool)
    requires overlap(c, c)
    ensures PhaseOf(Heard(Run(Fresh(), [Register(c), Register(c), Update(overlap)]).log, c, c)) == Broken
  {
    var acts := [Register(c), Register(c), Update(overlap)];
    var t: Tracker<T> := Act(Act(Fresh(), acts[0]), acts[1]);
    assert t.colliders == [c, c] && multiset(t.colliders)[c] == 2;
    assert acts[1..][1..] == [Update(overlap)];
    assert MeetsItself(t, acts[1..][1..], c);
    assert MeetsItself(Act(Fresh(), acts[0]), acts[1..], c);
    SelfEventsAlternateIff(acts, c);
  }

  //
  // The relation after one update
  //

  /** What a list of pairs does to the relation, when the overlap test is symmetric. */
  lemma {:induction false} FoldRelation<T>(t: Tracker<T>, ps: seq<(T, T)>, overlap: (T, T) -> bool, x: T, y: T)
    requires x != y && t.Touching(x, y) == t.Touching(y, x) && overlap(x, y) == overlap(y, x)
    ensures var t' := FoldPairs(t, ps, overlap);
            && t'.Touching(x, y) == (if (x, y) in ps || (y, x) in ps then overlap(x, y) else t.Touching(x, y))
            && t'.Touching(x, y) == t'.Touching(y, x)
    decreases |ps|
  {
    if ps == [] {
    } else {
      FoldRelation(PairStep(t, ps[0].0, ps[0].1, overlap(ps[0].0, ps[0].1)), ps[1..], overlap, x, y);
      assert ps == [ps[0]] + ps[1..];
    }
  }

  lemma {:induction false} PairsCover<T>(cs: seq<T>, x: T, y: T)
    requires x != y
    ensures ((x, y) in Pairs(cs) || (y, x) in Pairs(cs)) <==> (x in cs && y in cs)
  {
    if cs == [] {
    } else {
      RowPairs(cs[0], cs[1..], (x, y));
      RowPairs(cs[0], cs[1..], (y, x));
      PairsCover(cs[1..], x, y);
      assert cs == [cs[0]] + cs[1..];
    }
  }

  /** After an update at any point of any run, two registered colliders are in each other's set exactly
      when they overlap; where one of them is not registered, nothing changes. */
  lemma UpdateRelation<T>(acts: seq<Action<T>>, overlap: (T, T) -> bool, x: T, y: T)
    requires x != y && overlap(x, y) == overlap(y, x)
    ensures var t := Run(Fresh(), acts);
            UpdateTracker(t, overlap).Touching(x, y)
            == if x in t.colliders && y in t.colliders then overlap(x, y) else t.Touching(x, y)
  {
    var t := Run(Fresh(), acts);
    RunInStep(Fresh(), acts, x, y);
    PairsCover(t.colliders, x, y);
    FoldRelation(t, Pairs(t.colliders), overlap, x, y);
  }

  /** The order of registration does not matter to the relation an update leaves. */
  lemma OrderDoesNotMatter<T>(t: Tracker<T>, u: Tracker<T>, overlap: (T, T) -> bool, x: T, y: T)
    requires x != y && overlap(x, y) == overlap(y, x)
    requires multiset(t.colliders) == multiset(u.colliders) && t.sets == u.sets
    requires t.Touching(x, y) == t.Touching(y, x)
    ensures UpdateTracker(t, overlap).Touching(x, y) == UpdateTracker(u, overlap).Touching(x, y)
  {
    PairsCover(t.colliders, x, y);
    PairsCover(u.colliders, x, y);
    FoldRelation(t, Pairs(t.colliders), overlap, x, y);
    FoldRelation(u, Pairs(u.colliders), overlap, x, y);
    assert forall c :: c in t.colliders <==> c in multiset(t.colliders);
    assert forall c :: c in u.colliders <==> c in multiset(u.colliders);
  }
}
