/** What one update of the collision tracker tells: how often, to whom and in which order. */
module CollisionEvents {
  import opened Sequences
  import opened Collision

  /** `n` times Stay. */
  function Stays(n: nat): seq<Kind> { seq(n, _ => StayKind) }

  /** What two colliders hear of each other when the loop visits their pair `visits` times. */
  function Told(touching: bool, overlap: bool, visits: nat): seq<Kind> {
    if visits == 0 then []
    else if overlap then (if touching then [] else [BeginKind]) + Stays(visits)
    else if touching then [EndKind] else []
  }

  /** How many of the pairs are `{x, y}`. */
  function Visits<T(==)>(ps: seq<(T, T)>, x: T, y: T): nat {
    if ps == [] then 0 else (if Same(ps[0].0, ps[0].1, x, y) then 1 else 0) + Visits(ps[1..], x, y)
  }

  lemma PairStepTells<T>(t: Tracker<T>, src: T, dest: T, overlap: bool, x: T, y: T)
    requires x != y && t.Touching(x, y) == t.Touching(y, x)
    ensures var t' := PairStep(t, src, dest, overlap);
            var touching' := if Same(src, dest, x, y) then overlap else t.Touching(x, y);
            && t'.Touching(x, y) == t'.Touching(y, x) == touching'
            && Heard(t'.log, x, y) == Heard(t.log, x, y)
                                      + if Same(src, dest, x, y) then Told(t.Touching(x, y), overlap, 1) else []
  {
    hide Heard;
    var t' := PairStep(t, src, dest, overlap);
    if overlap {
      var begun := if t.Touching(src, dest) then t
                   else t.Notify([Begin(src, dest), Begin(dest, src)]).Insert(src, dest).Insert(dest, src);
      if !t.Touching(src, dest) { HeardByBoth(t.log, Begin(src, dest), Begin(dest, src), x, y); }
      HeardByBoth(begun.log, Stay(src, dest), Stay(dest, src), x, y);
      assert Stays(1) == [StayKind];
    } else if t.Touching(src, dest) {
      HeardByBoth(t.log, End(src, dest), End(dest, src), x, y);
    }
  }

  lemma ToldThen(touching: bool, overlap: bool, more: nat)
    ensures Told(touching, overlap, 1) + Told(overlap, overlap, more) == Told(touching, overlap, 1 + more)
  {
    assert Stays(1) + Stays(more) == Stays(1 + more);
  }

  lemma {:induction false} FoldTells<T>(t: Tracker<T>, ps: seq<(T, T)>, overlap: (T, T) -> bool, x: T, y: T)
    requires x != y && t.Touching(x, y) == t.Touching(y, x) && overlap(x, y) == overlap(y, x)
    ensures Heard(FoldPairs(t, ps, overlap).log, x, y)
         == Heard(t.log, x, y) + Told(t.Touching(x, y), overlap(x, y), Visits(ps, x, y))
    decreases |ps|
  {
    hide Heard, PairStep, Told;
    if ps == [] {
      ToldNothing(t.Touching(x, y), overlap(x, y));
      assert Heard(t.log, x, y) + [] == Heard(t.log, x, y);
    } else {
      var (src, dest) := ps[0];
      var t' := PairStep(t, src, dest, overlap(src, dest));
      PairStepTells(t, src, dest, overlap(src, dest), x, y);
      FoldTells(t', ps[1..], overlap, x, y);
      ToldThen(t.Touching(x, y), overlap(x, y), Visits(ps[1..], x, y));
      if Same(src, dest, x, y) {
        assert Heard(t.log, x, y) + Told(t.Touching(x, y), overlap(x, y), 1)
               + Told(overlap(x, y), overlap(x, y), Visits(ps[1..], x, y))
            == Heard(t.log, x, y) + Told(t.Touching(x, y), overlap(x, y), 1 + Visits(ps[1..], x, y));
      } else {
        assert Heard(t.log, x, y) + [] == Heard(t.log, x, y);
      }
    }
  }

  lemma ToldNothing(touching: bool, overlap: bool)
    ensures Told(touching, overlap, 0) == []
  {
  }

  lemma ToldOnce(touching: bool, overlap: bool)
    ensures Told(touching, overlap, 1) ==
            match (touching, overlap)
            case (true, true) => [StayKind]
            case (false, true) => [BeginKind, StayKind]
            case (true, false) => [EndKind]
            case (false, false) => []
  {
    assert Stays(1) == [StayKind];
  }

  lemma {:induction false} VisitsConcat<T>(ps: seq<(T, T)>, qs: seq<(T, T)>, x: T, y: T)
    ensures Visits(ps + qs, x, y) == Visits(ps, x, y) + Visits(qs, x, y)
  {
    if ps == [] {
      assert ps + qs == qs;
    } else {
      assert (ps + qs)[0] == ps[0] && (ps + qs)[1..] == ps[1..] + qs;
      VisitsConcat(ps[1..], qs, x, y);
    }
  }

  lemma {:induction false} RowVisits<T>(c: T, ds: seq<T>, x: T, y: T)
    requires x != y
    ensures Visits(Row(c, ds), x, y) == if c == x then multiset(ds)[y] else if c == y then multiset(ds)[x] else 0
  {
    if ds == [] {
    } else {
      assert ds == [ds[0]] + ds[1..] && Row(c, ds)[1..] == Row(c, ds[1..]);
      RowVisits(c, ds[1..], x, y);
    }
  }

  function Times(n: nat, m: nat): nat { n * m }

  lemma OneMoreTimes(n: nat, m: nat)
    ensures Times(n + 1, m) == Times(n, m) + m && Times(m, n + 1) == Times(m, n) + m
    ensures n == 0 || m == 0 ==> Times(n, m) == 0
    ensures n == m == 1 ==> Times(n, m) == 1
  {
  }

  /** The nested loops visit a pair as often as its two colliders are registered, multiplied. */
  lemma {:induction false} PairsVisits<T>(cs: seq<T>, x: T, y: T)
    requires x != y
    ensures Visits(Pairs(cs), x, y) == Times(multiset(cs)[x], multiset(cs)[y])
  {
    hide Times, Row;
    if cs == [] {
      OneMoreTimes(0, 0);
    } else {
      var n, m := multiset(cs[1..])[x], multiset(cs[1..])[y];
      assert cs == [cs[0]] + cs[1..];
      assert multiset(cs)[x] == if cs[0] == x then n + 1 else n;
      assert multiset(cs)[y] == if cs[0] == y then m + 1 else m;
      PairsVisits(cs[1..], x, y);
      RowVisits(cs[0], cs[1..], x, y);
      VisitsConcat(Row(cs[0], cs[1..]), Pairs(cs[1..]), x, y);
      OneMoreTimes(n, m);
      OneMoreTimes(m, n);
    }
  }

  /** What an update tells two colliders of each other, at any point of any run: Begin when they were not in
      each other's sets and overlap, then Stay each time the loop visits them, End when they were and do
      not, and nothing else; so nothing where one of them is not registered. */
  lemma UpdateTells<T>(acts: seq<Action<T>>, overlap: (T, T) -> bool, x: T, y: T)
    requires x != y && overlap(x, y) == overlap(y, x)
    ensures var t := Run(Fresh(), acts);
            Heard(UpdateTracker(t, overlap).log, x, y)
            == Heard(t.log, x, y)
               + Told(t.Touching(x, y), overlap(x, y), Times(multiset(t.colliders)[x], multiset(t.colliders)[y]))
  {
    var t := Run(Fresh(), acts);
    RunInStep(Fresh(), acts, x, y);
    PairsVisits(t.colliders, x, y);
    FoldTells(t, Pairs(t.colliders), overlap, x, y);
  }

  /** The same for colliders registered once or not at all. */
  lemma UpdateTellsOnce<T>(acts: seq<Action<T>>, overlap: (T, T) -> bool, x: T, y: T)
    requires x != y && overlap(x, y) == overlap(y, x)
    requires var t := Run(Fresh(), acts); multiset(t.colliders)[x] <= 1 && multiset(t.colliders)[y] <= 1
    ensures var t := Run(Fresh(), acts);
            Heard(UpdateTracker(t, overlap).log, x, y)
            == Heard(t.log, x, y)
               + (if x !in t.colliders || y !in t.colliders then []
                  else match (t.Touching(x, y), overlap(x, y))
                    case (true, true) => [StayKind]
                    case (false, true) => [BeginKind, StayKind]
                    case (true, false) => [EndKind]
                    case (false, false) => [])
  {
    hide Heard, UpdateTracker, Run, Times, Told;
    var t := Run(Fresh<T>(), acts);
    UpdateTells(acts, overlap, x, y);
    OneMoreTimes(multiset(t.colliders)[x], multiset(t.colliders)[y]);
    ToldOnce(t.Touching(x, y), overlap(x, y));
    ToldNothing(t.Touching(x, y), overlap(x, y));
  }

  /** Events in twos, told to the two sides of one of the pairs `ps`, the first side of the pair first. */
  ghost predicate InTwos<T>(es: seq<Event<T>>, ps: seq<(T, T)>) {
    es == [] ||
    (&& |es| >= 2 && es[1].at == es[0].other && es[1].other == es[0].at && KindOf(es[0]) == KindOf(es[1])
     && (es[0].at, es[0].other) in ps && InTwos(es[2..], ps))
  }

  lemma {:induction false} InTwosConcat<T>(ds: seq<Event<T>>, es: seq<Event<T>>, ps: seq<(T, T)>)
    requires InTwos(ds, ps) && InTwos(es, ps)
    ensures InTwos(ds + es, ps)
  {
    if ds == [] {
      assert ds + es == es;
    } else {
      assert (ds + es)[0] == ds[0] && (ds + es)[1] == ds[1] && (ds + es)[2..] == ds[2..] + es;
      InTwosConcat(ds[2..], es, ps);
    }
  }

  lemma PairStepTwos<T>(t: Tracker<T>, src: T, dest: T, overlap: bool, ps: seq<(T, T)>) returns (es: seq<Event<T>>)
    requires (src, dest) in ps
    ensures PairStep(t, src, dest, overlap).log == t.log + es && InTwos(es, ps)
  {
    var stays := [Stay(src, dest), Stay(dest, src)];
    es := if overlap then (if t.Touching(src, dest) then [] else [Begin(src, dest), Begin(dest, src)]) + stays
          else if t.Touching(src, dest) then [End(src, dest), End(dest, src)] else [];
    if overlap && !t.Touching(src, dest) {
      assert InTwos([Begin(src, dest), Begin(dest, src)], ps);
      InTwosConcat([Begin(src, dest), Begin(dest, src)], stays, ps);
    }
  }

  lemma {:induction false} FoldTwos<T>(t: Tracker<T>, qs: seq<(T, T)>, overlap: (T, T) -> bool, ps: seq<(T, T)>)
    returns (es: seq<Event<T>>)
    requires forall q | q in qs :: q in ps
    ensures FoldPairs(t, qs, overlap).log == t.log + es && InTwos(es, ps)
    decreases |qs|
  {
    hide PairStep, InTwos;
    if qs == [] {
      es := [];
      NoTwos(ps);
    } else {
      assert qs[0] in qs;
      var t' := PairStep(t, qs[0].0, qs[0].1, overlap(qs[0].0, qs[0].1));
      var first := PairStepTwos(t, qs[0].0, qs[0].1, overlap(qs[0].0, qs[0].1), ps);
      var more := FoldTwos(t', qs[1..], overlap, ps);
      InTwosConcat(first, more, ps);
      es := first + more;
      assert t.log + first + more == t.log + (first + more);
    }
  }

  lemma NoTwos<T>(ps: seq<(T, T)>)
    ensures InTwos<T>([], ps)
  {
  }

  lemma {:induction false} PairsOrdered<T>(cs: seq<T>, x: T, y: T)
    ensures (x, y) in Pairs(cs) <==> exists i, j :: 0 <= i < j < |cs| && cs[i] == x && cs[j] == y
  {
    if cs == [] {
    } else {
      PairsOrdered(cs[1..], x, y);
      RowPairs(cs[0], cs[1..], (x, y));
      if i, j :| 0 <= i < j < |cs| && cs[i] == x && cs[j] == y && i > 0 {
        assert cs[1..][i - 1] == x && cs[1..][j - 1] == y;
      }
      if i, j :| 0 <= i < j < |cs[1..]| && cs[1..][i] == x && cs[1..][j] == y {
        assert cs[i + 1] == x && cs[j + 1] == y;
      }
      if x == cs[0] && y in cs[1..] {
        var j :| 0 <= j < |cs[1..]| && cs[1..][j] == y;
        assert cs[j + 1] == y;
      }
    }
  }

  /** Every event of an update is told to both sides one after the other, first to the one registered first. */
  lemma UpdateTellsInTwos<T>(t: Tracker<T>, overlap: (T, T) -> bool) returns (es: seq<Event<T>>)
    ensures UpdateTracker(t, overlap).log == t.log + es && InTwos(es, Pairs(t.colliders))
    ensures forall x, y | (x, y) in Pairs(t.colliders) ::
              exists i, j :: 0 <= i < j < |t.colliders| && t.colliders[i] == x && t.colliders[j] == y
  {
    es := FoldTwos(t, Pairs(t.colliders), overlap, Pairs(t.colliders));
    forall x, y | (x, y) in Pairs(t.colliders)
      ensures exists i, j :: 0 <= i < j < |t.colliders| && t.colliders[i] == x && t.colliders[j] == y
    {
      PairsOrdered(t.colliders, x, y);
    }
  }

  /** Taking a collider out of the list tells nobody anything and leaves the sets; registering it puts it
      back, at the end, with the set it had. */
  lemma UnregisterTells<T>(t: Tracker<T>, c: T, x: T, y: T)
    ensures var t' := Act(t, Unregister(c));
            && t'.log == t.log && t'.Touching(x, y) == t.Touching(x, y)
            && multiset(t'.colliders) == multiset(t.colliders)[c := 0]
    ensures var t' := Act(t, Register(c));
            && t'.log == t.log && t'.Touching(x, y) == t.Touching(x, y) && t'.colliders == t.colliders + [c]
  {
    WithoutCounts(t.colliders, c);
  }
}
