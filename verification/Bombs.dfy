/** The fuse of the server's water bombs, as a value.  The room's explosion is arbitrary code that may
    come back to this or any other bomb, so what it does is a tree of calls: a `Script`. */
module Bombs {
  import opened Lifecycle

  const EXPLOSION_TIME: real := 2.0

  datatype Fuse = Fuse(timer: real, exploded: bool, dead: bool)

  /** `Updated` is a call of `Update`; `Timed` and `Chained` are calls of the room's explosion, from
      `Update` or because another explosion reached the bomb. */
  datatype Entry<B> = Updated(b: B) | Timed(b: B) | Chained(b: B)

  datatype Call<B> = Update(b: B) | Reach(b: B)

  /** `call` comes first; if it makes the bomb explode, the room's explosion of it does `during`. */
  datatype Script<B> = Done | Then(call: Call<B>, during: Script<B>, next: Script<B>)

  datatype Fuses<B(==)> = Fuses(bombs: map<B, Fuse>, trace: seq<Entry<B>>) {
    function Times(e: Entry<B>): nat { multiset(trace)[e] }
  }

  /** The bomb with its flag set, and the room called. */
  function Lit<B(==)>(w: Fuses<B>, e: Entry<B>): Fuses<B>
    requires e.b in w.bombs
  {
    Fuses(w.bombs[e.b := w.bombs[e.b].(exploded := true)], w.trace + [e])
  }

  /** An update that advances the timer. */
  function Ticked<B(==)>(w: Fuses<B>, b: B): Fuses<B>
    requires b in w.bombs
  {
    Fuses(w.bombs[b := w.bombs[b].(timer := w.bombs[b].timer + TICK)], w.trace + [Updated(b)])
  }

  /** `Explode`: the flag is set before the room is called, which does `during`. */
  function Explode<B(==)>(w: Fuses<B>, e: Entry<B>, during: Script<B>): Fuses<B>
    requires e.b in w.bombs
    ensures Explode(w, e, during).bombs.Keys == w.bombs.Keys
    decreases during, 1
  {
    var w2 := Play(Lit(w, e), during);
    w2.(bombs := w2.bombs[e.b := w2.bombs[e.b].(dead := true)])
  }

  function UpdateBomb<B(==)>(w: Fuses<B>, b: B, during: Script<B>): Fuses<B>
    requires b in w.bombs
    ensures UpdateBomb(w, b, during).bombs.Keys == w.bombs.Keys
    decreases during, 2
  {
    if w.bombs[b].exploded then w.(trace := w.trace + [Updated(b)])
    else if w.bombs[b].timer + TICK < EXPLOSION_TIME then Ticked(w, b)
    else Explode(Ticked(w, b), Timed(b), during)
  }

  /** One call; an explosion reaches only bombs that have not exploded. */
  function Answer<B(==)>(w: Fuses<B>, call: Call<B>, during: Script<B>): Fuses<B>
    ensures Answer(w, call, during).bombs.Keys == w.bombs.Keys
    decreases during, 3
  {
    if call.b !in w.bombs then w
    else match call
      case Update(b) => UpdateBomb(w, b, during)
      case Reach(b) => if w.bombs[b].exploded then w else Explode(w, Chained(b), during)
  }

  /** Any calls, nested in any way. */
  function Play<B(==)>(w: Fuses<B>, s: Script<B>): Fuses<B>
    ensures Play(w, s).bombs.Keys == w.bombs.Keys
    decreases s, 0
  {
    match s
    case Done => w
    case Then(call, during, next) => Play(Answer(w, call, during), next)
  }

  /** `t` after everything in `s`. */
  function Before<B>(s: Script<B>, t: Script<B>): Script<B> {
    match s
    case Done => t
    case Then(call, during, next) => Then(call, during, Before(next, t))
  }

  /** Calls are played one after the other, and one call alone is that call. */
  lemma {:induction false} PlayBefore<B>(w: Fuses<B>, s: Script<B>, t: Script<B>, call: Call<B>, during: Script<B>)
    ensures Play(w, Before(s, t)) == Play(Play(w, s), t)
    ensures Play(w, Then(call, during, Done)) == Answer(w, call, during)
    decreases s
  {
    match s
    case Done =>
    case Then(first, inside, next) => PlayBefore(Answer(w, first, inside), next, t, call, during);
  }

  //
  // One explosion, at the sixtieth update
  //

  /** The flag is set exactly when the room was called, once; until then the timer counts the updates, of
      which there are fewer than 60. */
  ghost predicate Counts<B>(w: Fuses<B>, b: B) {
    && b in w.bombs
    && w.Times(Timed(b)) + w.Times(Chained(b)) == (if w.bombs[b].exploded then 1 else 0)
    && (!w.bombs[b].exploded ==>
          w.Times(Updated(b)) < 60 && w.bombs[b].timer == w.Times(Updated(b)) as real * TICK)
    && (w.Times(Timed(b)) > 0 ==> w.Times(Updated(b)) >= 60)
  }

  /** When the timer of a bomb sets it off, the update just begun is its sixtieth. */
  ghost predicate AtSixtieth<B>(trace: seq<Entry<B>>, b: B) {
    forall k | 0 <= k < |trace| && trace[k] == Timed(b) ::
      k > 0 && trace[k - 1] == Updated(b) && multiset(trace[..k])[Updated(b)] == 60
  }

  lemma AtSixtiethAppend<B>(trace: seq<Entry<B>>, e: Entry<B>, b: B)
    requires AtSixtieth(trace, b)
    requires e == Timed(b) ==> trace != [] && trace[|trace| - 1] == Updated(b) && multiset(trace)[Updated(b)] == 60
    ensures AtSixtieth(trace + [e], b)
  {
    var t := trace + [e];
    forall k | 0 <= k < |t| && t[k] == Timed(b)
      ensures k > 0 && t[k - 1] == Updated(b) && multiset(t[..k])[Updated(b)] == 60
    {
      assert t[..k] == trace[..k];
      assert trace[..|trace|] == trace;
    }
  }

  ghost predicate Burns<B>(w: Fuses<B>, b: B) { Counts(w, b) && AtSixtieth(w.trace, b) }

  lemma {:induction false} ExplodeBurns<B>(w: Fuses<B>, e: Entry<B>, during: Script<B>, b: B)
    requires e.b in w.bombs
    requires Burns(Lit(w, e), b)
    ensures Burns(Explode(w, e, during), b)
    decreases during, 1
  {
    PlayBurns(Lit(w, e), during, b);
  }

  lemma SixtyTicks(n: nat)
    ensures n as real * TICK + TICK == (n + 1) as real * TICK
    ensures n as real * TICK + TICK >= EXPLOSION_TIME <==> n >= 59
  {
  }

  /** An update that lets the bomb burn on. */
  lemma TickCounts<B>(w: Fuses<B>, u: B, b: B)
    requires u in w.bombs && Counts(w, b) && !w.bombs[u].exploded && w.bombs[u].timer + TICK < EXPLOSION_TIME
    ensures Counts(Ticked(w, u), b)
  {
    SixtyTicks(w.Times(Updated(b)));
  }

  /** The update that sets the bomb off. */
  lemma LastTickCounts<B>(w: Fuses<B>, u: B, b: B)
    requires u in w.bombs && Counts(w, b) && !w.bombs[u].exploded && w.bombs[u].timer + TICK >= EXPLOSION_TIME
    ensures Counts(Lit(Ticked(w, u), Timed(u)), b)
    ensures u == b ==> multiset(w.trace + [Updated(u)])[Updated(b)] == 60
  {
    SixtyTicks(w.Times(Updated(b)));
  }

  lemma {:induction false} UpdateBurns<B>(w: Fuses<B>, u: B, during: Script<B>, b: B)
    requires u in w.bombs && Burns(w, b)
    ensures Burns(UpdateBomb(w, u, during), b)
    decreases during, 2
  {
    hide AtSixtieth, Counts, TICK, EXPLOSION_TIME, Explode;
    var trace := w.trace + [Updated(u)];
    AtSixtiethAppend(w.trace, Updated(u), b);
    if w.bombs[u].exploded {
      SpentCounts(w, u, b);
    } else if w.bombs[u].timer + TICK < EXPLOSION_TIME {
      TickCounts(w, u, b);
    } else {
      LastTickCounts(w, u, b);
      AtSixtiethAppend(trace, Timed(u), b);
      ExplodeBurns(Ticked(w, u), Timed(u), during, b);
    }
  }

  lemma SpentCounts<B>(w: Fuses<B>, u: B, b: B)
    requires u in w.bombs && Counts(w, b) && w.bombs[u].exploded
    ensures Counts(w.(trace := w.trace + [Updated(u)]), b)
  {
  }

  lemma {:induction false} AnswerBurns<B>(w: Fuses<B>, call: Call<B>, during: Script<B>, b: B)
    requires Burns(w, b)
    ensures Burns(Answer(w, call, during), b)
    decreases during, 3
  {
    hide AtSixtieth, UpdateBomb, Explode;
    if call.b in w.bombs {
      match call
      case Update(u) => UpdateBurns(w, u, during, b);
      case Reach(u) =>
        AtSixtiethAppend(w.trace, Chained(u), b);
        if !w.bombs[u].exploded { ExplodeBurns(w, Chained(u), during, b); }
    }
  }

  lemma {:induction false} PlayBurns<B>(w: Fuses<B>, s: Script<B>, b: B)
    requires Burns(w, b)
    ensures Burns(Play(w, s), b)
    decreases s, 0
  {
    match s
    case Done =>
    case Then(call, during, next) =>
      AnswerBurns(w, call, during, b);
      PlayBurns(Answer(w, call, during), next, b);
  }

  /** No explosion of another bomb reaches `b`. */
  predicate Unreached<B(==)>(s: Script<B>, b: B) {
    match s
    case Done => true
    case Then(call, during, next) => call != Reach(b) && Unreached(during, b) && Unreached(next, b)
  }

  lemma {:induction false} UnreachedExplode<B>(w: Fuses<B>, e: Entry<B>, during: Script<B>, b: B)
    requires e.b in w.bombs && e != Chained(b) && Unreached(during, b)
    ensures Explode(w, e, during).Times(Chained(b)) == w.Times(Chained(b))
    decreases during, 1
  {
    UnreachedPlay(Lit(w, e), during, b);
  }

  lemma {:induction false} UnreachedAnswer<B>(w: Fuses<B>, call: Call<B>, during: Script<B>, b: B)
    requires call != Reach(b) && Unreached(during, b)
    ensures Answer(w, call, during).Times(Chained(b)) == w.Times(Chained(b))
    decreases during, 3
  {
    if call.b in w.bombs {
      match call
      case Update(u) =>
        UnreachedExplode(Ticked(w, u), Timed(u), during, b);
        assert Ticked(w, u).Times(Chained(b)) == w.Times(Chained(b));
        assert w.(trace := w.trace + [Updated(u)]).Times(Chained(b)) == w.Times(Chained(b));
      case Reach(u) => UnreachedExplode(w, Chained(u), during, b);
    }
  }

  lemma {:induction false} UnreachedPlay<B>(w: Fuses<B>, s: Script<B>, b: B)
    requires Unreached(s, b)
    ensures Play(w, s).Times(Chained(b)) == w.Times(Chained(b))
    decreases s, 0
  {
    match s
    case Done =>
    case Then(call, during, next) =>
      UnreachedAnswer(w, call, during, b);
      UnreachedPlay(Answer(w, call, during), next, b);
  }

  //
  // The trace
  //

  lemma {:induction false} ExplodeTraces<B>(w: Fuses<B>, e: Entry<B>, during: Script<B>)
    requires e.b in w.bombs
    ensures w.trace + [e] <= Explode(w, e, during).trace
    decreases during, 1
  {
    PlayTraces(Lit(w, e), during);
  }

  /** Every update is entered first, one of a bomb that has exploded too; if it sets the bomb off, the call of
      the room is next. */
  lemma {:induction false} AnswerTraces<B>(w: Fuses<B>, call: Call<B>, during: Script<B>)
    ensures w.trace <= Answer(w, call, during).trace
    ensures call.Update? && call.b in w.bombs ==> w.trace + [Updated(call.b)] <= Answer(w, call, during).trace
    ensures call.Update? && call.b in w.bombs && !w.bombs[call.b].exploded
            && w.bombs[call.b].timer + TICK >= EXPLOSION_TIME ==>
              w.trace + [Updated(call.b), Timed(call.b)] <= Answer(w, call, during).trace
    decreases during, 3
  {
    if call.b in w.bombs {
      match call
      case Update(u) =>
        ExplodeTraces(Ticked(w, u), Timed(u), during);
        assert w.trace + [Updated(u)] + [Timed(u)] == w.trace + [Updated(u), Timed(u)];
      case Reach(u) => ExplodeTraces(w, Chained(u), during);
    }
  }

  /** What is entered stays. */
  lemma {:induction false} PlayTraces<B>(w: Fuses<B>, s: Script<B>)
    ensures w.trace <= Play(w, s).trace
    decreases s, 0
  {
    match s
    case Done =>
    case Then(call, during, next) =>
      AnswerTraces(w, call, during);
      PlayTraces(Answer(w, call, during), next);
  }

  //
  // Destruction
  //

  lemma {:induction false} ExplodeSpares<B>(w: Fuses<B>, e: Entry<B>, during: Script<B>, b: B)
    requires e.b in w.bombs && b in w.bombs && w.bombs[b].exploded && b != e.b
    ensures Explode(w, e, during).bombs[b] == w.bombs[b]
    decreases during, 1
  {
    PlaySpares(Lit(w, e), during, b);
  }

  lemma {:induction false} AnswerSpares<B>(w: Fuses<B>, call: Call<B>, during: Script<B>, b: B)
    requires b in w.bombs && w.bombs[b].exploded
    ensures Answer(w, call, during).bombs[b] == w.bombs[b]
    decreases during, 3
  {
    if call.b in w.bombs && call.b != b {
      match call
      case Update(u) => ExplodeSpares(Ticked(w, u), Timed(u), during, b);
      case Reach(u) => ExplodeSpares(w, Chained(u), during, b);
    }
  }

  /** Nothing that happens changes a bomb that has exploded. */
  lemma {:induction false} PlaySpares<B>(w: Fuses<B>, s: Script<B>, b: B)
    requires b in w.bombs && w.bombs[b].exploded
    ensures Play(w, s).bombs[b] == w.bombs[b]
    decreases s, 0
  {
    match s
    case Done =>
    case Then(call, during, next) =>
      AnswerSpares(w, call, during, b);
      PlaySpares(Answer(w, call, during), next, b);
  }

  /** Whatever happens inside an explosion, the bomb ends exploded and destroyed, its timer as it was. */
  lemma ExplodeEffect<B>(w: Fuses<B>, e: Entry<B>, during: Script<B>)
    requires e.b in w.bombs
    ensures Explode(w, e, during).bombs[e.b] == w.bombs[e.b].(exploded := true, dead := true)
  {
    PlaySpares(Lit(w, e), during, e.b);
  }

  /** What one call does to its bomb, whatever happens inside it: a bomb that has exploded is left alone,
      an update adds a tick, and two seconds or another explosion leave the bomb exploded and destroyed. */
  lemma AnswerEffect<B>(w: Fuses<B>, call: Call<B>, during: Script<B>)
    requires call.b in w.bombs
    ensures var f := w.bombs[call.b];
            Answer(w, call, during).bombs[call.b] ==
            if f.exploded then f
            else if call.Reach? then Fuse(f.timer, true, true)
            else if f.timer + TICK < EXPLOSION_TIME then Fuse(f.timer + TICK, false, f.dead)
            else Fuse(f.timer + TICK, true, true)
  {
    hide Explode;
    match call
    case Update(u) => ExplodeEffect(Ticked(w, u), Timed(u), during);
    case Reach(u) => ExplodeEffect(w, Chained(u), during);
  }

  ghost predicate Settled<B>(w: Fuses<B>, b: B) { b in w.bombs && w.bombs[b].exploded == w.bombs[b].dead }

  lemma {:induction false} ExplodeSettles<B>(w: Fuses<B>, e: Entry<B>, during: Script<B>, b: B)
    requires e.b in w.bombs && Settled(w, b)
    ensures Settled(Explode(w, e, during), b)
    decreases during, 1
  {
    if b == e.b { ExplodeEffect(w, e, during); } else { PlaySettles(Lit(w, e), during, b); }
  }

  /** Once every explosion is over, a bomb is destroyed exactly when it has exploded. */
  lemma {:induction false} PlaySettles<B>(w: Fuses<B>, s: Script<B>, b: B)
    requires Settled(w, b)
    ensures Settled(Play(w, s), b)
    decreases s, 0
  {
    match s
    case Done =>
    case Then(call, during, next) =>
      AnswerSettles(w, call, during, b);
      PlaySettles(Answer(w, call, during), next, b);
  }

  lemma {:induction false} AnswerSettles<B>(w: Fuses<B>, call: Call<B>, during: Script<B>, b: B)
    requires Settled(w, b)
    ensures Settled(Answer(w, call, during), b)
    decreases during, 3
  {
    if call.b in w.bombs {
      match call
      case Update(u) => ExplodeSettles(Ticked(w, u), Timed(u), during, b);
      case Reach(u) => ExplodeSettles(w, Chained(u), during, b);
    }
  }

  /** A new bomb driven in any way calls the room's explosion at most once.  Driven by updates alone it
      does so exactly if it got 60, and in the sixtieth, however explosions come back to it.  It is destroyed
      exactly if it exploded. */
  lemma ExplodesOnceAtSixtieth<B>(w: Fuses<B>, s: Script<B>, b: B)
    requires b in w.bombs && w.bombs[b] == Fuse(0.0, false, false) && forall e | e in w.trace :: e.b != b
    ensures var w' := Play(w, s);
            && w'.Times(Timed(b)) + w'.Times(Chained(b)) <= 1
            && (Unreached(s, b) ==> w'.Times(Chained(b)) == 0
                                    && w'.Times(Timed(b)) == if w'.Times(Updated(b)) >= 60 then 1 else 0)
            && AtSixtieth(w'.trace, b)
            && w'.bombs[b].exploded == w'.bombs[b].dead == (w'.Times(Timed(b)) + w'.Times(Chained(b)) == 1)
  {
    assert Burns(w, b);
    PlayBurns(w, s, b);
    PlaySettles(w, s, b);
    if Unreached(s, b) { UnreachedPlay(w, s, b); }
  }
}
