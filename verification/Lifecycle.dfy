/** The life cycle of players: NORMAL, TRAPPED, DEAD and ESCAPE, with timers in exact seconds.

    `World` is the state of all players as a value and `Do` one step of it: an update of one player, or
    one of the things the rest of the server does to a player.  `ServerObjects` proves the classes
    against these functions. */
module Lifecycle {
  import opened Geometry

  const TICK: real := 1.0 / 30.0
  const DEAD_TIME: real := 3.0
  const ESCAPE_TIME: real := 1.0

  datatype MainState = NORMAL | TRAPPED | DEAD | ESCAPE

  /** `alive` is false once nobody owns the player any more and weak references to it are expired. */
  datatype Life = Life(alive: bool, main: MainState, moving: bool, pos: Pos, trapTimer: real, escapeTimer: real) {
    function Area(): Rect { Around(pos, PLAYER_SIZE) }
  }

  /** What a broadcast tells of a player's state: an `S_MainState`, or the `S_OtherPlayers` that
      introduces the player. */
  datatype Announcement<T> = Announcement(player: T, state: MainState)

  datatype World<T(==)> = World(players: seq<T>, lives: map<T, Life>, log: seq<Announcement<T>>) {
    predicate Is(p: T, s: MainState) { p in lives && lives[p].main == s }
  }

  /** The life of a player after `SetMainState(s)`: entering a state again restarts no timer. */
  function Entered(l: Life, s: MainState): Life {
    if l.main == s then l
    else l.(main := s,
            trapTimer := if s == TRAPPED then 0.0 else l.trapTimer,
            escapeTimer := if s == ESCAPE then 0.0 else l.escapeTimer)
  }

  /** `SetMainState(s, true)`: nothing if `p` is in that state already. */
  function SetMainState<T(==)>(w: World<T>, p: T, s: MainState): World<T>
    requires p in w.lives
  {
    var l := w.lives[p];
    if l.main == s then w
    else w.(lives := w.lives[p := Entered(l, s)], log := w.log + [Announcement(p, s)])
  }

  /** The player that is moving ends up where the room lets it. */
  function Move<T(==)>(w: World<T>, p: T, movedTo: Pos): World<T>
    requires p in w.lives
  {
    if w.lives[p].moving then w.(lives := w.lives[p := w.lives[p].(pos := movedTo)]) else w
  }

  predicate Kills<T(==)>(w: World<T>, p: T, q: T)
    requires p in w.lives
  {
    && q in w.lives && w.lives[q].alive && q != p && w.lives[q].main == TRAPPED
    && Intersects(w.lives[p].Area(), w.lives[q].Area())
  }

  /** The loop of `CheckKillOtherPlayer` over the players `qs`. */
  function KillAll<T(==)>(w: World<T>, p: T, qs: seq<T>): World<T>
    requires p in w.lives
    decreases |qs|
  {
    if qs == [] then w
    else KillAll(if Kills(w, p, qs[0]) then SetMainState(w, qs[0], DEAD) else w, p, qs[1..])
  }

  function UpdateTrapped<T(==)>(w: World<T>, p: T, movedTo: Pos): World<T>
    requires p in w.lives
  {
    var w1 := Move(w, p, movedTo);
    var l := w1.lives[p];
    var w2 := w1.(lives := w1.lives[p := l.(trapTimer := l.trapTimer + TICK)]);
    if l.trapTimer + TICK >= DEAD_TIME then SetMainState(w2, p, DEAD) else w2
  }

  function UpdateEscape<T(==)>(w: World<T>, p: T): World<T>
    requires p in w.lives
  {
    var l := w.lives[p];
    var w1 := w.(lives := w.lives[p := l.(escapeTimer := l.escapeTimer + TICK)]);
    if l.escapeTimer + TICK >= ESCAPE_TIME then SetMainState(w1, p, NORMAL) else w1
  }

  function Update<T(==)>(w: World<T>, p: T, movedTo: Pos): World<T>
    requires p in w.lives
  {
    match w.lives[p].main
    case NORMAL => var w1 := Move(w, p, movedTo); KillAll(w1, p, w1.players)
    case TRAPPED => UpdateTrapped(w, p, movedTo)
    case DEAD => w
    case ESCAPE => UpdateEscape(w, p)
  }

  /** A player as `EnterRoom` sets it up and introduces it to everybody. */
  function Enter<T(==)>(w: World<T>, p: T): World<T> {
    w.(players := w.players + [p],
       lives := w.lives[p := Life(true, NORMAL, false, Pos(100.0, 100.0), 0.0, 0.0)],
       log := w.log + [Announcement(p, NORMAL)])
  }

  /** `Tick` is `Player::Update`.  The others are what the room does to a player: it enters for the first
      time, an explosion traps it whatever its state, a needle frees it if it is trapped, its client
      steers it, or it is released. */
  datatype Step<T> =
    | Join(p: T)
    | Tick(p: T, movedTo: Pos)
    | Trap(p: T)
    | Needle(p: T)
    | Steer(p: T, moving: bool, pos: Pos)
    | Release(p: T)

  function Do<T(==)>(w: World<T>, s: Step<T>): World<T> {
    if s.p !in w.lives then (if s.Join? then Enter(w, s.p) else w)
    else if !w.lives[s.p].alive then w
    else match s
      case Join(_) => w
      case Tick(p, movedTo) => Update(w, p, movedTo)
      case Trap(p) => SetMainState(w, p, TRAPPED)
      case Needle(p) => if w.lives[p].main == TRAPPED then SetMainState(w, p, ESCAPE) else w
      case Steer(p, moving, pos) =>
        if w.lives[p].main == DEAD then w else w.(lives := w.lives[p := w.lives[p].(moving := moving, pos := pos)])
      case Release(p) => w.(lives := w.lives[p := w.lives[p].(alive := false)])
  }

  function Run<T(==)>(w: World<T>, steps: seq<Step<T>>): World<T>
    decreases |steps|
  {
    if steps == [] then w else Run(Do(w, steps[0]), steps[1..])
  }

  lemma {:induction false} RunConcat<T>(w: World<T>, a: seq<Step<T>>, b: seq<Step<T>>)
    ensures Run(w, a + b) == Run(Run(w, a), b)
    decreases |a|
  {
    if a == [] {
      assert a + b == b;
    } else {
      assert (a + b)[0] == a[0] && (a + b)[1..] == a[1..] + b;
      RunConcat(Do(w, a[0]), a[1..], b);
    }
  }

  //
  // What one player can do to another
  //

  lemma {:induction false} KillAllKills<T>(w: World<T>, p: T, qs: seq<T>, q: T)
    requires p in w.lives && q in w.lives && w.lives[p].main != TRAPPED
    ensures var w' := KillAll(w, p, qs);
            && w'.players == w.players && w'.lives.Keys == w.lives.Keys
            && w'.lives[q] == (if q in qs && Kills(w, p, q) then w.lives[q].(main := DEAD) else w.lives[q])
    decreases |qs|
  {
    if qs == [] {
    } else {
      KillAllKills(if Kills(w, p, qs[0]) then SetMainState(w, qs[0], DEAD) else w, p, qs[1..], q);
      assert qs == [qs[0]] + qs[1..];
    }
  }

  /** A living TRAPPED player `q`, other than the one at `pos`, that is less than 32 pixels from it. */
  predicate Caught<T(==)>(w: World<T>, p: T, pos: Pos, q: T) {
    q in w.lives && w.lives[q].alive && q != p && w.lives[q].main == TRAPPED && Near(pos, w.lives[q].pos, 32)
  }

  lemma KillsIff<T>(w: World<T>, p: T, q: T)
    requires p in w.lives
    ensures Kills(w, p, q) <==> Caught(w, p, w.lives[p].pos, q)
  {
    if q in w.lives { TouchIff(w.lives[p].pos, w.lives[q].pos); }
  }

  /** The kill loop makes exactly the living TRAPPED others it goes through DEAD that are less than 32
      pixels away in both directions, and changes nobody else. */
  lemma KillAllEffect<T>(w: World<T>, p: T, qs: seq<T>, q: T)
    requires p in w.lives && q in w.lives && w.lives[p].main != TRAPPED
    ensures var w' := KillAll(w, p, qs);
            && w'.players == w.players && w'.lives.Keys == w.lives.Keys
            && w'.lives[q] ==
               if q in qs && Caught(w, p, w.lives[p].pos, q) then w.lives[q].(main := DEAD) else w.lives[q]
  {
    hide KillAll, Kills;
    KillAllKills(w, p, qs, q);
    KillsIff(w, p, q);
  }

  /** Where the update of a player leaves it: only a moving NORMAL or TRAPPED player moves. */
  function PosAfter(l: Life, movedTo: Pos): Pos {
    if l.moving && (l.main == NORMAL || l.main == TRAPPED) then movedTo else l.pos
  }

  /** Whether step `s` makes a NORMAL player touch `q`, from where the player has moved to. */
  predicate Touches<T(==)>(w: World<T>, s: Step<T>, q: T) {
    && s.Tick? && w.Is(s.p, NORMAL) && w.lives[s.p].alive
    && q in w.players && Caught(w, s.p, PosAfter(w.lives[s.p], s.movedTo), q)
  }

  lemma TickEffect<T>(w: World<T>, s: Step<T>, q: T)
    requires q in w.lives && s.Tick? && w.Is(s.p, NORMAL) && w.lives[s.p].alive
    ensures var w1 := Move(w, s.p, s.movedTo);
            && Do(w, s).players == w.players && Do(w, s).lives.Keys == w.lives.Keys
            && Do(w, s).lives[q] == if Touches(w, s, q) then w.lives[q].(main := DEAD) else w1.lives[q]
  {
    hide KillAll, Near;
    var w1 := Move(w, s.p, s.movedTo);
    KillAllEffect(w1, s.p, w1.players, q);
  }

  /** What a step does to `q`, case by case. */
  lemma StepEffect<T>(w: World<T>, s: Step<T>, q: T)
    requires q in w.lives
    ensures q in Do(w, s).lives
    ensures Touches(w, s, q) ==> Do(w, s).lives[q] == w.lives[q].(main := DEAD)
    ensures s.p != q && !Touches(w, s, q) ==> Do(w, s).lives[q] == w.lives[q]
    ensures s.Tick? && s.p == q && w.Is(q, NORMAL) ==> Do(w, s).Is(q, NORMAL)
  {
    hide KillAll, Near;
    if s.Tick? && w.Is(s.p, NORMAL) && w.lives[s.p].alive { TickEffect(w, s, q); }
  }

  /** A step moves or turns only its own player, while that exists: an update where it is moving, to where
      the room lets it, and its client unless it is DEAD.  Nothing but its release makes it cease. */
  lemma StepMoves<T>(w: World<T>, s: Step<T>, q: T)
    requires q in w.lives
    ensures q in Do(w, s).lives
    ensures var l, l' := w.lives[q], Do(w, s).lives[q];
            && l'.pos == (if s.p == q && l.alive && s.Tick? then PosAfter(l, s.movedTo)
                          else if s.p == q && l.alive && s.Steer? && l.main != DEAD then s.pos
                          else l.pos)
            && l'.moving == (if s.p == q && l.alive && s.Steer? && l.main != DEAD then s.moving else l.moving)
            && l'.alive == (l.alive && s != Release(q))
  {
    hide KillAll, Near;
    if s.Tick? && w.Is(s.p, NORMAL) && w.lives[s.p].alive { TickEffect(w, s, q); }
  }

  /** Whoever enters stands at (100, 100), NORMAL, and is listed, so that others look at it; nobody else
      appears. */
  lemma StepAdds<T>(w: World<T>, s: Step<T>, q: T)
    requires q !in w.lives
    ensures q in Do(w, s).lives <==> s == Join(q)
    ensures s == Join(q) ==>
              Do(w, s).lives[q] == Life(true, NORMAL, false, Pos(100.0, 100.0), 0.0, 0.0) && q in Do(w, s).players
    ensures Do(w, s).players == if s.Join? && s.p !in w.lives then w.players + [s.p] else w.players
  {
    hide KillAll, Near;
    if s.Tick? && w.Is(s.p, NORMAL) && w.lives[s.p].alive { TickEffect(w, s, s.p); }
  }

  ghost predicate AllListed<T>(w: World<T>) { forall q | q in w.lives :: q in w.players }

  /** Over every run, whoever is in the room is among the players that updates look at. */
  lemma {:induction false} EverybodyListed<T>(w: World<T>, steps: seq<Step<T>>)
    requires AllListed(w)
    ensures AllListed(Run(w, steps))
    decreases |steps|
  {
    if steps == [] {
    } else {
      forall q | q in Do(w, steps[0]).lives ensures q in Do(w, steps[0]).players {
        if q in w.lives { StepLists(w, steps[0]); } else { StepAdds(w, steps[0], q); }
      }
      EverybodyListed(Do(w, steps[0]), steps[1..]);
    }
  }

  lemma StepLists<T>(w: World<T>, s: Step<T>)
    ensures forall q | q in w.players :: q in Do(w, s).players
  {
    hide KillAll, Near;
    if s.Tick? && w.Is(s.p, NORMAL) && w.lives[s.p].alive { TickEffect(w, s, s.p); }
  }

  /** Only a TRAPPED player becomes DEAD. */
  lemma OnlyTrappedDie<T>(w: World<T>, s: Step<T>, q: T)
    requires q in w.lives && !w.Is(q, DEAD) && Do(w, s).Is(q, DEAD)
    ensures w.Is(q, TRAPPED)
  {
    StepEffect(w, s, q);
  }

  //
  // DEAD
  //

  ghost predicate AlwaysDead<T>(w: World<T>, steps: seq<Step<T>>, q: T)
    decreases |steps|
  {
    w.Is(q, DEAD) && (steps != [] ==> AlwaysDead(Do(w, steps[0]), steps[1..], q))
  }

  /** An explosion reaches `q` before `q` is released. */
  predicate HitBeforeRelease<T(==)>(steps: seq<Step<T>>, q: T) {
    steps != [] && (steps[0] == Trap(q) || (steps[0] != Release(q) && HitBeforeRelease(steps[1..], q)))
  }

  /** A dead player stays dead through a run exactly when it is released already or no explosion hits it
      before it is: `SetMainState(TRAPPED)` does not look at the state it leaves. */
  lemma {:induction false} DeadStaysDeadIff<T>(w: World<T>, steps: seq<Step<T>>, q: T)
    requires w.Is(q, DEAD)
    ensures AlwaysDead(w, steps, q) <==> !(w.lives[q].alive && HitBeforeRelease(steps, q))
    decreases |steps|
  {
    if steps == [] {
    } else {
      StepEffect(w, steps[0], q);
      if !(w.lives[q].alive && steps[0] == Trap(q)) { DeadStaysDeadIff(Do(w, steps[0]), steps[1..], q); }
    }
  }

  //
  // Timers
  //

  /** How often `q` is updated in a run. */
  function Ticks<T(==)>(steps: seq<Step<T>>, q: T): nat {
    if steps == [] then 0 else (if steps[0].Tick? && steps[0].p == q then 1 else 0) + Ticks(steps[1..], q)
  }

  /** Nobody frees or touches `q` during the run; explosions may well hit it again. */
  predicate LeftTrapped<T(==)>(w: World<T>, steps: seq<Step<T>>, q: T)
    decreases |steps|
  {
    steps == [] ||
    (&& steps[0] != Needle(q) && steps[0] != Release(q) && !Touches(w, steps[0], q)
     && LeftTrapped(Do(w, steps[0]), steps[1..], q))
  }

  predicate TrappedSince<T(==)>(w: World<T>, q: T, ticks: nat) {
    w.Is(q, TRAPPED) && w.lives[q].alive && w.lives[q].trapTimer == ticks as real * TICK
  }

  /** A trapped player that is left alone is trapped, with its timer counting its own updates, for as
      long as these number less than 90. */
  lemma {:induction false} TrappedCountsTicks<T>(w: World<T>, steps: seq<Step<T>>, q: T, ticks: nat)
    requires TrappedSince(w, q, ticks) && LeftTrapped(w, steps, q)
    requires ticks + Ticks(steps, q) < 90
    ensures TrappedSince(Run(w, steps), q, ticks + Ticks(steps, q))
    decreases |steps|
  {
    if steps == [] {
    } else {
      StepEffect(w, steps[0], q);
      var more := if steps[0].Tick? && steps[0].p == q then 1 else 0;
      TrappedCountsTicks(Do(w, steps[0]), steps[1..], q, ticks + more);
    }
  }

  /** A player that is trapped and then left alone dies at its 90th update from there, and not before,
      however often it is hit again meanwhile. */
  lemma TrappedDiesAtNinety<T>(w: World<T>, steps: seq<Step<T>>, q: T, movedTo: Pos)
    requires q in w.lives && w.lives[q].alive && !w.Is(q, TRAPPED) && LeftTrapped(Do(w, Trap(q)), steps, q)
    ensures Ticks(steps, q) < 90 ==> Run(w, [Trap(q)] + steps).Is(q, TRAPPED)
    ensures Ticks(steps, q) == 89 ==> Run(w, [Trap(q)] + steps + [Tick(q, movedTo)]).Is(q, DEAD)
    ensures Ticks(steps, q) == 89 ==> Run(w, [Trap(q)] + steps + [Tick(q, movedTo)]).lives[q].alive
  {
    RunFirst(w, Trap(q), steps);
    if Ticks(steps, q) < 90 { TrappedCountsTicks(Do(w, Trap(q)), steps, q, 0); }
    if Ticks(steps, q) == 89 { RunLast(w, [Trap(q)] + steps, Tick(q, movedTo)); }
  }

  lemma RunFirst<T>(w: World<T>, s: Step<T>, steps: seq<Step<T>>)
    ensures Run(w, [s] + steps) == Run(Do(w, s), steps)
  {
    assert ([s] + steps)[1..] == steps;
  }

  lemma RunLast<T>(w: World<T>, steps: seq<Step<T>>, s: Step<T>)
    ensures Run(w, steps + [s]) == Do(Run(w, steps), s)
  {
    RunConcat(w, steps, [s]);
    assert Run(Run(w, steps), [s]) == Do(Run(w, steps), s);
  }

  predicate LeftEscaping<T(==)>(steps: seq<Step<T>>, q: T) { Trap(q) !in steps && Release(q) !in steps }

  predicate EscapingSince<T(==)>(w: World<T>, q: T, ticks: nat) {
    w.Is(q, ESCAPE) && w.lives[q].alive && w.lives[q].escapeTimer == ticks as real * TICK
  }

  lemma {:induction false} EscapeCountsTicks<T>(w: World<T>, steps: seq<Step<T>>, q: T, ticks: nat)
    requires EscapingSince(w, q, ticks) && LeftEscaping(steps, q)
    requires ticks + Ticks(steps, q) < 30
    ensures EscapingSince(Run(w, steps), q, ticks + Ticks(steps, q))
    decreases |steps|
  {
    if steps == [] {
    } else {
      assert steps[0] in steps && forall s | s in steps[1..] :: s in steps;
      StepEffect(w, steps[0], q);
      var more := if steps[0].Tick? && steps[0].p == q then 1 else 0;
      EscapeCountsTicks(Do(w, steps[0]), steps[1..], q, ticks + more);
    }
  }

  /** From the needle on, ESCAPE lasts exactly 30 updates; other players cannot cut it short. */
  lemma EscapeEndsAtThirty<T>(w: World<T>, steps: seq<Step<T>>, q: T, movedTo: Pos)
    requires w.Is(q, TRAPPED) && w.lives[q].alive && LeftEscaping(steps, q)
    ensures Ticks(steps, q) < 30 ==> Run(w, [Needle(q)] + steps).Is(q, ESCAPE)
    ensures Ticks(steps, q) == 29 ==> Run(w, [Needle(q)] + steps + [Tick(q, movedTo)]).Is(q, NORMAL)
  {
    RunFirst(w, Needle(q), steps);
    if Ticks(steps, q) < 30 { EscapeCountsTicks(Do(w, Needle(q)), steps, q, 0); }
    if Ticks(steps, q) == 29 { RunLast(w, [Needle(q)] + steps, Tick(q, movedTo)); }
  }

  predicate CountsTo(timer: real, n: nat) { timer == n as real * TICK }

  /** The timer of the state a player is in counts whole updates, and fewer than end that state. */
  ghost predicate TimerOk(l: Life) {
    && (l.main == TRAPPED ==> exists n: nat :: n < 90 && CountsTo(l.trapTimer, n))
    && (l.main == ESCAPE ==> exists n: nat :: n < 30 && CountsTo(l.escapeTimer, n))
  }

  lemma CountsOneMore(timer: real, n: nat)
    requires CountsTo(timer, n)
    ensures CountsTo(timer + TICK, n + 1)
    ensures timer + TICK >= DEAD_TIME <==> n >= 89
    ensures timer + TICK >= ESCAPE_TIME <==> n >= 29
  {
  }

  /** The state diagram: a step takes `q` to TRAPPED exactly when an explosion hits it, to ESCAPE when a trapped
      player uses its needle, to NORMAL when its time in ESCAPE is over and to DEAD when its time in TRAPPED is,
      or when it is touched; otherwise `q` stays in its state. */
  lemma StateChanges<T>(w: World<T>, s: Step<T>, q: T)
    requires q in w.lives
    ensures q in Do(w, s).lives
    ensures var l, own := w.lives[q], s.p == q && w.lives[q].alive;
            Do(w, s).lives[q].main ==
            if own && s.Trap? then TRAPPED
            else if own && s.Needle? && l.main == TRAPPED then ESCAPE
            else if own && s.Tick? && l.main == ESCAPE && l.escapeTimer + TICK >= 1.0 then NORMAL
            else if own && s.Tick? && l.main == TRAPPED && l.trapTimer + TICK >= 3.0 then DEAD
            else if Touches(w, s, q) then DEAD
            else l.main
  {
    hide Near, KillAll;
    StepEffect(w, s, q);
    if s.Tick? && w.Is(s.p, NORMAL) && w.lives[s.p].alive { TickEffect(w, s, q); }
  }

  /** No step that leaves a player in its state restarts its timer, whatever the step asks for: only the
      player's own update advances it. */
  lemma NoTimerRestarts<T>(w: World<T>, s: Step<T>, q: T)
    requires q in w.lives
    ensures q in Do(w, s).lives
    ensures var l, l' := w.lives[q], Do(w, s).lives[q];
            var more := if s.Tick? && s.p == q && l.alive then TICK else 0.0;
            && (l.main == TRAPPED && l'.main == TRAPPED ==> l'.trapTimer == l.trapTimer + more)
            && (l.main == ESCAPE && l'.main == ESCAPE ==> l'.escapeTimer == l.escapeTimer + more)
  {
    StepEffect(w, s, q);
  }

  lemma StepKeepsTimer<T>(w: World<T>, s: Step<T>, q: T)
    requires q in w.lives ==> TimerOk(w.lives[q])
    ensures q in Do(w, s).lives ==> TimerOk(Do(w, s).lives[q])
  {
    assert CountsTo(0.0, 0);
    if q in w.lives {
      StepEffect(w, s, q);
      if w.Is(q, TRAPPED) {
        var n: nat :| n < 90 && CountsTo(w.lives[q].trapTimer, n);
        CountsOneMore(w.lives[q].trapTimer, n);
      } else if w.Is(q, ESCAPE) {
        var n: nat :| n < 30 && CountsTo(w.lives[q].escapeTimer, n);
        CountsOneMore(w.lives[q].escapeTimer, n);
      }
    } else {
      StepAdds(w, s, q);
    }
  }

  /** Over every run: no player is TRAPPED for 90 updates or in ESCAPE for 30. */
  lemma {:induction false} TimersStayConsistent<T>(w: World<T>, steps: seq<Step<T>>, q: T)
    requires q in w.lives ==> TimerOk(w.lives[q])
    ensures q in Run(w, steps).lives ==> TimerOk(Run(w, steps).lives[q])
    decreases |steps|
  {
    if steps == [] {
    } else {
      StepKeepsTimer(w, steps[0], q);
      TimersStayConsistent(Do(w, steps[0]), steps[1..], q);
    }
  }

  /** A run that shows that DEAD is left again: a player enters, is trapped, is updated 90 times and is
      hit once more. */
  lemma DeadPlayerRevived<T>(p: T, at: Pos)
    ensures var dying := [Join(p), Trap(p)] + seq(89, i => Tick(p, at)) + [Tick(p, at)];
            && Run(World([], map[], []), dying).Is(p, DEAD)
            && Run(World([], map[], []), dying + [Trap(p)]).Is(p, TRAPPED)
  {
    var nobody, ticks := World([], map[], []), seq(89, i => Tick(p, at));
    var w := Do(nobody, Join(p));
    OwnTicks(Do(w, Trap(p)), p, at, 0, 89);
    TrappedDiesAtNinety(w, ticks, p, at);
    RunFirst(nobody, Join(p), [Trap(p)] + ticks + [Tick(p, at)]);
    var dying := [Join(p), Trap(p)] + ticks + [Tick(p, at)];
    assert dying == [Join(p)] + ([Trap(p)] + ticks + [Tick(p, at)]);
    RunLast(nobody, dying, Trap(p));
  }

  lemma {:induction false} OwnTicks<T>(w: World<T>, p: T, at: Pos, ticks: nat, n: nat)
    requires TrappedSince(w, p, ticks) && ticks + n < 90
    ensures LeftTrapped(w, seq(n, i => Tick(p, at)), p) && Ticks(seq(n, i => Tick(p, at)), p) == n
    decreases n
  {
    if n == 0 {
    } else {
      var steps := seq(n, i => Tick(p, at));
      assert steps[1..] == seq(n - 1, i => Tick(p, at));
      StepEffect(w, steps[0], p);
      OwnTicks(Do(w, steps[0]), p, at, ticks + 1, n - 1);
    }
  }

  //
  // Announcements
  //

  function Mains<T(==)>(w: World<T>): map<T, MainState> { map p | p in w.lives :: w.lives[p].main }

  /** The states somebody knows who knew `known` and heard `log`. */
  function Replay<T(==)>(known: map<T, MainState>, log: seq<Announcement<T>>): map<T, MainState>
    decreases |log|
  {
    if log == [] then known else Replay(known[log[0].player := log[0].state], log[1..])
  }

  /** No announcement tells what was already known. */
  predicate NoRepeats<T(==)>(known: map<T, MainState>, log: seq<Announcement<T>>)
    decreases |log|
  {
    log == [] ||
    (&& !(log[0].player in known && known[log[0].player] == log[0].state)
     && NoRepeats(known[log[0].player := log[0].state], log[1..]))
  }

  lemma {:induction false} ReplayConcat<T>(known: map<T, MainState>, a: seq<Announcement<T>>, b: seq<Announcement<T>>)
    ensures Replay(known, a + b) == Replay(Replay(known, a), b)
    ensures NoRepeats(known, a + b) <==> NoRepeats(known, a) && NoRepeats(Replay(known, a), b)
    decreases |a|
  {
    if a == [] {
      assert a + b == b;
    } else {
      assert (a + b)[0] == a[0] && (a + b)[1..] == a[1..] + b;
      ReplayConcat(known[a[0].player := a[0].state], a[1..], b);
    }
  }

  /** The announcements between two worlds are the new part of the log, they tell nothing known, and
      replaying them leads from the states of the one to those of the other. */
  ghost predicate Announced<T>(w: World<T>, w': World<T>) {
    && |w.log| <= |w'.log| && w'.log[..|w.log|] == w.log
    && Replay(Mains(w), w'.log[|w.log|..]) == Mains(w')
    && NoRepeats(Mains(w), w'.log[|w.log|..])
  }

  lemma AnnouncedThen<T>(w: World<T>, w1: World<T>, w2: World<T>)
    requires Announced(w, w1) && Announced(w1, w2)
    ensures Announced(w, w2)
  {
    var a, b := w1.log[|w.log|..], w2.log[|w1.log|..];
    ReplayConcat(Mains(w), a, b);
    assert w2.log[|w.log|..] == a + b by { assert w2.log == w1.log + b && w1.log == w.log + a; }
    assert w2.log[..|w.log|] == w2.log[..|w1.log|][..|w.log|];
  }

  lemma NothingAnnounced<T>(w: World<T>, w': World<T>)
    requires w'.log == w.log && Mains(w') == Mains(w)
    ensures Announced(w, w')
  {
    assert w'.log[|w.log|..] == [];
  }

  lemma SetMainStateAnnounced<T>(w: World<T>, p: T, s: MainState)
    requires p in w.lives
    ensures Announced(w, SetMainState(w, p, s))
  {
    var w' := SetMainState(w, p, s);
    if w.lives[p].main == s {
      NothingAnnounced(w, w');
    } else {
      assert w'.log[|w.log|..] == [Announcement(p, s)];
      assert Mains(w') == Mains(w)[p := s];
    }
  }

  lemma {:induction false} KillAllAnnounced<T>(w: World<T>, p: T, qs: seq<T>)
    requires p in w.lives
    ensures Announced(w, KillAll(w, p, qs))
    decreases |qs|
  {
    if qs == [] {
      NothingAnnounced(w, w);
    } else {
      var w1 := if Kills(w, p, qs[0]) then SetMainState(w, qs[0], DEAD) else w;
      if Kills(w, p, qs[0]) { SetMainStateAnnounced(w, qs[0], DEAD); } else { NothingAnnounced(w, w); }
      KillAllAnnounced(w1, p, qs[1..]);
      AnnouncedThen(w, w1, KillAll(w1, p, qs[1..]));
    }
  }

  /** Changing only position, movement or timers announces nothing. */
  lemma SameMains<T>(w: World<T>, p: T, l: Life)
    requires p in w.lives && l.main == w.lives[p].main
    ensures Announced(w, w.(lives := w.lives[p := l]))
  {
    NothingAnnounced(w, w.(lives := w.lives[p := l]));
  }

  lemma MoveAnnounced<T>(w: World<T>, p: T, movedTo: Pos)
    requires p in w.lives
    ensures Announced(w, Move(w, p, movedTo))
  {
    if w.lives[p].moving { SameMains(w, p, w.lives[p].(pos := movedTo)); } else { NothingAnnounced(w, w); }
  }

  lemma UpdateTrappedAnnounced<T>(w: World<T>, p: T, movedTo: Pos)
    requires p in w.lives
    ensures Announced(w, UpdateTrapped(w, p, movedTo))
  {
    var w1 := Move(w, p, movedTo);
    var l := w1.lives[p].(trapTimer := w1.lives[p].trapTimer + TICK);
    var w2 := w1.(lives := w1.lives[p := l]);
    MoveAnnounced(w, p, movedTo);
    SameMains(w1, p, l);
    AnnouncedThen(w, w1, w2);
    SetMainStateAnnounced(w2, p, DEAD);
    AnnouncedThen(w, w2, SetMainState(w2, p, DEAD));
  }

  lemma UpdateEscapeAnnounced<T>(w: World<T>, p: T)
    requires p in w.lives
    ensures Announced(w, UpdateEscape(w, p))
  {
    var l := w.lives[p].(escapeTimer := w.lives[p].escapeTimer + TICK);
    var w1 := w.(lives := w.lives[p := l]);
    SameMains(w, p, l);
    SetMainStateAnnounced(w1, p, NORMAL);
    AnnouncedThen(w, w1, SetMainState(w1, p, NORMAL));
  }

  lemma UpdateAnnounced<T>(w: World<T>, p: T, movedTo: Pos)
    requires p in w.lives
    ensures Announced(w, Update(w, p, movedTo))
  {
    hide Announced, KillAll, UpdateTrapped, UpdateEscape;
    match w.lives[p].main
    case NORMAL =>
      var w1 := Move(w, p, movedTo);
      MoveAnnounced(w, p, movedTo);
      KillAllAnnounced(w1, p, w1.players);
      AnnouncedThen(w, w1, KillAll(w1, p, w1.players));
    case TRAPPED => UpdateTrappedAnnounced(w, p, movedTo);
    case DEAD => NothingAnnounced(w, w);
    case ESCAPE => UpdateEscapeAnnounced(w, p);
  }

  lemma EnterAnnounced<T>(w: World<T>, p: T)
    requires p !in w.lives
    ensures Announced(w, Enter(w, p))
  {
    var w' := Enter(w, p);
    assert w'.log[|w.log|..] == [Announcement(p, NORMAL)];
    assert Mains(w') == Mains(w)[p := NORMAL];
  }

  lemma DoAnnounced<T>(w: World<T>, s: Step<T>)
    ensures Announced(w, Do(w, s))
  {
    hide Announced, Update;
    NothingAnnounced(w, w);
    if s.Join? && s.p !in w.lives {
      EnterAnnounced(w, s.p);
    } else if s.p in w.lives && w.lives[s.p].alive {
      match s
      case Join(p) =>
      case Tick(p, movedTo) => UpdateAnnounced(w, p, movedTo);
      case Trap(p) => SetMainStateAnnounced(w, p, TRAPPED);
      case Needle(p) => SetMainStateAnnounced(w, p, ESCAPE);
      case Steer(p, moving, pos) => SameMains(w, p, w.lives[p].(moving := moving, pos := pos));
      case Release(p) => SameMains(w, p, w.lives[p].(alive := false));
    }
  }

  /** Over every run, replaying the broadcasts on the initial states gives every player's state, and no
      broadcast repeats the state last announced for that player. */
  lemma {:induction false} ReplayReproducesStates<T>(w: World<T>, steps: seq<Step<T>>)
    ensures Announced(w, Run(w, steps))
    decreases |steps|
  {
    if steps == [] {
      NothingAnnounced(w, w);
    } else {
      DoAnnounced(w, steps[0]);
      ReplayReproducesStates(Do(w, steps[0]), steps[1..]);
      AnnouncedThen(w, Do(w, steps[0]), Run(w, steps));
    }
  }
}
