/** The server's `Player`, the part of `WaterBomb` and `GameRoom` it works with, and the loops that edit
    their lists in place. */
module ServerObjects {
  import opened Geometry
  import opened Sequences
  import opened Lifecycle
  import Lists = OverlapLists
  import Bombs

  class WaterBomb {
    /** False once nobody owns the bomb and weak references to it are expired. */
    var alive: bool
    var pos: Pos
    var passablePlayers: seq<Player>
    var explodeTimer: real
    var exploded: bool
    var isDead: bool

    function Fuse(): Bombs.Fuse
      reads `explodeTimer, `exploded, `isDead
    {
      Bombs.Fuse(explodeTimer, exploded, isDead)
    }

    /** `during` is what the room's explosion does if this update sets the bomb off. */
    method Update(room: GameRoom, during: Bombs.Script<WaterBomb>)
      requires this in room.bombs && room.Has(during)
      modifies room.bombs`explodeTimer, room.bombs`exploded, room.bombs`isDead, room`trace
      ensures room.Fuses() == Bombs.UpdateBomb<WaterBomb>(old(room.Fuses()), this, during)
      decreases during, 2
    {
      hide Bombs.Explode;
      ghost var ticked := Bombs.Ticked<WaterBomb>(room.Fuses(), this);
      room.trace := room.trace + [Bombs.Updated(this)];
      if exploded { return; }
      explodeTimer := explodeTimer + TICK;
      assert room.Fuses() == ticked;
      if explodeTimer >= Bombs.EXPLOSION_TIME { Explode(room, during, Bombs.Timed(this)); }
    }

    method Explode(room: GameRoom, during: Bombs.Script<WaterBomb>, ghost why: Bombs.Entry<WaterBomb>)
      requires this in room.bombs && room.Has(during) && why.b == this
      modifies room.bombs`explodeTimer, room.bombs`exploded, room.bombs`isDead, room`trace
      ensures room.Fuses() == Bombs.Explode<WaterBomb>(old(room.Fuses()), why, during)
      decreases during, 1
    {
      ghost var lit := Bombs.Lit<WaterBomb>(room.Fuses(), why);
      exploded := true;
      room.trace := room.trace + [why];
      assert room.Fuses() == lit;
      room.Explode(during);
      isDead := true;
    }

    function GetRect(): Rect
      reads `pos
    {
      Around(pos, TILE_SIZE)
    }

    /** Whether some entry of the list still leads to `player`. */
    method BlocksPlayer(player: Player) returns (blocks: bool)
      ensures blocks <==> !(player.alive && player in passablePlayers)
    {
      for i := 0 to |passablePlayers|
        invariant !(player.alive && player in passablePlayers[..i])
      {
        if passablePlayers[i].alive && passablePlayers[i] == player { return false; }
      }
      return true;
    }

    method AddPassablePlayer(player: Player)
      modifies `passablePlayers
      ensures passablePlayers == old(passablePlayers) + [player]
    {
      passablePlayers := passablePlayers + [player];
    }

    /** Drops `player` and every expired entry, erasing while iterating. */
    method RemovePassablePlayer(player: Player, ghost live: set<Player>)
      requires AliveAre(passablePlayers, live)
      modifies `passablePlayers
      ensures passablePlayers == Only<Player>(old(passablePlayers), live - {player})
    {
      hide Sifting;
      ghost var all, stay := passablePlayers, live - {player};
      var i := 0;
      ghost var seen := 0;
      SiftStart<Player>(all, stay);
      while i < |passablePlayers|
        invariant Sifting<Player>(passablePlayers, i, all, seen, stay)
        decreases |all| - seen
      {
        Sift<Player>(passablePlayers, i, all, seen, stay);
        if !passablePlayers[i].alive || passablePlayers[i] == player {
          passablePlayers := Erased<Player>(passablePlayers, i);
        } else {
          i := i + 1;
        }
        seen := seen + 1;
      }
      SiftEnd<Player>(passablePlayers, i, all, seen, stay);
    }
  }

  /** The players of `ps` that still exist are those in `live`. */
  ghost predicate AliveAre(ps: seq<Player>, live: set<Player>)
    reads ps`alive
  {
    forall p | p in ps :: p in live <==> p.alive
  }

  class Player {
    const id: nat
    var alive: bool
    var mainState: MainState
    var moving: bool
    var pos: Pos
    var trapTimer: real
    var escapeTimer: real
    var overlapBombs: seq<WaterBomb>

    function Life(): Life
      reads `alive, `mainState, `moving, `pos, `trapTimer, `escapeTimer
    {
      Lifecycle.Life(alive, mainState, moving, pos, trapTimer, escapeTimer)
    }

    function GetRect(): Rect
      reads `pos
    {
      Around(pos, PLAYER_SIZE)
    }

    /** Erases the bombs that are gone or no longer under the player, telling those that remain. */
    method CheckOverlapBombs(ghost room: GameRoom)
      requires room.Valid() && this in room.everyone
      modifies `overlapBombs, overlapBombs`passablePlayers
      ensures room.Valid()
      ensures room.BombLists()
           == Lists.CheckOverlap<Player, WaterBomb>(old(room.BombLists()), this, room.Touching(this))
      ensures room.World() == old(room.World())
    {
      hide Intersects, Near, Only, GameRoom.World;
      ghost var lists := room.BombLists();
      EraseOverlapBombs(lists.livePlayers, lists.liveBombs, room.Touching(this));
    }

    /** The loop of `CheckOverlapBombs`, given the players and bombs that exist and those that meet. */
    method EraseOverlapBombs(ghost live: set<Player>, ghost liveBombs: set<WaterBomb>, ghost touching: set<WaterBomb>)
      requires forall b | b in overlapBombs ::
                 && (b in liveBombs <==> b.alive) && (b in touching <==> Near(pos, b.pos, 36))
                 && AliveAre(b.passablePlayers, live)
      modifies `overlapBombs, overlapBombs`passablePlayers
      ensures overlapBombs == Only<WaterBomb>(old(overlapBombs), liveBombs * touching)
      ensures forall b | b in old(overlapBombs) ::
                b.passablePlayers == if b in liveBombs && b !in touching
                                     then Only<Player>(old(b.passablePlayers), live - {this})
                                     else old(b.passablePlayers)
    {
      hide Intersects, Near, Sifting, Only, AliveAre, Checking;
      ghost var told := Telling(overlapBombs, liveBombs * touching, liveBombs - touching,
        map b | b in overlapBombs :: b.passablePlayers,
        map b | b in overlapBombs :: Only<Player>(b.passablePlayers, live - {this}));
      ghost var seen := 0;
      var i: nat := 0;
      CheckingStarts(told, live);
      while i < |overlapBombs|
        invariant Checking(i, seen, told, live)
        decreases |told.all| - seen
      {
        BombInList(i, seen, told, live);
        i := CheckOverlapBomb(i, overlapBombs[i], seen, told, live);
        seen := seen + 1;
      }
      CheckingEnds(i, seen, told, live);
    }

    /** The loop of `EraseOverlapBombs` about to look at the bomb in place `i`, the first `seen` bombs
        having been looked at. */
    ghost predicate Checking(i: nat, seen: nat, told: Telling, live: set<Player>)
      reads *
    {
      && Sifting<WaterBomb>(overlapBombs, i, told.all, seen, told.stay)
      && seen <= |told.all|
      && (forall b | b in told.all :: InStep(b, seen, told, live))
    }

    ghost predicate InStep(b: WaterBomb, seen: nat, told: Telling, live: set<Player>)
      requires seen <= |told.all|
      reads *
    {
      && b in told.before && b in told.after
      && b.passablePlayers == told.At(b, seen)
      && (b in told.stay <==> b.alive && Near(pos, b.pos, 36))
      && (b in told.left <==> b.alive && !Near(pos, b.pos, 36))
      && told.after[b] == Only<Player>(told.before[b], live - {this})
      && AliveAre(told.before[b], live)
    }

    lemma CheckingStarts(told: Telling, live: set<Player>)
      requires overlapBombs == told.all
      requires forall b | b in told.all ::
                 && b in told.before && b in told.after && b.passablePlayers == told.before[b]
                 && (b in told.stay <==> b.alive && Near(pos, b.pos, 36))
                 && (b in told.left <==> b.alive && !Near(pos, b.pos, 36))
                 && told.after[b] == Only<Player>(told.before[b], live - {this})
                 && AliveAre(told.before[b], live)
      ensures Checking(0, 0, told, live)
    {
      hide Intersects, Near, Sifting, Only, AliveAre;
      SiftStart<WaterBomb>(told.all, told.stay);
    }

    lemma CheckingEnds(i: nat, seen: nat, told: Telling, live: set<Player>)
      requires Checking(i, seen, told, live) && i >= |overlapBombs|
      ensures overlapBombs == Only<WaterBomb>(told.all, told.stay)
      ensures forall b | b in told.all ::
                && b in told.before && b in told.after
                && b.passablePlayers == if b in told.left then told.after[b] else told.before[b]
    {
      hide Intersects, Near, Sifting, Only, AliveAre;
      SiftEnd<WaterBomb>(overlapBombs, i, told.all, seen, told.stay);
      assert told.all[..|told.all|] == told.all;
    }

    lemma BombInList(i: nat, seen: nat, told: Telling, live: set<Player>)
      requires Checking(i, seen, told, live) && i < |overlapBombs|
      ensures seen < |told.all| && overlapBombs[i] in told.all
    {
      hide Sifting, InStep;
      Sift<WaterBomb>(overlapBombs, i, told.all, seen, told.stay);
    }

    /** One iteration: the bomb in place `i` stays, or is erased and, if it still exists, told. */
    method CheckOverlapBomb(i: nat, bomb: WaterBomb, ghost seen: nat, ghost told: Telling, ghost live: set<Player>)
      returns (next: nat)
      requires Checking(i, seen, told, live) && i < |overlapBombs| && overlapBombs[i] == bomb
      modifies `overlapBombs, bomb`passablePlayers
      ensures seen < |told.all| && Checking(next, seen + 1, told, live)
    {
      hide Intersects, Near, Sifting, Only, AliveAre, Erased;
      Sift<WaterBomb>(overlapBombs, i, told.all, seen, told.stay);
      assert InStep(bomb, seen, told, live);
      assert told.all[..seen + 1] == told.all[..seen] + [bomb];
      TouchIff(pos, bomb.pos);
      if bomb.alive && Intersects(GetRect(), bomb.GetRect()) { return i + 1; }
      if bomb.alive { TellLeft(bomb, told.before[bomb], live); }
      overlapBombs := Erased<WaterBomb>(overlapBombs, i);
      return i;
    }

    /** Tells a bomb that this player left it; telling it again changes nothing more. */
    method TellLeft(bomb: WaterBomb, ghost before: seq<Player>, ghost live: set<Player>)
      requires AliveAre(before, live)
      requires bomb.passablePlayers == before || bomb.passablePlayers == Only<Player>(before, live - {this})
      modifies bomb`passablePlayers
      ensures bomb.passablePlayers == Only<Player>(before, live - {this})
    {
      ghost var current := bomb.passablePlayers;
      bomb.RemovePassablePlayer(this, live);
      if current != before { OnlyAll<Player>(current, live - {this}); }
    }

    method SetMainState(state: MainState, broadcast: bool, room: GameRoom)
      modifies `mainState, `trapTimer, `escapeTimer, room`log
      ensures Life() == Entered(old(Life()), state)
      ensures room.log
           == old(room.log) + (if broadcast && old(mainState) != state then [Announcement(this, state)] else [])
      ensures broadcast && this in room.everyone ==>
                room.World() == Lifecycle.SetMainState(old(room.World()), this, state)
    {
      if mainState == state { return; }
      mainState := state;
      match state {
        case NORMAL =>
        case TRAPPED => trapTimer := 0.0;
        case DEAD =>
        case ESCAPE => escapeTimer := 0.0;
      }
      if broadcast { room.Broadcast(this, state); }
    }

    lemma InWorld(room: GameRoom)
      requires this in room.everyone
      ensures this in room.World().lives && room.World().lives[this] == Life()
      ensures room.World().players == room.players
    {
    }

    /** The room decides where a moving player ends up: `movedTo`. */
    method Move(movedTo: Pos, ghost room: GameRoom)
      requires this in room.everyone
      modifies `pos
      ensures moving ==> room.World() == Lifecycle.Move(old(room.World()), this, movedTo)
    {
      pos := movedTo;
    }

    /** A player that no longer exists, is this one or is not TRAPPED is passed over; the others die on
        touch. */
    method CheckKillOtherPlayer(room: GameRoom)
      requires room.Valid() && this in room.everyone
      modifies room.everyone`mainState, room.everyone`trapTimer, room.everyone`escapeTimer, room`log
      ensures room.World() == KillAll(old(room.World()), this, room.players)
      ensures room.Valid() && room.BombLists() == old(room.BombLists())
    {
      ghost var start := room.World();
      var players := room.players;
      assert players[0..] == players;
      for i := 0 to |players|
        invariant KillAll(room.World(), this, players[i..]) == KillAll(start, this, players)
      {
        var other := players[i];
        if !other.alive { continue; }
        if other.id == id { continue; }
        if other.mainState != TRAPPED { continue; }
        if Intersects(GetRect(), other.GetRect()) {
          other.SetMainState(DEAD, true, room);
        }
      }
    }

    method UpdateNormal(room: GameRoom, movedTo: Pos)
      requires room.Valid() && this in room.everyone && mainState == NORMAL
      modifies room.everyone`mainState, room.everyone`trapTimer, room.everyone`escapeTimer, room`log
      modifies `pos, `overlapBombs, overlapBombs`passablePlayers
      ensures room.World() == Lifecycle.Update(old(room.World()), this, movedTo)
      ensures room.Valid()
      ensures var lists := old(room.BombLists());
              room.BombLists()
              == if moving then Lists.CheckOverlap<Player, WaterBomb>(lists, this, room.Touching(this)) else lists
    {
      hide Lists.CheckOverlap, KillAll, GameRoom.World, GameRoom.BombLists, GameRoom.Touching, GameRoom.Valid;
      InWorld(room);
      if moving {
        Move(movedTo, room);
        CheckOverlapBombs(room);
      }
      CheckKillOtherPlayer(room);
    }

    method SetTrapTimer(seconds: real, ghost room: GameRoom)
      requires this in room.everyone
      modifies `trapTimer
      ensures trapTimer == seconds
      ensures var w := old(room.World());
              room.World() == w.(lives := w.lives[this := old(Life()).(trapTimer := seconds)])
    {
      trapTimer := seconds;
    }

    method UpdateTrapped(room: GameRoom, movedTo: Pos)
      requires this in room.everyone
      modifies `mainState, `trapTimer, `escapeTimer, `pos, room`log
      ensures room.World() == Lifecycle.UpdateTrapped(old(room.World()), this, movedTo)
    {
      hide Lifecycle.SetMainState, GameRoom.World;
      InWorld(room);
      if moving { Move(movedTo, room); }
      InWorld(room);
      SetTrapTimer(trapTimer + TICK, room);
      InWorld(room);
      if trapTimer >= DEAD_TIME { SetMainState(DEAD, true, room); }
    }

    method UpdateEscape(room: GameRoom)
      requires this in room.everyone
      modifies `mainState, `trapTimer, `escapeTimer, room`log
      ensures room.World() == Lifecycle.UpdateEscape(old(room.World()), this)
    {
      hide Lifecycle.SetMainState;
      ghost var w, l := room.World(), Life();
      escapeTimer := escapeTimer + TICK;
      assert room.World() == w.(lives := w.lives[this := l.(escapeTimer := l.escapeTimer + TICK)]);
      if escapeTimer >= ESCAPE_TIME { SetMainState(NORMAL, true, room); }
    }

    /** One update is the step `Lifecycle.Update`, and the lists change only when a NORMAL player moves. */
    method Update(room: GameRoom, movedTo: Pos)
      requires room.Valid() && this in room.everyone
      modifies room.everyone`mainState, room.everyone`trapTimer, room.everyone`escapeTimer, room`log
      modifies `pos, `overlapBombs, overlapBombs`passablePlayers
      ensures room.World() == Lifecycle.Update(old(room.World()), this, movedTo)
      ensures room.Valid()
      ensures var lists := old(room.BombLists());
              room.BombLists()
              == (if old(mainState) == NORMAL && moving
                  then Lists.CheckOverlap<Player, WaterBomb>(lists, this, room.Touching(this))
                  else lists)
    {
      hide Lists.CheckOverlap, KillAll, Lifecycle.UpdateTrapped, Lifecycle.UpdateEscape;
      match mainState {
        case NORMAL => UpdateNormal(room, movedTo);
        case TRAPPED => UpdateTrapped(room, movedTo);
        case DEAD =>
        case ESCAPE => UpdateEscape(room);
      }
    }
  }

  class GameRoom {
    var players: seq<Player>
    var log: seq<Announcement<Player>>
    /** Every player and bomb there ever was in the room. */
    ghost var everyone: set<Player>
    ghost var bombs: set<WaterBomb>

    /** Ids tell players apart, and the lists hold only what was in the room. */
    ghost predicate Valid()
      reads this, everyone`overlapBombs, bombs`passablePlayers
    {
      && (forall p | p in players :: p in everyone)
      && (forall p, q | p in everyone && q in everyone :: p.id == q.id ==> p == q)
      && (forall p | p in everyone :: forall b | b in p.overlapBombs :: b in bombs)
      && (forall b | b in bombs :: forall p | p in b.passablePlayers :: p in everyone)
    }

    ghost function World(): World<Player>
      reads `players, `log, `everyone
      reads everyone`alive, everyone`mainState, everyone`moving, everyone`pos, everyone`trapTimer, everyone`escapeTimer
    {
      Lifecycle.World(players, map p | p in everyone :: p.Life(), log)
    }

    ghost function BombLists(): Lists.Lists<Player, WaterBomb>
      reads `everyone, `bombs
      reads everyone`alive, everyone`overlapBombs, bombs`alive, bombs`passablePlayers
    {
      Lists.Lists(map p | p in everyone :: p.overlapBombs, map b | b in bombs :: b.passablePlayers,
                  set p | p in everyone && p.alive, set b | b in bombs && b.alive)
    }

    /** The bombs whose rectangle meets the player's: those less than 36 pixels away in both directions. */
    ghost function Touching(p: Player): set<WaterBomb>
      reads `bombs, bombs`pos, p`pos
    {
      set b | b in bombs && Near(p.pos, b.pos, 36)
    }

    /** The calls of `Update` on bombs and of `Explode` below, as they happen. */
    ghost var trace: seq<Bombs.Entry<WaterBomb>>

    ghost function Fuses(): Bombs.Fuses<WaterBomb>
      reads `bombs, `trace, bombs`explodeTimer, bombs`exploded, bombs`isDead
    {
      Bombs.Fuses(map b | b in bombs :: b.Fuse(), trace)
    }

    ghost predicate Has(s: Bombs.Script<WaterBomb>)
      reads `bombs
    {
      match s
      case Done => true
      case Then(call, during, next) => call.b in bombs && Has(during) && Has(next)
    }

    /** The effect of an explosion on bombs: any calls on them, nested in any way. */
    method Explode(script: Bombs.Script<WaterBomb>)
      requires Has(script)
      modifies bombs`explodeTimer, bombs`exploded, bombs`isDead, `trace
      ensures Fuses() == Bombs.Play<WaterBomb>(old(Fuses()), script)
      decreases script, 0
    {
      match script {
        case Done =>
        case Then(call, during, next) =>
          match call {
            case Update(b) => b.Update(this, during);
            case Reach(b) => if !b.exploded { b.Explode(this, during, Bombs.Chained(b)); }
          }
          Explode(next);
      }
    }

    method Broadcast(player: Player, state: MainState)
      modifies `log
      ensures log == old(log) + [Announcement(player, state)]
    {
      log := log + [Announcement(player, state)];
    }
  }

  /** A player's bombs: those that stay in its list, those it has left, and the bombs' lists before and
      after being told. */
  datatype Telling = Telling(all: seq<WaterBomb>, stay: set<WaterBomb>, left: set<WaterBomb>,
                             before: map<WaterBomb, seq<Player>>, after: map<WaterBomb, seq<Player>>)
  {
    /** The list of `b` once the first `seen` bombs have been looked at. */
    ghost function At(b: WaterBomb, seen: nat): seq<Player>
      requires seen <= |all| && b in before && b in after
    {
      if b in left && b in all[..seen] then after[b] else before[b]
    }
  }
}
