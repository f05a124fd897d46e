/** The two lists that let a player walk off a bomb it stands on: a player's overlapping bombs and a
    bomb's passable players, edited from the player's side.  `OverlapLists` is their state as a value. */
module OverlapLists {
  import opened Sequences

  datatype Lists<P(==), B(==)> = Lists(
    overlap: map<P, seq<B>>, passable: map<B, seq<P>>, livePlayers: set<P>, liveBombs: set<B>)
  {
    /** `BlocksPlayer`: no live entry of the bomb's list is `p`. */
    predicate Blocks(b: B, p: P) { !(b in passable && p in passable[b] && p in livePlayers) }

    /** A live bomb is in a live player's list exactly when the player is in the bomb's list. */
    predicate Mutual(p: P, b: B) {
      p in livePlayers && b in liveBombs ==>
      (p in overlap && b in overlap[p] <==> b in passable && p in passable[b])
    }
  }

  /** `CheckOverlapBombs` of `p`, whose area meets exactly the bombs in `touching`. */
  function CheckOverlap<P(==), B(==)>(w: Lists<P, B>, p: P, touching: set<B>): Lists<P, B>
    requires p in w.overlap
  {
    w.(overlap := w.overlap[p := Only(w.overlap[p], w.liveBombs * touching)],
       passable := map b | b in w.passable ::
         if b in w.overlap[p] && b in w.liveBombs && b !in touching then Only(w.passable[b], w.livePlayers - {p})
         else w.passable[b])
  }

  /** What happens to the lists: a player joins; a bomb is placed under some players; a moving player
      checks its bombs; a player or a bomb is released. */
  datatype Change<P, B> =
    | Join(p: P)
    | Place(b: B, under: seq<P>)
    | Check(p: P, touching: set<B>)
    | ReleasePlayer(p: P)
    | ReleaseBomb(b: B)

  /** A new object is one that was never seen. */
  predicate Allowed<P(==), B(==)>(w: Lists<P, B>, c: Change<P, B>) {
    match c
    case Join(p) => p !in w.overlap && (forall b | b in w.passable :: p !in w.passable[b])
    case Place(b, under) => b !in w.passable && (forall p | p in w.overlap :: b !in w.overlap[p])
                            && forall p | p in under :: p in w.overlap && p in w.livePlayers
    case Check(p, _) => p in w.overlap && p in w.livePlayers
    case _ => true
  }

  function Apply<P(==), B(==)>(w: Lists<P, B>, c: Change<P, B>): Lists<P, B>
    requires Allowed(w, c)
  {
    match c
    case Join(p) => w.(overlap := w.overlap[p := []], livePlayers := w.livePlayers + {p})
    case Place(b, under) =>
      w.(overlap := map p | p in w.overlap :: if p in under then w.overlap[p] + [b] else w.overlap[p],
         passable := w.passable[b := under], liveBombs := w.liveBombs + {b})
    case Check(p, touching) => CheckOverlap(w, p, touching)
    case ReleasePlayer(p) => w.(livePlayers := w.livePlayers - {p})
    case ReleaseBomb(b) => w.(liveBombs := w.liveBombs - {b})
  }

  ghost predicate AllAllowed<P, B>(w: Lists<P, B>, cs: seq<Change<P, B>>)
    decreases |cs|
  {
    cs == [] || (Allowed(w, cs[0]) && AllAllowed(Apply(w, cs[0]), cs[1..]))
  }

  function Run<P(==), B(==)>(w: Lists<P, B>, cs: seq<Change<P, B>>): Lists<P, B>
    requires AllAllowed(w, cs)
    decreases |cs|
  {
    if cs == [] then w else Run(Apply(w, cs[0]), cs[1..])
  }

  /** After a check, a live bomb is left in the player's list exactly when it was there and still meets
      the player; the lists of other players, and their entries in the bombs' lists, are as before. */
  lemma CheckEffect<P, B>(w: Lists<P, B>, p: P, touching: set<B>, q: P, b: B)
    requires p in w.overlap && w.Mutual(p, b) && w.Mutual(q, b)
    ensures var w' := CheckOverlap(w, p, touching);
            && w'.Mutual(p, b) && w'.Mutual(q, b)
            && (b in w'.overlap[p] <==> b in w.overlap[p] && b in w.liveBombs && b in touching)
            && (q != p && q in w.overlap ==> w'.overlap[q] == w.overlap[q])
            && (q != p && q in w.livePlayers && b in w.passable ==> (q in w'.passable[b] <==> q in w.passable[b]))
            && (w.Blocks(b, q) ==> w'.Blocks(b, q))
            && (p in w.livePlayers ==> Apply(w, Check(p, touching)) == w')
  {
  }

  /** A new bomb can be left by exactly the players it is placed under, each of which has it last in its list;
      nothing changes about other bombs. */
  lemma PlaceEffect<P, B>(w: Lists<P, B>, b: B, under: seq<P>, p: P, c: B)
    requires Allowed(w, Place(b, under)) && p in w.overlap
    ensures var w' := Apply(w, Place(b, under));
            && b in w'.liveBombs && (p in w.livePlayers ==> (w'.Blocks(b, p) <==> p !in under))
            && w'.overlap[p] == (if p in under then w.overlap[p] + [b] else w.overlap[p])
            && (c != b ==> (w'.Blocks(c, p) <==> w.Blocks(c, p)) && (c in w'.liveBombs <==> c in w.liveBombs))
  {
  }

  /** Whoever joins can pass no bomb that is there; whoever is released, player or bomb, is gone and leaves the
      lists as they are. */
  lemma ComeAndGo<P, B>(w: Lists<P, B>, p: P, q: P, b: B, c: B)
    requires p !in w.overlap && Allowed(w, Join(p))
    ensures var w' := Apply(w, Join(p));
            p in w'.livePlayers && p in w'.overlap && w'.overlap[p] == [] && w'.Blocks(b, p)
    ensures var w' := Apply(w, ReleasePlayer(q));
            q !in w'.livePlayers && w'.overlap == w.overlap && w'.passable == w.passable && w'.Blocks(b, q)
    ensures var w' := Apply(w, ReleaseBomb(c));
            c !in w'.liveBombs && w'.overlap == w.overlap && w'.passable == w.passable
  {
  }

  /** The two lists agree on bomb `b` for every live player. */
  predicate MutualAt<P(==), B(==)>(w: Lists<P, B>, b: B) {
    w.livePlayers <= w.overlap.Keys && forall p | p in w.overlap :: w.Mutual(p, b)
  }

  lemma ApplyMutual<P, B>(w: Lists<P, B>, c: Change<P, B>, b: B)
    requires Allowed(w, c) && MutualAt(w, b)
    ensures MutualAt(Apply(w, c), b)
  {
    if c.Check? {
      forall q | q in w.overlap ensures CheckOverlap(w, c.p, c.touching).Mutual(q, b) {
        CheckEffect(w, c.p, c.touching, q, b);
      }
    }
  }

  /** Over every run, a live bomb is in a live player's list exactly when the player is in the bomb's. */
  lemma {:induction false} ListsStayMutual<P, B>(w: Lists<P, B>, cs: seq<Change<P, B>>, b: B)
    requires AllAllowed(w, cs) && MutualAt(w, b)
    ensures MutualAt(Run(w, cs), b)
    decreases |cs|
  {
    if cs == [] {
    } else {
      ApplyMutual(w, cs[0], b);
      ListsStayMutual(Apply(w, cs[0]), cs[1..], b);
    }
  }

  lemma {:induction false} RunLast<P, B>(w: Lists<P, B>, cs: seq<Change<P, B>>, c: Change<P, B>)
    requires AllAllowed(w, cs) && Allowed(Run(w, cs), c)
    ensures AllAllowed(w, cs + [c]) && Run(w, cs + [c]) == Apply(Run(w, cs), c)
    decreases |cs|
  {
    if cs == [] {
      assert [] + [c] == [c] && [c][1..] == [];
    } else {
      assert (cs + [c])[0] == cs[0] && (cs + [c])[1..] == cs[1..] + [c];
      RunLast(Apply(w, cs[0]), cs[1..], c);
    }
  }

  /** A bomb that blocks a player goes on blocking it through any run. */
  lemma {:induction false} BlockedStaysBlocked<P, B>(w: Lists<P, B>, cs: seq<Change<P, B>>, b: B, p: P)
    requires AllAllowed(w, cs) && w.Blocks(b, p) && b in w.passable && p in w.overlap
    requires p in w.livePlayers
    ensures Run(w, cs).Blocks(b, p)
    decreases |cs|
  {
    if cs == [] {
    } else {
      var w' := Apply(w, cs[0]);
      if p in w'.livePlayers {
        BlockedStaysBlocked(w', cs[1..], b, p);
      } else {
        GoneStaysGone(w', cs[1..], b, p);
      }
    }
  }

  lemma {:induction false} GoneStaysGone<P, B>(w: Lists<P, B>, cs: seq<Change<P, B>>, b: B, p: P)
    requires AllAllowed(w, cs) && p in w.overlap && p !in w.livePlayers
    ensures Run(w, cs).Blocks(b, p)
    decreases |cs|
  {
    if cs == [] {
    } else {
      GoneStaysGone(Apply(w, cs[0]), cs[1..], b, p);
    }
  }
}
