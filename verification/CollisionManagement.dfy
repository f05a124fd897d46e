/** `CollisionManager` and the colliders whose sets it edits in place. */
module CollisionManagement {
  import opened Sequences
  import opened Collision

  class Collider {
    var collisionMap: set<Collider>

    constructor ()
      ensures collisionMap == {}
    {
      collisionMap := {};
    }
  }

  class CollisionManager {
    var colliders: seq<Collider>

    /** What the owners were told, in order. */
    var log: seq<Event<Collider>>

    /** Every collider that was ever registered. */
    ghost var known: set<Collider>

    ghost predicate Valid()
      reads this
    {
      forall c | c in colliders :: c in known
    }

    ghost function Sets(): map<Collider, set<Collider>>
      reads this, known
    {
      map c | c in known :: c.collisionMap
    }

    ghost function Abstract(): Tracker<Collider>
      reads this, known
    {
      Tracker(colliders, Sets(), log)
    }

    constructor ()
      ensures Valid() && Abstract() == Fresh()
    {
      colliders, log, known := [], [], {};
    }

    /** A collider that was never registered has an empty set: only the manager edits it. */
    method RegisterCollider(collider: Collider)
      requires Valid() && (collider in known || collider.collisionMap == {})
      modifies this
      ensures Valid() && known == old(known) + {collider}
      ensures Abstract() == Act(old(Abstract()), Register(collider))
    {
      colliders := colliders + [collider];
      known := known + {collider};
    }

    /** `std::remove` and `erase`: every occurrence goes, the order of the others stays. */
    method UnregisterCollider(collider: Collider)
      requires Valid()
      modifies `colliders
      ensures Valid() && known == old(known)
      ensures Abstract() == Act(old(Abstract()), Unregister(collider))
    {
      hide Copying, Without;
      ghost var all := colliders;
      var kept: seq<Collider> := [];
      CopyStart<Collider>(all, collider);
      for i := 0 to |colliders|
        invariant colliders == all && Copying<Collider>(kept, all, i, collider)
        invariant forall c | c in kept :: c in known
      {
        Copy<Collider>(kept, all, i, collider);
        if colliders[i] != collider { kept := kept + [colliders[i]]; }
      }
      CopyEnd<Collider>(kept, all, collider);
      colliders := kept;
    }

    /** The nested pair loop. */
    method Update(overlap: (Collider, Collider) -> bool)
      requires Valid()
      modifies `log, known`collisionMap
      ensures Valid() && known == old(known)
      ensures Abstract() == Act(old(Abstract()), Collision.Update(overlap))
    {
      hide PairStep;
      ghost var t := UpdateTracker(Abstract(), overlap);
      var i := 0;
      while i < |colliders|
        invariant 0 <= i <= |colliders|
        invariant FoldPairs(Abstract(), Pairs(colliders[i..]), overlap) == t
      {
        assert colliders[i..][1..] == colliders[i + 1..];
        FoldPairsConcat(Abstract(), Row(colliders[i], colliders[i + 1..]), Pairs(colliders[i + 1..]), overlap);
        UpdateRow(i, overlap);
        i := i + 1;
      }
      assert colliders[i..] == [];
    }

    /** The inner loop. */
    method UpdateRow(i: nat, overlap: (Collider, Collider) -> bool)
      requires Valid() && i < |colliders|
      modifies `log, known`collisionMap
      ensures Valid()
      ensures Abstract() == FoldPairs(old(Abstract()), Row(colliders[i], colliders[i + 1..]), overlap)
    {
      hide PairStep;
      ghost var t := FoldPairs(Abstract(), Row(colliders[i], colliders[i + 1..]), overlap);
      var j := i + 1;
      while j < |colliders|
        invariant i < j <= |colliders| && Valid()
        invariant FoldPairs(Abstract(), Row(colliders[i], colliders[j..]), overlap) == t
      {
        assert colliders[j..][1..] == colliders[j + 1..];
        CheckPair(colliders[i], colliders[j], overlap);
        j := j + 1;
      }
      assert colliders[j..] == [];
    }

    /** The body of the inner loop. */
    method CheckPair(src: Collider, dest: Collider, overlap: (Collider, Collider) -> bool)
      requires src in known && dest in known
      modifies `log, src`collisionMap, dest`collisionMap
      ensures Abstract() == PairStep(old(Abstract()), src, dest, overlap(src, dest))
    {
      if overlap(src, dest) {
        if dest !in src.collisionMap {
          log := log + [Begin(src, dest), Begin(dest, src)];
          src.collisionMap := src.collisionMap + {dest};
          dest.collisionMap := dest.collisionMap + {src};
        }
        log := log + [Stay(src, dest), Stay(dest, src)];
      } else if dest in src.collisionMap {
        log := log + [End(src, dest), End(dest, src)];
        src.collisionMap := src.collisionMap - {dest};
        dest.collisionMap := dest.collisionMap - {src};
      }
    }
  }

  lemma {:induction false} FoldPairsConcat<T>(t: Tracker<T>, ps: seq<(T, T)>, qs: seq<(T, T)>, overlap: (T, T) -> bool)
    ensures FoldPairs(t, ps + qs, overlap) == FoldPairs(FoldPairs(t, ps, overlap), qs, overlap)
    decreases |ps|
  {
    if ps == [] {
      assert ps + qs == qs;
    } else {
      assert (ps + qs)[0] == ps[0] && (ps + qs)[1..] == ps[1..] + qs;
      FoldPairsConcat(PairStep(t, ps[0].0, ps[0].1, overlap(ps[0].0, ps[0].1)), ps[1..], qs, overlap);
    }
  }
}
