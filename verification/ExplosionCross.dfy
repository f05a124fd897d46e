/** The flow effects of an exploding water bomb on the client: a cross. */
module ExplosionCross {
  import opened Wrappers
  import opened Geometry

  datatype Dir = Up | Down | Left | Right

  const DIRS: seq<Dir> := [Up, Down, Left, Right]

  datatype Info = Info(dir: Dir, isEnd: bool)

  /** The effect in the middle is given no direction. */
  datatype FlowEffect = FlowEffect(pos: Pos, info: Option<Info>)

  datatype Counts = Counts(up: int, down: int, left: int, right: int) {
    function Of(d: Dir): int {
      match d case Up => up case Down => down case Left => left case Right => right
    }
  }

  /** The place `j` tiles from the bomb. */
  function Away(center: Pos, d: Dir, j: int): Pos {
    var far := (TILE_SIZE * j) as real;
    match d
    case Up => center.(y := center.y - far)
    case Down => center.(y := center.y + far)
    case Left => center.(x := center.x - far)
    case Right => center.(x := center.x + far)
  }

  /** The first `n` pieces of an arm of `count`. */
  function Arm(center: Pos, d: Dir, count: int, n: int): (arm: seq<FlowEffect>)
    ensures |arm| == if n < 0 then 0 else n
  {
    if n <= 0 then []
    else Arm(center, d, count, n - 1) + [FlowEffect(Away(center, d, n), Some(Info(d, n == count)))]
  }

  /** The cross with the arms of the first `arms` directions. */
  function Cross(center: Pos, counts: Counts, arms: nat): seq<FlowEffect>
    requires arms <= 4
  {
    if arms == 0 then [FlowEffect(center, None)]
    else
      var d := DIRS[arms - 1];
      Cross(center, counts, arms - 1) + Arm(center, d, counts.Of(d), counts.Of(d))
  }

  class WaterBomb {
    var pos: Pos
    var isDead: bool

    /** The effects created, in order. */
    method Explode(up: int, down: int, left: int, right: int) returns (effects: seq<FlowEffect>)
      modifies `isDead
      ensures effects == Cross(pos, Counts(up, down, left, right), 4)
      ensures isDead
    {
      ghost var all := Counts(up, down, left, right);
      effects := [FlowEffect(pos, None)];
      var dirs := [(0, -1), (0, 1), (-1, 0), (1, 0)];
      var counts := [up, down, left, right];
      for i := 0 to 4
        invariant effects == Cross(pos, all, i)
      {
        effects := ExplodeTowards(DIRS[i], dirs[i], counts[i], effects);
      }
      isDead := true;
    }

    /** The inner loop; direction `d` is the step `dir`. */
    method ExplodeTowards(d: Dir, dir: (int, int), count: int, before: seq<FlowEffect>)
      returns (effects: seq<FlowEffect>)
      requires dir == match d case Up => (0, -1) case Down => (0, 1) case Left => (-1, 0) case Right => (1, 0)
      ensures effects == before + Arm(pos, d, count, count)
    {
      effects := before;
      var j := 1;
      while j <= count
        invariant 1 <= j && (j <= count + 1 || j == 1)
        invariant effects == before + Arm(pos, d, count, j - 1)
      {
        var at := Pos(pos.x + (TILE_SIZE * j * dir.0) as real, pos.y + (TILE_SIZE * j * dir.1) as real);
        assert at == Away(pos, d, j);
        if j < count {
          effects := effects + [FlowEffect(at, Some(Info(d, false)))];
        } else {
          effects := effects + [FlowEffect(at, Some(Info(d, true)))];
        }
        j := j + 1;
      }
      assert Arm(pos, d, count, j - 1) == Arm(pos, d, count, count);
    }
  }

  /** One effect in the middle and one for each tile of each arm; a count that is not positive gives none. */
  lemma CrossSize(center: Pos, c: Counts)
    ensures |Cross(center, c, 4)| == 1 + Positive(c.up) + Positive(c.down) + Positive(c.left) + Positive(c.right)
  {
    CrossOf(center, c);
  }

  lemma CrossOf(center: Pos, c: Counts)
    ensures Cross(center, c, 4)
         == [FlowEffect(center, None)] + Arm(center, Up, c.up, c.up) + Arm(center, Down, c.down, c.down)
            + Arm(center, Left, c.left, c.left) + Arm(center, Right, c.right, c.right)
  {
    assert Cross(center, c, 1) == [FlowEffect(center, None)] + Arm(center, Up, c.up, c.up);
    assert Cross(center, c, 2) == Cross(center, c, 1) + Arm(center, Down, c.down, c.down);
    assert Cross(center, c, 3) == Cross(center, c, 2) + Arm(center, Left, c.left, c.left);
  }

  /** Whether `e` is piece `j` of the arm in direction `d`. */
  predicate IsPiece(center: Pos, c: Counts, e: FlowEffect, d: Dir, j: int) {
    1 <= j <= c.Of(d) && e == FlowEffect(Away(center, d, j), Some(Info(d, j == c.Of(d))))
  }

  lemma {:induction false} ArmPieces(center: Pos, c: Counts, d: Dir, n: int, e: FlowEffect)
    requires n <= c.Of(d)
    ensures e in Arm(center, d, c.Of(d), n) <==> exists j | j <= n :: IsPiece(center, c, e, d, j)
  {
    if n <= 0 {
    } else {
      ArmPieces(center, c, d, n - 1, e);
      if e == FlowEffect(Away(center, d, n), Some(Info(d, n == c.Of(d)))) { assert IsPiece(center, c, e, d, n); }
      if j :| j <= n && IsPiece(center, c, e, d, j) { assert j == n || j <= n - 1; }
    }
  }

  /** The cross is the middle and, for each direction, the contiguous pieces 1 to the count, each with its
      own direction; the end piece is the one at the tip and no other. */
  lemma CrossPieces(center: Pos, c: Counts, e: FlowEffect)
    ensures e in Cross(center, c, 4) <==> e == FlowEffect(center, None) || exists d, j :: IsPiece(center, c, e, d, j)
  {
    CrossOf(center, c);
    forall d ensures e in Arm(center, d, c.Of(d), c.Of(d)) <==> exists j :: IsPiece(center, c, e, d, j) {
      ArmPieces(center, c, d, c.Of(d), e);
    }
    assert c.Of(Up) == c.up && c.Of(Down) == c.down && c.Of(Left) == c.left && c.Of(Right) == c.right;
  }

  /** `p` lies `j` tiles of 40 pixels from `q`, to the right `dx` times and downwards `dy` times. */
  predicate Apart(q: Pos, p: Pos, dx: int, dy: int, j: int) {
    p == Pos(q.x + (40 * j * dx) as real, q.y + (40 * j * dy) as real)
  }

  ghost predicate Covers(effects: seq<FlowEffect>, p: Pos) { exists e :: e in effects && e.pos == p }

  ghost predicate Reached(center: Pos, count: int, dx: int, dy: int, p: Pos) {
    exists j: int :: 1 <= j <= count && Apart(center, p, dx, dy, j)
  }

  /** A place is covered exactly when it is the bomb's or lies straight above, below, left or right of it, a
      number of whole tiles away, from one to the count of that side. */
  lemma CrossCovers(center: Pos, c: Counts, p: Pos)
    ensures Covers(Cross(center, c, 4), p)
       <==> || p == center
            || Reached(center, c.up, 0, -1, p) || Reached(center, c.down, 0, 1, p)
            || Reached(center, c.left, -1, 0, p) || Reached(center, c.right, 1, 0, p)
  {
    CrossPieces(center, c, FlowEffect(center, None));
    PiecesReached(center, c, Up, 0, -1, p);
    PiecesReached(center, c, Down, 0, 1, p);
    PiecesReached(center, c, Left, -1, 0, p);
    PiecesReached(center, c, Right, 1, 0, p);
    if e :| e in Cross(center, c, 4) && e.pos == p {
      CrossPieces(center, c, e);
      if e != FlowEffect(center, None) {
        var d, j :| IsPiece(center, c, e, d, j);
        assert PieceAt(center, c, p, d);
      }
    }
    if d :| PieceAt(center, c, p, d) {
      var e, j :| IsPiece(center, c, e, d, j) && e.pos == p;
      CrossPieces(center, c, e);
    }
  }

  ghost predicate PieceAt(center: Pos, c: Counts, p: Pos, d: Dir) {
    exists e, j :: IsPiece(center, c, e, d, j) && e.pos == p
  }

  lemma PiecesReached(center: Pos, c: Counts, d: Dir, dx: int, dy: int, p: Pos)
    requires (dx, dy) == match d case Up => (0, -1) case Down => (0, 1) case Left => (-1, 0) case Right => (1, 0)
    ensures PieceAt(center, c, p, d) <==> Reached(center, c.Of(d), dx, dy, p)
  {
    forall j: int ensures Apart(center, p, dx, dy, j) <==> p == Away(center, d, j) { }
    if j: int :| 1 <= j <= c.Of(d) && Apart(center, p, dx, dy, j) {
      assert IsPiece(center, c, FlowEffect(p, Some(Info(d, j == c.Of(d)))), d, j);
    }
  }

  ghost predicate DistinctPlaces(s: seq<FlowEffect>) {
    forall i, j | 0 <= i < j < |s| :: s[i].pos != s[j].pos
  }

  lemma PlaceIsPiece(center: Pos, d1: Dir, j1: int, d2: Dir, j2: int)
    requires j1 >= 1 && j2 >= 1 && Away(center, d1, j1) == Away(center, d2, j2)
    ensures d1 == d2 && j1 == j2
  {
  }

  lemma {:induction false} ArmDistinct(center: Pos, d: Dir, count: int, n: int)
    ensures DistinctPlaces(Arm(center, d, count, n))
    ensures forall i | 0 <= i < |Arm(center, d, count, n)| :: Arm(center, d, count, n)[i].pos == Away(center, d, i + 1)
  {
    if n <= 0 {
    } else {
      ArmDistinct(center, d, count, n - 1);
    }
  }

  /** Every effect of the first `arms` arms is the middle or lies on one of those arms. */
  ghost predicate OnArms(center: Pos, s: seq<FlowEffect>, arms: nat)
    requires arms <= 4
  {
    forall i | 0 <= i < |s| :: s[i].pos == center || OnArm(center, s[i].pos, arms)
  }

  ghost predicate OnArm(center: Pos, p: Pos, arms: nat)
    requires arms <= 4
  {
    exists k: nat, j: nat :: k < arms && j >= 1 && p == Away(center, DIRS[k], j)
  }

  /** No two effects are in the same place. */
  lemma {:induction false} CrossDistinct(center: Pos, c: Counts, arms: nat)
    requires arms <= 4
    ensures DistinctPlaces(Cross(center, c, arms)) && OnArms(center, Cross(center, c, arms), arms)
  {
    if arms == 0 {
    } else {
      var d := DIRS[arms - 1];
      var a, b := Cross(center, c, arms - 1), Arm(center, d, c.Of(d), c.Of(d));
      CrossDistinct(center, c, arms - 1);
      ArmDistinct(center, d, c.Of(d), c.Of(d));
      forall i, j | 0 <= i < |a| && 0 <= j < |b| ensures a[i].pos != b[j].pos {
        OffArm(center, a[i].pos, arms - 1, j + 1);
      }
      forall i | 0 <= i < |a + b| ensures (a + b)[i].pos == center || OnArm(center, (a + b)[i].pos, arms) {
        if i >= |a| { assert b[i - |a|].pos == Away(center, DIRS[arms - 1], i - |a| + 1); }
      }
    }
  }

  lemma OffArm(center: Pos, p: Pos, arms: nat, j: nat)
    requires arms < 4 && j >= 1 && (p == center || OnArm(center, p, arms))
    ensures p != Away(center, DIRS[arms], j)
  {
    if p != center {
      var k: nat, i: nat :| k < arms && i >= 1 && p == Away(center, DIRS[k], i);
      if p == Away(center, DIRS[arms], j) { PlaceIsPiece(center, DIRS[k], i, DIRS[arms], j); }
    }
  }
}
