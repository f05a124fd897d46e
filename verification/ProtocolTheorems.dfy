/** What the messages of `Protocol` keep across the wire: messages written one after the other are
    read as their merge, reading undoes writing, and any accepted input is normalised once. */
module ProtocolTheorems {
  import opened Wire
  import opened Parsing
  import opened Struct
  import opened Protocol

  //
  // S_Explode
  //

  /** What the wire can carry: no payload over the limit, and unknown fields that stay unknown. */
  ghost predicate WritableExplode(m: ExplodeMessage) {
    && WritableBlocks(m.body.blocks)
    && |PackVarints(m.body.ids)| <= MAX_PAYLOAD
    && Foreign(Explode.Accept, m.unknown, TOP_DEPTH)
  }

  ghost predicate WritableBlock(b: BlockInfo) {
    |WriteBlock(b)| <= MAX_PAYLOAD && Foreign(Block.Accept, b.unknown, NESTED_DEPTH)
  }

  ghost predicate WritableBlocks(bs: seq<BlockInfo>) {
    bs == [] || (WritableBlock(bs[0]) && WritableBlocks(bs[1..]))
  }

  lemma ExplodeScalarsFold(a: Explode, b: Explode)
    ensures FoldsTo(Explode.Accept, a, b.Scalars(), a.MergeScalars(b), TOP_DEPTH)
  {
    hide SignExtend, ToInt32;
    Int32RoundTrip(b.up); Int32RoundTrip(b.down); Int32RoundTrip(b.left); Int32RoundTrip(b.right);
    var fs, k := Extend(Explode.Accept, a, [], a, b.objectid != 0, Varint(1, b.objectid), TOP_DEPTH);
    fs, k := Extend(Explode.Accept, a, fs, k, b.up != 0, Varint(2, SignExtend(b.up)), TOP_DEPTH);
    fs, k := Extend(Explode.Accept, a, fs, k, b.down != 0, Varint(3, SignExtend(b.down)), TOP_DEPTH);
    fs, k := Extend(Explode.Accept, a, fs, k, b.left != 0, Varint(4, SignExtend(b.left)), TOP_DEPTH);
    fs, k := Extend(Explode.Accept, a, fs, k, b.right != 0, Varint(5, SignExtend(b.right)), TOP_DEPTH);
  }

  lemma BlockRecordAccepted(a: Explode, b: BlockInfo)
    requires WritableBlock(b)
    ensures Explode.Accept(a, Length(6, WriteBlock(b))) == Set(a.(blocks := a.blocks + [b]))
  {
    BlockRoundTrip(b);
  }

  lemma {:induction false} BlockRecordsFold(a: Explode, bs: seq<BlockInfo>)
    requires WritableBlocks(bs)
    ensures FoldsTo(Explode.Accept, a, BlockRecords(bs), a.(blocks := a.blocks + bs), TOP_DEPTH)
    decreases |bs|
  {
    if bs == [] {
      assert a.blocks + bs == a.blocks;
    } else {
      var k1 := a.(blocks := a.blocks + [bs[0]]);
      BlockRecordAccepted(a, bs[0]);
      BlockRecordsFold(k1, bs[1..]);
      FoldsToCons(Explode.Accept, a, Length(6, WriteBlock(bs[0])), k1,
                  BlockRecords(bs[1..]), k1.(blocks := k1.blocks + bs[1..]), TOP_DEPTH);
      assert k1.blocks + bs[1..] == a.blocks + bs;
    }
  }

  lemma ExplodeFold(a: Explode, b: Explode)
    requires WritableBlocks(b.blocks)
    requires |PackVarints(b.ids)| <= MAX_PAYLOAD
    ensures FoldsTo(Explode.Accept, a, b.Declared(), a.Merge(b), TOP_DEPTH)
  {
    var k := a.MergeScalars(b);
    ExplodeScalarsFold(a, b);
    BlockRecordsFold(k, b.blocks);
    FoldsToConcat(Explode.Accept, a, b.Scalars(), k,
                  BlockRecords(b.blocks), k.(blocks := k.blocks + b.blocks), TOP_DEPTH);
    UnpackPacked(b.ids);
    var _, _ := Extend(Explode.Accept, a, b.Scalars() + BlockRecords(b.blocks), k.(blocks := k.blocks + b.blocks),
                       b.ids != [], Length(8, PackVarints(b.ids)), TOP_DEPTH);
    if b.ids == [] { assert k.ids + b.ids == k.ids; }
  }

  /** Parsing a written message in front of any further input merges it into the target. */
  lemma ExplodeParseMerges(a: ExplodeMessage, b: ExplodeMessage, s: seq<byte>)
    requires WritableExplode(b)
    ensures Parse(Explode.Accept, a, WriteExplode(b) + s, TOP_DEPTH)
         == Parse(Explode.Accept, MergeExplode(a, b), s, TOP_DEPTH)
  {
    ExplodeFold(a.body, b.body);
    ParseWritten(Explode.Accept, a, b.body.Declared(), a.body.Merge(b.body), b.unknown, s, TOP_DEPTH);
  }

  lemma ExplodeMergeIntoEmpty(b: ExplodeMessage)
    ensures MergeExplode(EMPTY_EXPLODE, b) == b
  {
    assert [] + b.body.blocks == b.body.blocks && [] + b.body.ids == b.body.ids && [] + b.unknown == b.unknown;
  }

  lemma ExplodeConcatenationMerges(a: ExplodeMessage, b: ExplodeMessage)
    requires WritableExplode(a) && WritableExplode(b)
    ensures Parse(Explode.Accept, EMPTY_EXPLODE, WriteExplode(a) + WriteExplode(b), TOP_DEPTH)
         == Done(MergeExplode(a, b))
  {
    ExplodeParseMerges(EMPTY_EXPLODE, a, WriteExplode(b));
    ExplodeMergeIntoEmpty(a);
    ExplodeParseMerges(a, b, []);
    assert WriteExplode(b) + [] == WriteExplode(b);
  }

  lemma ExplodeRoundTrip(m: ExplodeMessage)
    requires WritableExplode(m)
    ensures Parse(Explode.Accept, EMPTY_EXPLODE, WriteExplode(m), TOP_DEPTH) == Done(m)
  {
    ExplodeParseMerges(EMPTY_EXPLODE, m, []);
    ExplodeMergeIntoEmpty(m);
    assert WriteExplode(m) + [] == WriteExplode(m);
  }

  //
  // S_Tilemap
  //

  ghost predicate WritableTile(t: TileInfo) {
    |WriteTile(t)| <= MAX_PAYLOAD && Foreign(Tile.Accept, t.unknown, NESTED_DEPTH)
  }

  ghost predicate WritableTiles(ts: seq<TileInfo>) {
    ts == [] || (WritableTile(ts[0]) && WritableTiles(ts[1..]))
  }

  ghost predicate WritableTilemap(m: TilemapMessage) {
    WritableTiles(m.body.infos) && Foreign(Tilemap.Accept, m.unknown, TOP_DEPTH)
  }

  lemma TilemapScalarsFold(a: Tilemap, b: Tilemap)
    ensures FoldsTo(Tilemap.Accept, a, b.Scalars(), a.MergeScalars(b), TOP_DEPTH)
  {
    Int32RoundTrip(b.mapsizex); Int32RoundTrip(b.mapsizey);
    var fs, k := Extend(Tilemap.Accept, a, [], a, b.mapsizex != 0, Varint(1, SignExtend(b.mapsizex)), TOP_DEPTH);
    fs, k := Extend(Tilemap.Accept, a, fs, k, b.mapsizey != 0, Varint(2, SignExtend(b.mapsizey)), TOP_DEPTH);
  }

  lemma TileRecordAccepted(a: Tilemap, t: TileInfo)
    requires WritableTile(t)
    ensures Tilemap.Accept(a, Length(3, WriteTile(t))) == Set(a.(infos := a.infos + [t]))
  {
    TileRoundTrip(t);
  }

  lemma {:induction false} TileRecordsFold(a: Tilemap, ts: seq<TileInfo>)
    requires WritableTiles(ts)
    ensures FoldsTo(Tilemap.Accept, a, TileRecords(ts), a.(infos := a.infos + ts), TOP_DEPTH)
    decreases |ts|
  {
    if ts == [] {
      assert a.infos + ts == a.infos;
    } else {
      var k1 := a.(infos := a.infos + [ts[0]]);
      TileRecordAccepted(a, ts[0]);
      TileRecordsFold(k1, ts[1..]);
      FoldsToCons(Tilemap.Accept, a, Length(3, WriteTile(ts[0])), k1,
                  TileRecords(ts[1..]), k1.(infos := k1.infos + ts[1..]), TOP_DEPTH);
      assert k1.infos + ts[1..] == a.infos + ts;
    }
  }

  lemma TilemapParseMerges(a: TilemapMessage, b: TilemapMessage, s: seq<byte>)
    requires WritableTilemap(b)
    ensures Parse(Tilemap.Accept, a, WriteTilemap(b) + s, TOP_DEPTH)
         == Parse(Tilemap.Accept, MergeTilemap(a, b), s, TOP_DEPTH)
  {
    TilemapScalarsFold(a.body, b.body);
    TileRecordsFold(a.body.MergeScalars(b.body), b.body.infos);
    FoldsToConcat(Tilemap.Accept, a.body, b.body.Scalars(), a.body.MergeScalars(b.body),
                  TileRecords(b.body.infos), a.body.Merge(b.body), TOP_DEPTH);
    ParseWritten(Tilemap.Accept, a, b.body.Declared(), a.body.Merge(b.body), b.unknown, s, TOP_DEPTH);
  }

  lemma TilemapMergeIntoEmpty(b: TilemapMessage)
    ensures MergeTilemap(EMPTY_TILEMAP, b) == b
  {
    assert [] + b.body.infos == b.body.infos && [] + b.unknown == b.unknown;
  }

  lemma TilemapConcatenationMerges(a: TilemapMessage, b: TilemapMessage)
    requires WritableTilemap(a) && WritableTilemap(b)
    ensures Parse(Tilemap.Accept, EMPTY_TILEMAP, WriteTilemap(a) + WriteTilemap(b), TOP_DEPTH)
         == Done(MergeTilemap(a, b))
  {
    TilemapParseMerges(EMPTY_TILEMAP, a, WriteTilemap(b));
    TilemapMergeIntoEmpty(a);
    TilemapParseMerges(a, b, []);
    assert WriteTilemap(b) + [] == WriteTilemap(b);
  }

  lemma TilemapRoundTrip(m: TilemapMessage)
    requires WritableTilemap(m)
    ensures Parse(Tilemap.Accept, EMPTY_TILEMAP, WriteTilemap(m), TOP_DEPTH) == Done(m)
  {
    TilemapParseMerges(EMPTY_TILEMAP, m, []);
    TilemapMergeIntoEmpty(m);
    assert WriteTilemap(m) + [] == WriteTilemap(m);
  }

  //
  // S_MyPlayer
  //

  ghost predicate WritableMyPlayer(m: MyPlayerMessage) {
    && (m.body.info.Some? ==> |WritePlayer(m.body.info.value)| <= MAX_PAYLOAD
                              && Foreign(Player.Accept, m.body.info.value.unknown, NESTED_DEPTH))
    && Foreign(MyPlayer.Accept, m.unknown, TOP_DEPTH)
  }

  /** The submessage is merged recursively into the one already there. */
  lemma MyPlayerParseMerges(a: MyPlayerMessage, b: MyPlayerMessage, s: seq<byte>)
    requires WritableMyPlayer(b)
    ensures Parse(MyPlayer.Accept, a, WriteMyPlayer(b) + s, TOP_DEPTH)
         == Parse(MyPlayer.Accept, MergeMyPlayer(a, b), s, TOP_DEPTH)
  {
    var merged := a.body.Merge(b.body);
    if b.body.info.Some? {
      PlayerReadBack(a.body.Info(), b.body.info.value);
      var f := Length(1, WritePlayer(b.body.info.value));
      FoldsToCons(MyPlayer.Accept, a.body, f, merged, [], merged, TOP_DEPTH);
      assert [f] + [] == [f];
    }
    ParseWritten(MyPlayer.Accept, a, b.body.Declared(), merged, b.unknown, s, TOP_DEPTH);
  }

  lemma MyPlayerMergeIntoEmpty(b: MyPlayerMessage)
    ensures MergeMyPlayer(EMPTY_MY_PLAYER, b) == b
  {
    assert [] + b.unknown == b.unknown;
    if b.body.info.Some? { assert [] + b.body.info.value.unknown == b.body.info.value.unknown; }
  }

  lemma MyPlayerConcatenationMerges(a: MyPlayerMessage, b: MyPlayerMessage)
    requires WritableMyPlayer(a) && WritableMyPlayer(b)
    ensures Parse(MyPlayer.Accept, EMPTY_MY_PLAYER, WriteMyPlayer(a) + WriteMyPlayer(b), TOP_DEPTH)
         == Done(MergeMyPlayer(a, b))
  {
    MyPlayerParseMerges(EMPTY_MY_PLAYER, a, WriteMyPlayer(b));
    MyPlayerMergeIntoEmpty(a);
    MyPlayerParseMerges(a, b, []);
    assert WriteMyPlayer(b) + [] == WriteMyPlayer(b);
  }

  lemma MyPlayerRoundTrip(m: MyPlayerMessage)
    requires WritableMyPlayer(m)
    ensures Parse(MyPlayer.Accept, EMPTY_MY_PLAYER, WriteMyPlayer(m), TOP_DEPTH) == Done(m)
  {
    MyPlayerParseMerges(EMPTY_MY_PLAYER, m, []);
    MyPlayerMergeIntoEmpty(m);
    assert WriteMyPlayer(m) + [] == WriteMyPlayer(m);
  }

  //
  // S_Move and C_Move
  //

  lemma ClientMoveFold(a: ClientMove, b: ClientMove)
    ensures FoldsTo(ClientMove.Accept, a, b.Declared(), a.Merge(b), TOP_DEPTH)
  {
    Int32RoundTrip(b.dir);
    var fs, k := Extend(ClientMove.Accept, a, [], a, b.objectid != 0, Varint(1, b.objectid), TOP_DEPTH);
    fs, k := Extend(ClientMove.Accept, a, fs, k, b.movestate != 0, Varint(2, b.movestate), TOP_DEPTH);
    fs, k := Extend(ClientMove.Accept, a, fs, k, b.dir != 0, Varint(3, SignExtend(b.dir)), TOP_DEPTH);
    fs, k := Extend(ClientMove.Accept, a, fs, k, b.posx != 0, Fixed32(4, b.posx), TOP_DEPTH);
    fs, k := Extend(ClientMove.Accept, a, fs, k, b.posy != 0, Fixed32(5, b.posy), TOP_DEPTH);
  }

  lemma ClientMoveParseMerges(a: ClientMoveMessage, b: ClientMoveMessage, s: seq<byte>)
    requires Foreign(ClientMove.Accept, b.unknown, TOP_DEPTH)
    ensures Parse(ClientMove.Accept, a, WriteClientMove(b) + s, TOP_DEPTH)
         == Parse(ClientMove.Accept, MergeClientMove(a, b), s, TOP_DEPTH)
  {
    ClientMoveFold(a.body, b.body);
    ParseWritten(ClientMove.Accept, a, b.body.Declared(), a.body.Merge(b.body), b.unknown, s, TOP_DEPTH);
  }

  lemma ClientMoveConcatenationMerges(a: ClientMoveMessage, b: ClientMoveMessage)
    requires Foreign(ClientMove.Accept, a.unknown, TOP_DEPTH) && Foreign(ClientMove.Accept, b.unknown, TOP_DEPTH)
    ensures Parse(ClientMove.Accept, EMPTY_CLIENT_MOVE, WriteClientMove(a) + WriteClientMove(b), TOP_DEPTH)
         == Done(MergeClientMove(a, b))
  {
    ClientMoveParseMerges(EMPTY_CLIENT_MOVE, a, WriteClientMove(b));
    ClientMoveParseMerges(a, b, []);
    assert WriteClientMove(b) + [] == WriteClientMove(b) && [] + a.unknown == a.unknown;
  }

  lemma ClientMoveRoundTrip(m: ClientMoveMessage)
    requires Foreign(ClientMove.Accept, m.unknown, TOP_DEPTH)
    ensures Parse(ClientMove.Accept, EMPTY_CLIENT_MOVE, WriteClientMove(m), TOP_DEPTH) == Done(m)
  {
    ClientMoveParseMerges(EMPTY_CLIENT_MOVE, m, []);
    assert WriteClientMove(m) + [] == WriteClientMove(m) && [] + m.unknown == m.unknown;
  }

  lemma ServerMoveFirstFold(a: ServerMove, b: ServerMove) returns (fs: seq<Field>, k: ServerMove)
    ensures fs == Optional(b.objectid != 0, Varint(1, b.objectid)) + Optional(b.movestate != 0, Varint(2, b.movestate))
                + Optional(b.dir != 0, Varint(3, SignExtend(b.dir)))
    ensures k == a.Merge(b).(posx := a.posx, posy := a.posy, needsync := a.needsync)
    ensures FoldsTo(ServerMove.Accept, a, fs, k, TOP_DEPTH)
  {
    hide SignExtend, ToInt32;
    Int32RoundTrip(b.dir);
    fs, k := Extend(ServerMove.Accept, a, [], a, b.objectid != 0, Varint(1, b.objectid), TOP_DEPTH);
    fs, k := Extend(ServerMove.Accept, a, fs, k, b.movestate != 0, Varint(2, b.movestate), TOP_DEPTH);
    fs, k := Extend(ServerMove.Accept, a, fs, k, b.dir != 0, Varint(3, SignExtend(b.dir)), TOP_DEPTH);
  }

  lemma ServerMoveSharedFold(a: ServerMove, b: ServerMove)
    ensures FoldsTo(ServerMove.Accept, a, b.Shared().Declared(), a.Merge(b).(needsync := a.needsync), TOP_DEPTH)
  {
    hide SignExtend, ToInt32;
    var fs, k := ServerMoveFirstFold(a, b);
    fs, k := Extend(ServerMove.Accept, a, fs, k, b.posx != 0, Fixed32(4, b.posx), TOP_DEPTH);
    fs, k := Extend(ServerMove.Accept, a, fs, k, b.posy != 0, Fixed32(5, b.posy), TOP_DEPTH);
  }

  lemma ServerMoveFold(a: ServerMove, b: ServerMove)
    ensures FoldsTo(ServerMove.Accept, a, b.Declared(), a.Merge(b), TOP_DEPTH)
  {
    ServerMoveSharedFold(a, b);
    var _, _ := Extend(ServerMove.Accept, a, b.Shared().Declared(), a.Merge(b).(needsync := a.needsync),
                       b.needsync, Varint(6, 1), TOP_DEPTH);
  }

  lemma ServerMoveParseMerges(a: ServerMoveMessage, b: ServerMoveMessage, s: seq<byte>)
    requires Foreign(ServerMove.Accept, b.unknown, TOP_DEPTH)
    ensures Parse(ServerMove.Accept, a, WriteServerMove(b) + s, TOP_DEPTH)
         == Parse(ServerMove.Accept, MergeServerMove(a, b), s, TOP_DEPTH)
  {
    ServerMoveFold(a.body, b.body);
    ParseWritten(ServerMove.Accept, a, b.body.Declared(), a.body.Merge(b.body), b.unknown, s, TOP_DEPTH);
  }

  lemma ServerMoveConcatenationMerges(a: ServerMoveMessage, b: ServerMoveMessage)
    requires Foreign(ServerMove.Accept, a.unknown, TOP_DEPTH) && Foreign(ServerMove.Accept, b.unknown, TOP_DEPTH)
    ensures Parse(ServerMove.Accept, EMPTY_SERVER_MOVE, WriteServerMove(a) + WriteServerMove(b), TOP_DEPTH)
         == Done(MergeServerMove(a, b))
  {
    ServerMoveParseMerges(EMPTY_SERVER_MOVE, a, WriteServerMove(b));
    ServerMoveParseMerges(a, b, []);
    assert WriteServerMove(b) + [] == WriteServerMove(b) && [] + a.unknown == a.unknown;
  }

  lemma ServerMoveRoundTrip(m: ServerMoveMessage)
    requires Foreign(ServerMove.Accept, m.unknown, TOP_DEPTH)
    ensures Parse(ServerMove.Accept, EMPTY_SERVER_MOVE, WriteServerMove(m), TOP_DEPTH) == Done(m)
  {
    ServerMoveParseMerges(EMPTY_SERVER_MOVE, m, []);
    assert WriteServerMove(m) + [] == WriteServerMove(m) && [] + m.unknown == m.unknown;
  }

  lemma KeptAsUnknown(needsync: bool, unknown: seq<Field>)
    requires Foreign(ServerMove.Accept, unknown, TOP_DEPTH)
    ensures Foreign(ClientMove.Accept, Optional(needsync, Varint(6, 1)) + unknown, TOP_DEPTH)
  {
    forall f, k | f in Optional(needsync, Varint(6, 1)) + unknown ensures ClientMove.Accept(k, f).Unusual? {
      assert f in unknown ==> ServerMove.Accept(EMPTY_SERVER_MOVE.body, f).Unusual?;
    }
  }

  /** A `S_Move` read by the older `C_Move` parser: the five shared fields are recovered, field 6 is
      kept as unknown, and writing the result gives back the identical bytes. */
  lemma MoveForwardCompatible(m: ServerMoveMessage)
    requires Foreign(ServerMove.Accept, m.unknown, TOP_DEPTH)
    ensures var c := Message(m.body.Shared(), Optional(m.body.needsync, Varint(6, 1)) + m.unknown);
            && Parse(ClientMove.Accept, EMPTY_CLIENT_MOVE, WriteServerMove(m), TOP_DEPTH) == Done(c)
            && WriteClientMove(c) == WriteServerMove(m)
  {
    var c := Message(m.body.Shared(), Optional(m.body.needsync, Varint(6, 1)) + m.unknown);
    KeptAsUnknown(m.body.needsync, m.unknown);
    ClientMoveRoundTrip(c);
    AssociateFields(c.body.Declared(), Optional(m.body.needsync, Varint(6, 1)), m.unknown);
  }

  lemma AssociateFields(a: seq<Field>, b: seq<Field>, c: seq<Field>)
    ensures (a + b) + c == a + (b + c)
  {
  }
}
