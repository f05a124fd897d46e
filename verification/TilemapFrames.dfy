/** How many tiles a `S_Tilemap` frame can carry. */
module TilemapFrames {
  import opened Wrappers
  import opened Wire
  import opened Parsing
  import opened Struct
  import opened Protocol
  import opened ProtocolTheorems
  import opened Output
  import opened Framing

  /** The values the server puts into a tile: a type 0..4 and an item type 0..3. */
  predicate OrdinaryTile(t: TileInfo) {
    t.unknown == [] && 0 <= t.body.mapobjecttype <= 4 && 0 <= t.body.detailedtype <= 3
  }

  predicate OrdinaryTiles(ts: seq<TileInfo>) { ts == [] || (OrdinaryTile(ts[0]) && OrdinaryTiles(ts[1..])) }

  predicate OrdinaryTilemap(m: TilemapMessage) {
    m.unknown == [] && m.body.mapsizex >= 0 && m.body.mapsizey >= 0 && OrdinaryTiles(m.body.infos)
  }

  lemma SmallVarint(v: uint64)
    requires v < 128
    ensures VarintSize(v) == 1
  {
  }

  /** The size of an ordinary tile: only the object id varies in length. */
  lemma TileSize(t: TileInfo)
    requires OrdinaryTile(t)
    ensures |WriteTile(t)| == (if t.body.objectid != 0 then 1 + VarintSize(t.body.objectid) else 0)
                            + (if t.body.mapobjecttype != 0 then 2 else 0) + (if t.body.detailedtype != 0 then 2 else 0)
  {
    hide EncodeField, EncodeFields, VarintSize;
    var b := t.body;
    var f1 := Optional(b.objectid != 0, Varint(1, b.objectid));
    var f2 := f1 + Optional(b.mapobjecttype != 0, Varint(2, b.mapobjecttype));
    EncodeNothing();
    assert [] + f1 == f1 && b.Declared() + [] == b.Declared();
    OptionalVarintSize([], 1, b.objectid);
    OptionalVarintSize(f1, 2, b.mapobjecttype);
    OptionalVarintSize(f2, 3, b.detailedtype);
    SmallVarint(b.mapobjecttype);
    SmallVarint(b.detailedtype);
  }

  lemma ObjectIdSize(v: uint64)
    ensures VarintSize(v) <= 10
    ensures v == TWO64 - 1 ==> VarintSize(v) == 10
  {
    Pow128Bounds();
    VarintSizeBound(v, 10);
    if v == TWO64 - 1 { Int32RoundTrip(-1); }
  }

  lemma MapSizeSize(v: int32)
    requires v >= 0
    ensures VarintSize(SignExtend(v)) <= 5
    ensures v == TWO31 - 1 ==> VarintSize(SignExtend(v)) == 5
  {
    Pow128Bounds();
    VarintSizeBound(SignExtend(v), 5);
    if v == TWO31 - 1 {
      assert VarintSize(v) == 2 + VarintSize(v / 128 / 128);
      assert VarintSize(v / 128 / 128) == 2 + VarintSize(v / 128 / 128 / 128 / 128);
    }
  }

  /** Every record of a tile takes at most 17 bytes. */
  lemma {:induction false} TileRecordsBound(ts: seq<TileInfo>)
    requires OrdinaryTiles(ts)
    ensures |EncodeFields(TileRecords(ts))| <= 17 * |ts| && WritableTiles(ts)
  {
    if ts == [] {
    } else {
      TileSize(ts[0]);
      ObjectIdSize(ts[0].body.objectid);
      LengthFieldSize(3, WriteTile(ts[0]));
      TileRecordsBound(ts[1..]);
    }
  }

  lemma TilemapSize(m: TilemapMessage)
    requires m.unknown == [] && m.body.mapsizex >= 0 && m.body.mapsizey >= 0
    ensures |WriteTilemap(m)|
         == (if m.body.mapsizex != 0 then 1 + VarintSize(SignExtend(m.body.mapsizex)) else 0)
          + (if m.body.mapsizey != 0 then 1 + VarintSize(SignExtend(m.body.mapsizey)) else 0)
          + |EncodeFields(TileRecords(m.body.infos))|
  {
    hide EncodeField, EncodeFields, VarintSize;
    var b := m.body;
    var f1 := Optional(b.mapsizex != 0, Varint(1, SignExtend(b.mapsizex)));
    EncodeNothing();
    assert [] + f1 == f1 && b.Declared() + [] == b.Declared();
    OptionalVarintSize([], 1, SignExtend(b.mapsizex));
    OptionalVarintSize(f1, 2, SignExtend(b.mapsizey));
    EncodeFieldsConcat(b.Scalars(), TileRecords(b.infos));
  }

  /** An ordinary map of at most 3854 tiles always fits a frame, and so reaches its handler intact. */
  lemma OrdinaryTilemapFits(table: map<nat, Kind>, m: TilemapMessage)
    requires OrdinaryTilemap(m) && |m.body.infos| <= 3854
    requires Registered(table) && TilemapKind.Id() in table
    ensures Frame(TilemapPacket(m)).Some? && ValidFrame(Frame(TilemapPacket(m)).value)
    ensures HandlePacket(table, Frame(TilemapPacket(m)).value) == Called(TilemapKind, Some(TilemapPacket(m)))
  {
    TilemapSize(m);
    MapSizeSize(m.body.mapsizex);
    MapSizeSize(m.body.mapsizey);
    TileRecordsBound(m.body.infos);
    FrameDeliveredIff(table, TilemapPacket(m));
  }

  /** The largest ordinary map of `n` tiles. */
  function LargestTilemap(n: nat): TilemapMessage {
    Message(Tilemap(TWO31 - 1, TWO31 - 1, LargestTiles(n)), [])
  }

  function LargestTiles(n: nat): (ts: seq<TileInfo>)
    ensures |ts| == n
  {
    if n == 0 then [] else [Message(Tile(TWO64 - 1, 4, 3), [])] + LargestTiles(n - 1)
  }

  lemma {:induction false} LargestTilesSize(n: nat)
    ensures |EncodeFields(TileRecords(LargestTiles(n)))| == 17 * n && OrdinaryTiles(LargestTiles(n))
  {
    if n == 0 {
    } else {
      var t := LargestTiles(n)[0];
      TileSize(t);
      ObjectIdSize(t.body.objectid);
      LengthFieldSize(3, WriteTile(t));
      SmallVarint(|WriteTile(t)|);
      LargestTilesSize(n - 1);
      assert LargestTiles(n)[1..] == LargestTiles(n - 1);
    }
  }

  /** The bound is exact: the largest map of 3855 tiles is lost. */
  lemma LargestTilemapLost(table: map<nat, Kind>)
    requires Registered(table) && TilemapKind.Id() in table
    ensures OrdinaryTilemap(LargestTilemap(3855)) && |WriteTilemap(LargestTilemap(3855))| == 17 * 3855 + 12
    ensures var f := Frame(TilemapPacket(LargestTilemap(3855)));
            f.Some? && ValidFrame(f.value) ==>
            HandlePacket(table, f.value) != Called(TilemapKind, Some(TilemapPacket(LargestTilemap(3855))))
  {
    var m := LargestTilemap(3855);
    LargestTilesSize(3855);
    TilemapSize(m);
    MapSizeSize(m.body.mapsizex);
    MapSizeSize(m.body.mapsizey);
    TileRecordsBound(m.body.infos);
    hide Frame, ValidFrame, HandlePacket, LargestTilemap;
    FrameDeliveredIff(table, TilemapPacket(m));
  }
}
