/** The messages that travel inside other messages: `DestroyedBlockInfo`, `TileInfo`, `PlayerInfo`.

    For each: the effect of one field, the fields written, and what merging does. */
module Struct {
  import opened Wire
  import opened Parsing

  //
  // DestroyedBlockInfo
  //

  datatype Block = Block(blockid: uint64, itemid: uint64) {
    static function Accept(k: Block, f: Field): Effect<Block> {
      if f.Varint? && f.number == 1 then Set(k.(blockid := f.value))
      else if f.Varint? && f.number == 2 then Set(k.(itemid := f.value))
      else Unusual
    }

    function Declared(): seq<Field> {
      Optional(blockid != 0, Varint(1, blockid)) + Optional(itemid != 0, Varint(2, itemid))
    }

    function Merge(from: Block): Block {
      Block(if from.blockid != 0 then from.blockid else blockid,
            if from.itemid != 0 then from.itemid else itemid)
    }
  }

  type BlockInfo = Message<Block>

  const EMPTY_BLOCK := Message(Block(0, 0), [])

  function WriteBlock(m: BlockInfo): seq<byte> { Write(m.body.Declared(), m.unknown) }

  function MergeBlock(a: BlockInfo, b: BlockInfo): BlockInfo {
    Message(a.body.Merge(b.body), a.unknown + b.unknown)
  }

  lemma BlockFold(a: Block, b: Block)
    ensures FoldsTo(Block.Accept, a, b.Declared(), a.Merge(b), NESTED_DEPTH)
  {
    var fs, k := Extend(Block.Accept, a, [], a, b.blockid != 0, Varint(1, b.blockid), NESTED_DEPTH);
    fs, k := Extend(Block.Accept, a, fs, k, b.itemid != 0, Varint(2, b.itemid), NESTED_DEPTH);
  }

  /** Parsing a written block into any block merges the two. */
  lemma BlockReadBack(a: BlockInfo, b: BlockInfo)
    requires Foreign(Block.Accept, b.unknown, NESTED_DEPTH)
    ensures Parse(Block.Accept, a, WriteBlock(b), NESTED_DEPTH) == Done(MergeBlock(a, b))
  {
    BlockFold(a.body, b.body);
    ParseWritten(Block.Accept, a, b.body.Declared(), a.body.Merge(b.body), b.unknown, [], NESTED_DEPTH);
    assert WriteBlock(b) + [] == WriteBlock(b);
  }

  lemma BlockRoundTrip(m: BlockInfo)
    requires Foreign(Block.Accept, m.unknown, NESTED_DEPTH)
    ensures Parse(Block.Accept, EMPTY_BLOCK, WriteBlock(m), NESTED_DEPTH) == Done(m)
  {
    BlockReadBack(EMPTY_BLOCK, m);
    assert [] + m.unknown == m.unknown;
  }

  //
  // TileInfo
  //

  datatype Tile = Tile(objectid: uint64, mapobjecttype: int32, detailedtype: int32) {
    static function Accept(k: Tile, f: Field): Effect<Tile> {
      if f.Varint? && f.number == 1 then Set(k.(objectid := f.value))
      else if f.Varint? && f.number == 2 then Set(k.(mapobjecttype := ToInt32(f.value)))
      else if f.Varint? && f.number == 3 then Set(k.(detailedtype := ToInt32(f.value)))
      else Unusual
    }

    function Declared(): seq<Field> {
      Optional(objectid != 0, Varint(1, objectid))
      + Optional(mapobjecttype != 0, Varint(2, SignExtend(mapobjecttype)))
      + Optional(detailedtype != 0, Varint(3, SignExtend(detailedtype)))
    }

    function Merge(from: Tile): Tile {
      Tile(if from.objectid != 0 then from.objectid else objectid,
           if from.mapobjecttype != 0 then from.mapobjecttype else mapobjecttype,
           if from.detailedtype != 0 then from.detailedtype else detailedtype)
    }
  }

  type TileInfo = Message<Tile>

  const EMPTY_TILE := Message(Tile(0, 0, 0), [])

  function WriteTile(m: TileInfo): seq<byte> { Write(m.body.Declared(), m.unknown) }

  function MergeTile(a: TileInfo, b: TileInfo): TileInfo {
    Message(a.body.Merge(b.body), a.unknown + b.unknown)
  }

  lemma TileFold(a: Tile, b: Tile)
    ensures FoldsTo(Tile.Accept, a, b.Declared(), a.Merge(b), NESTED_DEPTH)
  {
    Int32RoundTrip(b.mapobjecttype); Int32RoundTrip(b.detailedtype);
    var fs, k := Extend(Tile.Accept, a, [], a, b.objectid != 0, Varint(1, b.objectid), NESTED_DEPTH);
    fs, k := Extend(Tile.Accept, a, fs, k, b.mapobjecttype != 0, Varint(2, SignExtend(b.mapobjecttype)), NESTED_DEPTH);
    fs, k := Extend(Tile.Accept, a, fs, k, b.detailedtype != 0, Varint(3, SignExtend(b.detailedtype)), NESTED_DEPTH);
  }

  lemma TileReadBack(a: TileInfo, b: TileInfo)
    requires Foreign(Tile.Accept, b.unknown, NESTED_DEPTH)
    ensures Parse(Tile.Accept, a, WriteTile(b), NESTED_DEPTH) == Done(MergeTile(a, b))
  {
    TileFold(a.body, b.body);
    ParseWritten(Tile.Accept, a, b.body.Declared(), a.body.Merge(b.body), b.unknown, [], NESTED_DEPTH);
    assert WriteTile(b) + [] == WriteTile(b);
  }

  lemma TileRoundTrip(m: TileInfo)
    requires Foreign(Tile.Accept, m.unknown, NESTED_DEPTH)
    ensures Parse(Tile.Accept, EMPTY_TILE, WriteTile(m), NESTED_DEPTH) == Done(m)
  {
    TileReadBack(EMPTY_TILE, m);
    assert [] + m.unknown == m.unknown;
  }

  //
  // PlayerInfo: the position is a pair of floats, kept as their 32-bit patterns
  //

  datatype Player = Player(objectid: uint64, posx: uint32, posy: uint32, mainstate: int32, dir: int32) {
    static function Accept(k: Player, f: Field): Effect<Player> {
      if f.Varint? && f.number == 1 then Set(k.(objectid := f.value))
      else if f.Fixed32? && f.number == 2 then Set(k.(posx := f.bits))
      else if f.Fixed32? && f.number == 3 then Set(k.(posy := f.bits))
      else if f.Varint? && f.number == 4 then Set(k.(mainstate := ToInt32(f.value)))
      else if f.Varint? && f.number == 5 then Set(k.(dir := ToInt32(f.value)))
      else Unusual
    }

    function Declared(): seq<Field> {
      Optional(objectid != 0, Varint(1, objectid))
      + Optional(posx != 0, Fixed32(2, posx))
      + Optional(posy != 0, Fixed32(3, posy))
      + Optional(mainstate != 0, Varint(4, SignExtend(mainstate)))
      + Optional(dir != 0, Varint(5, SignExtend(dir)))
    }

    function Merge(from: Player): Player {
      Player(if from.objectid != 0 then from.objectid else objectid,
             if from.posx != 0 then from.posx else posx,
             if from.posy != 0 then from.posy else posy,
             if from.mainstate != 0 then from.mainstate else mainstate,
             if from.dir != 0 then from.dir else dir)
    }
  }

  type PlayerInfo = Message<Player>

  const EMPTY_PLAYER := Message(Player(0, 0, 0, 0, 0), [])

  function WritePlayer(m: PlayerInfo): seq<byte> { Write(m.body.Declared(), m.unknown) }

  function MergePlayer(a: PlayerInfo, b: PlayerInfo): PlayerInfo {
    Message(a.body.Merge(b.body), a.unknown + b.unknown)
  }

  lemma PlayerFold(a: Player, b: Player)
    ensures FoldsTo(Player.Accept, a, b.Declared(), a.Merge(b), NESTED_DEPTH)
  {
    Int32RoundTrip(b.mainstate); Int32RoundTrip(b.dir);
    var fs, k := Extend(Player.Accept, a, [], a, b.objectid != 0, Varint(1, b.objectid), NESTED_DEPTH);
    fs, k := Extend(Player.Accept, a, fs, k, b.posx != 0, Fixed32(2, b.posx), NESTED_DEPTH);
    fs, k := Extend(Player.Accept, a, fs, k, b.posy != 0, Fixed32(3, b.posy), NESTED_DEPTH);
    fs, k := Extend(Player.Accept, a, fs, k, b.mainstate != 0, Varint(4, SignExtend(b.mainstate)), NESTED_DEPTH);
    fs, k := Extend(Player.Accept, a, fs, k, b.dir != 0, Varint(5, SignExtend(b.dir)), NESTED_DEPTH);
  }

  lemma PlayerReadBack(a: PlayerInfo, b: PlayerInfo)
    requires Foreign(Player.Accept, b.unknown, NESTED_DEPTH)
    ensures Parse(Player.Accept, a, WritePlayer(b), NESTED_DEPTH) == Done(MergePlayer(a, b))
  {
    PlayerFold(a.body, b.body);
    ParseWritten(Player.Accept, a, b.body.Declared(), a.body.Merge(b.body), b.unknown, [], NESTED_DEPTH);
    assert WritePlayer(b) + [] == WritePlayer(b);
  }
}
