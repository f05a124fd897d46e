/** The top-level messages `S_Explode`, `S_Tilemap`, `S_MyPlayer`, `S_Move` and `C_Move` as values:
    the effect of one field on each, the fields each writes, and merging. */
module Protocol {
  import opened Wrappers
  import opened Wire
  import opened Parsing
  import opened Struct

  //
  // Packed repeated varints
  //

  function PackVarints(ids: seq<uint64>): seq<byte> {
    if ids == [] then [] else EncodeVarint(ids[0]) + PackVarints(ids[1..])
  }

  /** The varints that fill `s` exactly. */
  function UnpackVarints(s: seq<byte>): Option<seq<uint64>> {
    if s == [] then Some([])
    else match ReadVarint64(s)
      case None => None
      case Some((v, n)) =>
        match UnpackVarints(s[n..])
        case None => None
        case Some(ids) => Some([v] + ids)
  }

  lemma {:induction false} UnpackPacked(ids: seq<uint64>)
    ensures UnpackVarints(PackVarints(ids)) == Some(ids)
  {
    if ids == [] {
    } else {
      ReadVarintEncoded(ids[0], PackVarints(ids[1..]));
      UnpackPacked(ids[1..]);
      assert ids == [ids[0]] + ids[1..];
      assert PackVarints(ids)[|EncodeVarint(ids[0])|..] == PackVarints(ids[1..]);
    }
  }

  //
  // S_Explode
  //

  datatype Explode = Explode(
    objectid: uint64, up: int32, down: int32, left: int32, right: int32,
    blocks: seq<BlockInfo>, ids: seq<uint64>)
  {
    static function Accept(k: Explode, f: Field): Effect<Explode> {
      match f
      case Varint(n, v) =>
        if n == 1 then Set(k.(objectid := v))
        else if n == 2 then Set(k.(up := ToInt32(v)))
        else if n == 3 then Set(k.(down := ToInt32(v)))
        else if n == 4 then Set(k.(left := ToInt32(v)))
        else if n == 5 then Set(k.(right := ToInt32(v)))
        else if n == 8 then Set(k.(ids := k.ids + [v]))
        else Unusual
      case Length(n, p) =>
        if n == 6 then AcceptBlock(k, p)
        else if n == 8 then AcceptIds(k, p)
        else Unusual
      case _ => Unusual
    }

    static function AcceptBlock(k: Explode, p: seq<byte>): Effect<Explode> {
      match Parse(Block.Accept, EMPTY_BLOCK, p, NESTED_DEPTH)
      case Done(b) => Set(k.(blocks := k.blocks + [b]))
      case _ => Malformed
    }

    static function AcceptIds(k: Explode, p: seq<byte>): Effect<Explode> {
      match UnpackVarints(p)
      case Some(ids) => Set(k.(ids := k.ids + ids))
      case None => Malformed
    }

    function Scalars(): seq<Field> {
      Optional(objectid != 0, Varint(1, objectid))
      + Optional(up != 0, Varint(2, SignExtend(up)))
      + Optional(down != 0, Varint(3, SignExtend(down)))
      + Optional(left != 0, Varint(4, SignExtend(left)))
      + Optional(right != 0, Varint(5, SignExtend(right)))
    }

    function Declared(): seq<Field> {
      Scalars() + BlockRecords(blocks) + Optional(ids != [], Length(8, PackVarints(ids)))
    }

    function MergeScalars(from: Explode): Explode {
      Explode(if from.objectid != 0 then from.objectid else objectid,
              if from.up != 0 then from.up else up,
              if from.down != 0 then from.down else down,
              if from.left != 0 then from.left else left,
              if from.right != 0 then from.right else right,
              blocks, ids)
    }

    function Merge(from: Explode): Explode {
      MergeScalars(from).(blocks := blocks + from.blocks, ids := ids + from.ids)
    }
  }

  type ExplodeMessage = Message<Explode>

  const EMPTY_EXPLODE := Message(Explode(0, 0, 0, 0, 0, [], []), [])

  /** One record of field 6 per block. */
  function BlockRecords(bs: seq<BlockInfo>): seq<Field> {
    if bs == [] then [] else [Length(6, WriteBlock(bs[0]))] + BlockRecords(bs[1..])
  }

  lemma {:induction false} BlockRecordsConcat(bs: seq<BlockInfo>, cs: seq<BlockInfo>)
    ensures BlockRecords(bs + cs) == BlockRecords(bs) + BlockRecords(cs)
  {
    if bs == [] {
      assert bs + cs == cs;
    } else {
      assert (bs + cs)[0] == bs[0] && (bs + cs)[1..] == bs[1..] + cs;
      BlockRecordsConcat(bs[1..], cs);
    }
  }

  function WriteExplode(m: ExplodeMessage): seq<byte> { Write(m.body.Declared(), m.unknown) }

  function MergeExplode(a: ExplodeMessage, b: ExplodeMessage): ExplodeMessage {
    Message(a.body.Merge(b.body), a.unknown + b.unknown)
  }

  //
  // S_Tilemap
  //

  datatype Tilemap = Tilemap(mapsizex: int32, mapsizey: int32, infos: seq<TileInfo>) {
    static function Accept(k: Tilemap, f: Field): Effect<Tilemap> {
      if f.Varint? && f.number == 1 then Set(k.(mapsizex := ToInt32(f.value)))
      else if f.Varint? && f.number == 2 then Set(k.(mapsizey := ToInt32(f.value)))
      else if f.Length? && f.number == 3 then
        match Parse(Tile.Accept, EMPTY_TILE, f.payload, NESTED_DEPTH)
        case Done(t) => Set(k.(infos := k.infos + [t]))
        case _ => Malformed
      else Unusual
    }

    function Scalars(): seq<Field> {
      Optional(mapsizex != 0, Varint(1, SignExtend(mapsizex)))
      + Optional(mapsizey != 0, Varint(2, SignExtend(mapsizey)))
    }

    function Declared(): seq<Field> { Scalars() + TileRecords(infos) }

    function MergeScalars(from: Tilemap): Tilemap {
      Tilemap(if from.mapsizex != 0 then from.mapsizex else mapsizex,
              if from.mapsizey != 0 then from.mapsizey else mapsizey,
              infos)
    }

    function Merge(from: Tilemap): Tilemap { MergeScalars(from).(infos := infos + from.infos) }
  }

  type TilemapMessage = Message<Tilemap>

  const EMPTY_TILEMAP := Message(Tilemap(0, 0, []), [])

  function TileRecords(ts: seq<TileInfo>): seq<Field> {
    if ts == [] then [] else [Length(3, WriteTile(ts[0]))] + TileRecords(ts[1..])
  }

  function WriteTilemap(m: TilemapMessage): seq<byte> { Write(m.body.Declared(), m.unknown) }

  function MergeTilemap(a: TilemapMessage, b: TilemapMessage): TilemapMessage {
    Message(a.body.Merge(b.body), a.unknown + b.unknown)
  }

  //
  // S_MyPlayer
  //

  datatype MyPlayer = MyPlayer(info: Option<PlayerInfo>) {
    function Info(): PlayerInfo { if info.Some? then info.value else EMPTY_PLAYER }

    static function Accept(k: MyPlayer, f: Field): Effect<MyPlayer> {
      if f.Length? && f.number == 1 then
        match Parse(Player.Accept, k.Info(), f.payload, NESTED_DEPTH)
        case Done(p) => Set(MyPlayer(Some(p)))
        case _ => Malformed
      else Unusual
    }

    function Declared(): seq<Field> {
      if info.None? then [] else [Length(1, WritePlayer(info.value))]
    }

    function Merge(from: MyPlayer): MyPlayer {
      if from.info.None? then this else MyPlayer(Some(MergePlayer(Info(), from.info.value)))
    }
  }

  type MyPlayerMessage = Message<MyPlayer>

  const EMPTY_MY_PLAYER := Message(MyPlayer(None), [])

  function WriteMyPlayer(m: MyPlayerMessage): seq<byte> { Write(m.body.Declared(), m.unknown) }

  function MergeMyPlayer(a: MyPlayerMessage, b: MyPlayerMessage): MyPlayerMessage {
    Message(a.body.Merge(b.body), a.unknown + b.unknown)
  }

  //
  // C_Move and S_Move
  //

  datatype ClientMove = ClientMove(objectid: uint64, movestate: uint32, dir: int32, posx: uint32, posy: uint32) {
    static function Accept(k: ClientMove, f: Field): Effect<ClientMove> {
      if f.Varint? && f.number == 1 then Set(k.(objectid := f.value))
      else if f.Varint? && f.number == 2 then Set(k.(movestate := f.value % TWO32))
      else if f.Varint? && f.number == 3 then Set(k.(dir := ToInt32(f.value)))
      else if f.Fixed32? && f.number == 4 then Set(k.(posx := f.bits))
      else if f.Fixed32? && f.number == 5 then Set(k.(posy := f.bits))
      else Unusual
    }

    function Declared(): seq<Field> {
      Optional(objectid != 0, Varint(1, objectid))
      + Optional(movestate != 0, Varint(2, movestate))
      + Optional(dir != 0, Varint(3, SignExtend(dir)))
      + Optional(posx != 0, Fixed32(4, posx))
      + Optional(posy != 0, Fixed32(5, posy))
    }

    function Merge(from: ClientMove): ClientMove {
      ClientMove(if from.objectid != 0 then from.objectid else objectid,
                 if from.movestate != 0 then from.movestate else movestate,
                 if from.dir != 0 then from.dir else dir,
                 if from.posx != 0 then from.posx else posx,
                 if from.posy != 0 then from.posy else posy)
    }
  }

  type ClientMoveMessage = Message<ClientMove>

  const EMPTY_CLIENT_MOVE := Message(ClientMove(0, 0, 0, 0, 0), [])

  function WriteClientMove(m: ClientMoveMessage): seq<byte> { Write(m.body.Declared(), m.unknown) }

  function MergeClientMove(a: ClientMoveMessage, b: ClientMoveMessage): ClientMoveMessage {
    Message(a.body.Merge(b.body), a.unknown + b.unknown)
  }

  datatype ServerMove = ServerMove(
    objectid: uint64, movestate: uint32, dir: int32, posx: uint32, posy: uint32, needsync: bool)
  {
    static function Accept(k: ServerMove, f: Field): Effect<ServerMove> {
      if f.Varint? && f.number == 1 then Set(k.(objectid := f.value))
      else if f.Varint? && f.number == 2 then Set(k.(movestate := f.value % TWO32))
      else if f.Varint? && f.number == 3 then Set(k.(dir := ToInt32(f.value)))
      else if f.Fixed32? && f.number == 4 then Set(k.(posx := f.bits))
      else if f.Fixed32? && f.number == 5 then Set(k.(posy := f.bits))
      else if f.Varint? && f.number == 6 then Set(k.(needsync := f.value != 0))
      else Unusual
    }

    /** The fields it has in common with `C_Move`, under the same numbers. */
    function Shared(): ClientMove { ClientMove(objectid, movestate, dir, posx, posy) }

    function Declared(): seq<Field> { Shared().Declared() + Optional(needsync, Varint(6, 1)) }

    function Merge(from: ServerMove): ServerMove {
      ServerMove(if from.objectid != 0 then from.objectid else objectid,
                 if from.movestate != 0 then from.movestate else movestate,
                 if from.dir != 0 then from.dir else dir,
                 if from.posx != 0 then from.posx else posx,
                 if from.posy != 0 then from.posy else posy,
                 if from.needsync then from.needsync else needsync)
    }
  }

  type ServerMoveMessage = Message<ServerMove>

  const EMPTY_SERVER_MOVE := Message(ServerMove(0, 0, 0, 0, 0, false), [])

  function WriteServerMove(m: ServerMoveMessage): seq<byte> { Write(m.body.Declared(), m.unknown) }

  function MergeServerMove(a: ServerMoveMessage, b: ServerMoveMessage): ServerMoveMessage {
    Message(a.body.Merge(b.body), a.unknown + b.unknown)
  }
}
