/** Every message byte by byte: the key of each field, what it sets when it is read, and where and when it is
    written. */
module MessageLayout {
  import opened Wrappers
  import opened Wire
  import opened Parsing
  import opened Struct
  import opened Protocol
  import opened Output
  import opened WireLayout

  /** A varint field behind its key, unless it is zero. */
  function VarintBytes(key: byte, v: uint64): seq<byte> { if v != 0 then [key] + EncodeVarint(v) else [] }

  /** A float behind its key, unless all its bits are zero. */
  function FloatBytes(key: byte, bits: uint32): seq<byte> { if bits != 0 then [key] + LittleEndian(bits, 4) else [] }

  /** A submessage or a packed list behind its key and its length. */
  function LengthBytes(key: byte, p: seq<byte>): seq<byte> { [key] + EncodeVarint(|p|) + p }

  //
  // Any message
  //

  lemma OptionalVarint(n: nat, v: uint64)
    requires n < 16
    ensures EncodeFields(Optional(v != 0, Varint(n, v))) == VarintBytes(8 * n, v)
  {
    EncodeNothing();
    EncodeSingle(Varint(n, v));
  }

  lemma OptionalFloat(n: nat, bits: uint32)
    requires n < 15
    ensures EncodeFields(Optional(bits != 0, Fixed32(n, bits))) == FloatBytes(8 * n + 5, bits)
  {
    EncodeNothing();
    EncodeSingle(Fixed32(n, bits));
  }

  lemma LengthIs(n: nat, p: seq<byte>)
    requires n < 15
    ensures EncodeField(Length(n, p)) == LengthBytes(8 * n + 2, p)
  {
    assert EncodePayload(Length(n, p)) == EncodeVarint(|p|) + p;
    assert [8 * n + 2] + (EncodeVarint(|p|) + p) == LengthBytes(8 * n + 2, p);
  }

  lemma ReadsVarint<K>(accept: (K, Field) -> Effect<K>, m: Message<K>, n: nat, v: uint64, s: seq<byte>, depth: nat)
    requires 1 <= n < 16 && accept(m.body, Varint(n, v)).Set?
    ensures Parse(accept, m, [8 * n] + EncodeVarint(v) + s, depth)
         == Parse(accept, m.(body := accept(m.body, Varint(n, v)).body), s, depth)
  {
    FieldRead(accept, m, Varint(n, v), s, depth);
    assert EncodeField(Varint(n, v)) == [8 * n] + EncodeVarint(v);
  }

  lemma ReadsFloat<K>(accept: (K, Field) -> Effect<K>, m: Message<K>, n: nat, bits: uint32, s: seq<byte>, depth: nat)
    requires 1 <= n < 15 && accept(m.body, Fixed32(n, bits)).Set?
    ensures Parse(accept, m, [8 * n + 5] + LittleEndian(bits, 4) + s, depth)
         == Parse(accept, m.(body := accept(m.body, Fixed32(n, bits)).body), s, depth)
  {
    FieldRead(accept, m, Fixed32(n, bits), s, depth);
    assert EncodeField(Fixed32(n, bits)) == [8 * n + 5] + LittleEndian(bits, 4);
  }

  lemma ReadsLength<K>(accept: (K, Field) -> Effect<K>, m: Message<K>, n: nat, p: seq<byte>, s: seq<byte>, depth: nat)
    requires 1 <= n < 15 && |p| <= MAX_PAYLOAD && !accept(m.body, Length(n, p)).Unusual?
    ensures Parse(accept, m, LengthBytes(8 * n + 2, p) + s, depth) ==
            var effect := accept(m.body, Length(n, p));
            if effect.Set? then Parse(accept, m.(body := effect.body), s, depth) else Failed
  {
    FieldRead(accept, m, Length(n, p), s, depth);
    LengthIs(n, p);
  }

  //
  // DestroyedBlockInfo, TileInfo, PlayerInfo
  //

  lemma BlockWritten(m: BlockInfo)
    ensures WriteBlock(m)
         == VarintBytes(8, m.body.blockid) + VarintBytes(16, m.body.itemid) + EncodeFields(m.unknown)
  {
    var b := m.body;
    EncodeFieldsConcat(b.Declared(), m.unknown);
    EncodeFieldsConcat(Optional(b.blockid != 0, Varint(1, b.blockid)), Optional(b.itemid != 0, Varint(2, b.itemid)));
    OptionalVarint(1, b.blockid);
    OptionalVarint(2, b.itemid);
  }

  lemma BlockRead(m: BlockInfo, v: uint64, s: seq<byte>)
    ensures Parse(Block.Accept, m, [8] + EncodeVarint(v) + s, NESTED_DEPTH)
         == Parse(Block.Accept, m.(body := m.body.(blockid := v)), s, NESTED_DEPTH)
    ensures Parse(Block.Accept, m, [16] + EncodeVarint(v) + s, NESTED_DEPTH)
         == Parse(Block.Accept, m.(body := m.body.(itemid := v)), s, NESTED_DEPTH)
  {
    hide Parse, EncodeVarint;
    ReadsVarint(Block.Accept, m, 1, v, s, NESTED_DEPTH);
    ReadsVarint(Block.Accept, m, 2, v, s, NESTED_DEPTH);
  }

  lemma BlockKnows(k: Block, f: Field)
    ensures Block.Accept(k, f).Unusual? <==> f.Tag() != 8 && f.Tag() != 16
  {
  }

  lemma TileWritten(m: TileInfo)
    ensures WriteTile(m)
         == VarintBytes(8, m.body.objectid) + VarintBytes(16, SignExtend(m.body.mapobjecttype))
            + VarintBytes(24, SignExtend(m.body.detailedtype)) + EncodeFields(m.unknown)
  {
    hide VarintBytes, EncodeFields;
    var b := m.body;
    var f1 := Optional(b.objectid != 0, Varint(1, b.objectid));
    var f2 := Optional(b.mapobjecttype != 0, Varint(2, SignExtend(b.mapobjecttype)));
    var f3 := Optional(b.detailedtype != 0, Varint(3, SignExtend(b.detailedtype)));
    EncodeFieldsConcat(b.Declared(), m.unknown);
    EncodeFieldsConcat(f1 + f2, f3);
    EncodeFieldsConcat(f1, f2);
    OptionalVarint(1, b.objectid);
    OptionalVarint(2, SignExtend(b.mapobjecttype));
    OptionalVarint(3, SignExtend(b.detailedtype));
  }

  lemma TileRead(m: TileInfo, v: uint64, s: seq<byte>)
    ensures Parse(Tile.Accept, m, [8] + EncodeVarint(v) + s, NESTED_DEPTH)
         == Parse(Tile.Accept, m.(body := m.body.(objectid := v)), s, NESTED_DEPTH)
    ensures Parse(Tile.Accept, m, [16] + EncodeVarint(v) + s, NESTED_DEPTH)
         == Parse(Tile.Accept, m.(body := m.body.(mapobjecttype := ToInt32(v))), s, NESTED_DEPTH)
    ensures Parse(Tile.Accept, m, [24] + EncodeVarint(v) + s, NESTED_DEPTH)
         == Parse(Tile.Accept, m.(body := m.body.(detailedtype := ToInt32(v))), s, NESTED_DEPTH)
  {
    hide Parse, EncodeVarint, ToInt32;
    ReadsVarint(Tile.Accept, m, 1, v, s, NESTED_DEPTH);
    ReadsVarint(Tile.Accept, m, 2, v, s, NESTED_DEPTH);
    ReadsVarint(Tile.Accept, m, 3, v, s, NESTED_DEPTH);
  }

  lemma TileKnows(k: Tile, f: Field)
    ensures Tile.Accept(k, f).Unusual? <==> f.Tag() != 8 && f.Tag() != 16 && f.Tag() != 24
  {
  }

  lemma PlayerWritten(m: PlayerInfo)
    ensures WritePlayer(m)
         == VarintBytes(8, m.body.objectid) + FloatBytes(21, m.body.posx) + FloatBytes(29, m.body.posy)
            + VarintBytes(32, SignExtend(m.body.mainstate)) + VarintBytes(40, SignExtend(m.body.dir))
            + EncodeFields(m.unknown)
  {
    hide VarintBytes, FloatBytes, EncodeFields;
    var b := m.body;
    var f1, f2 := Optional(b.objectid != 0, Varint(1, b.objectid)), Optional(b.posx != 0, Fixed32(2, b.posx));
    var f3 := Optional(b.posy != 0, Fixed32(3, b.posy));
    var f4 := Optional(b.mainstate != 0, Varint(4, SignExtend(b.mainstate)));
    var f5 := Optional(b.dir != 0, Varint(5, SignExtend(b.dir)));
    EncodeFieldsConcat(b.Declared(), m.unknown);
    EncodeFieldsConcat(f1 + f2 + f3 + f4, f5);
    EncodeFieldsConcat(f1 + f2 + f3, f4);
    EncodeFieldsConcat(f1 + f2, f3);
    EncodeFieldsConcat(f1, f2);
    OptionalVarint(1, b.objectid);
    OptionalFloat(2, b.posx);
    OptionalFloat(3, b.posy);
    OptionalVarint(4, SignExtend(b.mainstate));
    OptionalVarint(5, SignExtend(b.dir));
  }

  lemma PlayerRead(m: PlayerInfo, v: uint64, bits: uint32, s: seq<byte>)
    ensures Parse(Player.Accept, m, [8] + EncodeVarint(v) + s, NESTED_DEPTH)
         == Parse(Player.Accept, m.(body := m.body.(objectid := v)), s, NESTED_DEPTH)
    ensures Parse(Player.Accept, m, [21] + LittleEndian(bits, 4) + s, NESTED_DEPTH)
         == Parse(Player.Accept, m.(body := m.body.(posx := bits)), s, NESTED_DEPTH)
    ensures Parse(Player.Accept, m, [29] + LittleEndian(bits, 4) + s, NESTED_DEPTH)
         == Parse(Player.Accept, m.(body := m.body.(posy := bits)), s, NESTED_DEPTH)
    ensures Parse(Player.Accept, m, [32] + EncodeVarint(v) + s, NESTED_DEPTH)
         == Parse(Player.Accept, m.(body := m.body.(mainstate := ToInt32(v))), s, NESTED_DEPTH)
    ensures Parse(Player.Accept, m, [40] + EncodeVarint(v) + s, NESTED_DEPTH)
         == Parse(Player.Accept, m.(body := m.body.(dir := ToInt32(v))), s, NESTED_DEPTH)
  {
    hide Parse, EncodeVarint, LittleEndian, ToInt32;
    ReadsVarint(Player.Accept, m, 1, v, s, NESTED_DEPTH);
    ReadsFloat(Player.Accept, m, 2, bits, s, NESTED_DEPTH);
    ReadsFloat(Player.Accept, m, 3, bits, s, NESTED_DEPTH);
    ReadsVarint(Player.Accept, m, 4, v, s, NESTED_DEPTH);
    ReadsVarint(Player.Accept, m, 5, v, s, NESTED_DEPTH);
  }

  lemma PlayerKnows(k: Player, f: Field)
    ensures Player.Accept(k, f).Unusual? <==>
              f.Tag() != 8 && f.Tag() != 21 && f.Tag() != 29 && f.Tag() != 32 && f.Tag() != 40
  {
  }

  //
  // S_Explode
  //

  function BlocksBytes(bs: seq<BlockInfo>): seq<byte> {
    if bs == [] then [] else LengthBytes(50, WriteBlock(bs[0])) + BlocksBytes(bs[1..])
  }

  lemma {:induction false} BlocksWritten(bs: seq<BlockInfo>)
    ensures EncodeFields(BlockRecords(bs)) == BlocksBytes(bs)
  {
    hide WriteBlock, LengthBytes, EncodeField;
    if bs == [] {
    } else {
      var f := Length(6, WriteBlock(bs[0]));
      assert BlockRecords(bs)[0] == f && BlockRecords(bs)[1..] == BlockRecords(bs[1..]);
      LengthIs(6, WriteBlock(bs[0]));
      BlocksWritten(bs[1..]);
    }
  }

  lemma ExplodeScalarsWritten(b: Explode)
    ensures EncodeFields(b.Scalars())
         == VarintBytes(8, b.objectid) + VarintBytes(16, SignExtend(b.up)) + VarintBytes(24, SignExtend(b.down))
            + VarintBytes(32, SignExtend(b.left)) + VarintBytes(40, SignExtend(b.right))
  {
    hide VarintBytes, EncodeFields;
    var f1 := Optional(b.objectid != 0, Varint(1, b.objectid));
    var f2 := Optional(b.up != 0, Varint(2, SignExtend(b.up)));
    var f3 := Optional(b.down != 0, Varint(3, SignExtend(b.down)));
    var f4 := Optional(b.left != 0, Varint(4, SignExtend(b.left)));
    var f5 := Optional(b.right != 0, Varint(5, SignExtend(b.right)));
    EncodeFieldsConcat(f1 + f2 + f3 + f4, f5);
    EncodeFieldsConcat(f1 + f2 + f3, f4);
    EncodeFieldsConcat(f1 + f2, f3);
    EncodeFieldsConcat(f1, f2);
    OptionalVarint(1, b.objectid);
    OptionalVarint(2, SignExtend(b.up));
    OptionalVarint(3, SignExtend(b.down));
    OptionalVarint(4, SignExtend(b.left));
    OptionalVarint(5, SignExtend(b.right));
  }

  /** The bytes of every `S_Explode`, in order. */
  lemma ExplodeWritten(m: ExplodeMessage)
    ensures var b := m.body;
            WriteExplode(m)
            == VarintBytes(8, b.objectid) + VarintBytes(16, SignExtend(b.up)) + VarintBytes(24, SignExtend(b.down))
               + VarintBytes(32, SignExtend(b.left)) + VarintBytes(40, SignExtend(b.right))
               + BlocksBytes(b.blocks) + (if b.ids == [] then [] else LengthBytes(66, PackVarints(b.ids)))
               + EncodeFields(m.unknown)
  {
    hide VarintBytes, EncodeFields, Explode.Scalars, BlockRecords, BlocksBytes, EncodeField, LengthBytes;
    var b := m.body;
    var packed := Length(8, PackVarints(b.ids));
    EncodeFieldsConcat(b.Declared(), m.unknown);
    EncodeFieldsConcat(b.Scalars() + BlockRecords(b.blocks), Optional(b.ids != [], packed));
    EncodeFieldsConcat(b.Scalars(), BlockRecords(b.blocks));
    ExplodeScalarsWritten(b);
    BlocksWritten(b.blocks);
    EncodeNothing();
    EncodeSingle(packed);
    LengthIs(8, PackVarints(b.ids));
  }

  /** What each key of an `S_Explode` sets, in front of any input. */
  lemma ExplodeRead(m: ExplodeMessage, v: uint64, s: seq<byte>)
    ensures Parse(Explode.Accept, m, [8] + EncodeVarint(v) + s, TOP_DEPTH)
         == Parse(Explode.Accept, m.(body := m.body.(objectid := v)), s, TOP_DEPTH)
    ensures Parse(Explode.Accept, m, [16] + EncodeVarint(v) + s, TOP_DEPTH)
         == Parse(Explode.Accept, m.(body := m.body.(up := ToInt32(v))), s, TOP_DEPTH)
    ensures Parse(Explode.Accept, m, [24] + EncodeVarint(v) + s, TOP_DEPTH)
         == Parse(Explode.Accept, m.(body := m.body.(down := ToInt32(v))), s, TOP_DEPTH)
    ensures Parse(Explode.Accept, m, [32] + EncodeVarint(v) + s, TOP_DEPTH)
         == Parse(Explode.Accept, m.(body := m.body.(left := ToInt32(v))), s, TOP_DEPTH)
    ensures Parse(Explode.Accept, m, [40] + EncodeVarint(v) + s, TOP_DEPTH)
         == Parse(Explode.Accept, m.(body := m.body.(right := ToInt32(v))), s, TOP_DEPTH)
    ensures Parse(Explode.Accept, m, [64] + EncodeVarint(v) + s, TOP_DEPTH)
         == Parse(Explode.Accept, m.(body := m.body.(ids := m.body.ids + [v])), s, TOP_DEPTH)
  {
    hide Parse, EncodeVarint, ToInt32;
    ReadsVarint(Explode.Accept, m, 1, v, s, TOP_DEPTH);
    ReadsVarint(Explode.Accept, m, 2, v, s, TOP_DEPTH);
    ReadsVarint(Explode.Accept, m, 3, v, s, TOP_DEPTH);
    ReadsVarint(Explode.Accept, m, 4, v, s, TOP_DEPTH);
    ReadsVarint(Explode.Accept, m, 5, v, s, TOP_DEPTH);
    ReadsVarint(Explode.Accept, m, 8, v, s, TOP_DEPTH);
  }

  /** Four bytes: up is 2 and down is 5. */
  lemma FourBytesRead()
    ensures Parse(Explode.Accept, EMPTY_EXPLODE, [0x10, 0x02, 0x18, 0x05], TOP_DEPTH)
         == Done(Message(Explode(0, 2, 5, 0, 0, [], []), []))
  {
    hide Parse;
    ExplodeRead(EMPTY_EXPLODE, 2, [0x18, 0x05]);
    ExplodeRead(EMPTY_EXPLODE.(body := EMPTY_EXPLODE.body.(up := 2)), 5, []);
    assert [16] + EncodeVarint(2) + [0x18, 0x05] == [0x10, 0x02, 0x18, 0x05];
    assert [24] + EncodeVarint(5) + [] == [0x18, 0x05];
    ParseNothing(EMPTY_EXPLODE.(body := Explode(0, 2, 5, 0, 0, [], [])));
  }

  lemma ParseNothing(m: ExplodeMessage)
    ensures Parse(Explode.Accept, m, [], TOP_DEPTH) == Done(m)
  {
  }

  /** The two keys with a length: a block of its own, read from nothing, and a packed list of ids.  One that is
      malformed, or ends too soon, makes the whole parse fail. */
  lemma ExplodeListsRead(m: ExplodeMessage, p: seq<byte>, s: seq<byte>)
    requires |p| <= MAX_PAYLOAD
    ensures Parse(Explode.Accept, m, LengthBytes(50, p) + s, TOP_DEPTH) ==
            var block := Parse(Block.Accept, EMPTY_BLOCK, p, NESTED_DEPTH);
            if !block.Done? then Failed
            else Parse(Explode.Accept, m.(body := m.body.(blocks := m.body.blocks + [block.msg])), s, TOP_DEPTH)
    ensures Parse(Explode.Accept, m, LengthBytes(66, p) + s, TOP_DEPTH) ==
            var more := UnpackVarints(p);
            if more.None? then Failed
            else Parse(Explode.Accept, m.(body := m.body.(ids := m.body.ids + more.value)), s, TOP_DEPTH)
  {
    hide Parse, LengthBytes;
    ReadsLength(Explode.Accept, m, 6, p, s, TOP_DEPTH);
    ReadsLength(Explode.Accept, m, 8, p, s, TOP_DEPTH);
  }

  lemma UnpackFirst(v: uint64, rest: seq<byte>)
    ensures UnpackVarints(EncodeVarint(v) + rest) ==
            match UnpackVarints(rest) case None => None case Some(more) => Some([v] + more)
  {
    hide EncodeVarint, ReadVarint64;
    var e := EncodeVarint(v);
    ReadVarintEncoded(v, rest);
    assert (e + rest)[|e|..] == rest;
  }

  /** A packed list is the ids' varints one behind the other; anything else at its end makes it no list. */
  lemma {:induction false} UnpackBehind(ids: seq<uint64>, p: seq<byte>)
    ensures UnpackVarints(PackVarints(ids) + p) ==
            match UnpackVarints(p) case None => None case Some(more) => Some(ids + more)
    ensures p != [] && ReadVarint64(p).None? ==> UnpackVarints(PackVarints(ids) + p) == None
  {
    hide EncodeVarint, ReadVarint64;
    var more := UnpackVarints(p);
    if ids == [] {
      assert [] + p == p;
      if more.Some? { assert [] + more.value == more.value; }
    } else {
      UnpackBehind(ids[1..], p);
      UnpackFirst(ids[0], PackVarints(ids[1..]) + p);
      Associate(EncodeVarint(ids[0]), PackVarints(ids[1..]), p);
      if more.Some? { assert [ids[0]] + (ids[1..] + more.value) == ids + more.value; }
    }
  }

  lemma ExplodeKnows(k: Explode, f: Field)
    ensures Explode.Accept(k, f).Unusual? <==>
              && f.Tag() != 8 && f.Tag() != 16 && f.Tag() != 24 && f.Tag() != 32 && f.Tag() != 40
              && f.Tag() != 50 && f.Tag() != 64 && f.Tag() != 66
  {
    hide Parse;
  }

  //
  // S_Tilemap
  //

  function TilesBytes(ts: seq<TileInfo>): seq<byte> {
    if ts == [] then [] else LengthBytes(26, WriteTile(ts[0])) + TilesBytes(ts[1..])
  }

  lemma {:induction false} TilesWritten(ts: seq<TileInfo>)
    ensures EncodeFields(TileRecords(ts)) == TilesBytes(ts)
  {
    hide WriteTile, LengthBytes, EncodeField;
    if ts == [] {
    } else {
      var f := Length(3, WriteTile(ts[0]));
      assert TileRecords(ts)[0] == f && TileRecords(ts)[1..] == TileRecords(ts[1..]);
      LengthIs(3, WriteTile(ts[0]));
      TilesWritten(ts[1..]);
    }
  }

  lemma TilemapWritten(m: TilemapMessage)
    ensures WriteTilemap(m)
         == VarintBytes(8, SignExtend(m.body.mapsizex)) + VarintBytes(16, SignExtend(m.body.mapsizey))
            + TilesBytes(m.body.infos) + EncodeFields(m.unknown)
  {
    hide VarintBytes, EncodeFields, TileRecords, TilesBytes;
    var b := m.body;
    var f1 := Optional(b.mapsizex != 0, Varint(1, SignExtend(b.mapsizex)));
    var f2 := Optional(b.mapsizey != 0, Varint(2, SignExtend(b.mapsizey)));
    EncodeFieldsConcat(b.Declared(), m.unknown);
    EncodeFieldsConcat(f1 + f2, TileRecords(b.infos));
    EncodeFieldsConcat(f1, f2);
    OptionalVarint(1, SignExtend(b.mapsizex));
    OptionalVarint(2, SignExtend(b.mapsizey));
    TilesWritten(b.infos);
  }

  lemma TilemapRead(m: TilemapMessage, v: uint64, p: seq<byte>, s: seq<byte>)
    requires |p| <= MAX_PAYLOAD
    ensures Parse(Tilemap.Accept, m, [8] + EncodeVarint(v) + s, TOP_DEPTH)
         == Parse(Tilemap.Accept, m.(body := m.body.(mapsizex := ToInt32(v))), s, TOP_DEPTH)
    ensures Parse(Tilemap.Accept, m, [16] + EncodeVarint(v) + s, TOP_DEPTH)
         == Parse(Tilemap.Accept, m.(body := m.body.(mapsizey := ToInt32(v))), s, TOP_DEPTH)
    ensures Parse(Tilemap.Accept, m, LengthBytes(26, p) + s, TOP_DEPTH) ==
            var tile := Parse(Tile.Accept, EMPTY_TILE, p, NESTED_DEPTH);
            if !tile.Done? then Failed
            else Parse(Tilemap.Accept, m.(body := m.body.(infos := m.body.infos + [tile.msg])), s, TOP_DEPTH)
  {
    hide Parse, EncodeVarint, ToInt32, LengthBytes;
    ReadsVarint(Tilemap.Accept, m, 1, v, s, TOP_DEPTH);
    ReadsVarint(Tilemap.Accept, m, 2, v, s, TOP_DEPTH);
    ReadsLength(Tilemap.Accept, m, 3, p, s, TOP_DEPTH);
  }

  lemma TilemapKnows(k: Tilemap, f: Field)
    ensures Tilemap.Accept(k, f).Unusual? <==> f.Tag() != 8 && f.Tag() != 16 && f.Tag() != 26
  {
    hide Parse;
  }

  //
  // S_MyPlayer
  //

  lemma MyPlayerWritten(m: MyPlayerMessage)
    ensures WriteMyPlayer(m)
         == (if m.body.info.None? then [] else LengthBytes(10, WritePlayer(m.body.info.value)))
            + EncodeFields(m.unknown)
  {
    EncodeFieldsConcat(m.body.Declared(), m.unknown);
    EncodeNothing();
    if m.body.info.Some? {
      EncodeSingle(Length(1, WritePlayer(m.body.info.value)));
      LengthIs(1, WritePlayer(m.body.info.value));
    }
  }

  /** The submessage is read into the one that is there, or into an empty one. */
  lemma MyPlayerRead(m: MyPlayerMessage, p: seq<byte>, s: seq<byte>)
    requires |p| <= MAX_PAYLOAD
    ensures Parse(MyPlayer.Accept, m, LengthBytes(10, p) + s, TOP_DEPTH) ==
            var there := if m.body.info.Some? then m.body.info.value else EMPTY_PLAYER;
            var info := Parse(Player.Accept, there, p, NESTED_DEPTH);
            if !info.Done? then Failed
            else Parse(MyPlayer.Accept, m.(body := MyPlayer(Some(info.msg))), s, TOP_DEPTH)
  {
    hide Parse, LengthBytes;
    ReadsLength(MyPlayer.Accept, m, 1, p, s, TOP_DEPTH);
  }

  lemma MyPlayerKnows(k: MyPlayer, f: Field)
    ensures MyPlayer.Accept(k, f).Unusual? <==> f.Tag() != 10
  {
    hide Parse;
  }

  //
  // C_Move and S_Move
  //

  lemma ClientMoveBytes(b: ClientMove)
    ensures EncodeFields(b.Declared())
         == VarintBytes(8, b.objectid) + VarintBytes(16, b.movestate) + VarintBytes(24, SignExtend(b.dir))
            + FloatBytes(37, b.posx) + FloatBytes(45, b.posy)
  {
    hide VarintBytes, FloatBytes, EncodeFields;
    var f1, f2 := Optional(b.objectid != 0, Varint(1, b.objectid)), Optional(b.movestate != 0, Varint(2, b.movestate));
    var f3 := Optional(b.dir != 0, Varint(3, SignExtend(b.dir)));
    var f4, f5 := Optional(b.posx != 0, Fixed32(4, b.posx)), Optional(b.posy != 0, Fixed32(5, b.posy));
    EncodeFieldsConcat(f1 + f2 + f3 + f4, f5);
    EncodeFieldsConcat(f1 + f2 + f3, f4);
    EncodeFieldsConcat(f1 + f2, f3);
    EncodeFieldsConcat(f1, f2);
    OptionalVarint(1, b.objectid);
    OptionalVarint(2, b.movestate);
    OptionalVarint(3, SignExtend(b.dir));
    OptionalFloat(4, b.posx);
    OptionalFloat(5, b.posy);
  }

  lemma ClientMoveWritten(m: ClientMoveMessage)
    ensures var b := m.body;
            WriteClientMove(m)
            == VarintBytes(8, b.objectid) + VarintBytes(16, b.movestate) + VarintBytes(24, SignExtend(b.dir))
               + FloatBytes(37, b.posx) + FloatBytes(45, b.posy) + EncodeFields(m.unknown)
  {
    EncodeFieldsConcat(m.body.Declared(), m.unknown);
    ClientMoveBytes(m.body);
  }

  /** The flag is written as one, or not at all. */
  lemma ServerMoveWritten(m: ServerMoveMessage)
    ensures var b := m.body;
            WriteServerMove(m)
            == VarintBytes(8, b.objectid) + VarintBytes(16, b.movestate) + VarintBytes(24, SignExtend(b.dir))
               + FloatBytes(37, b.posx) + FloatBytes(45, b.posy) + (if b.needsync then [48, 1] else [])
               + EncodeFields(m.unknown)
  {
    hide VarintBytes, FloatBytes, EncodeFields, ClientMove.Declared;
    var b := m.body;
    EncodeFieldsConcat(b.Declared(), m.unknown);
    EncodeFieldsConcat(b.Shared().Declared(), Optional(b.needsync, Varint(6, 1)));
    ClientMoveBytes(b.Shared());
    EncodeNothing();
    EncodeSingle(Varint(6, 1));
    FlagIs();
  }

  lemma FlagIs()
    ensures EncodeField(Varint(6, 1)) == [48, 1]
  {
  }

  lemma ClientMoveRead(m: ClientMoveMessage, v: uint64, bits: uint32, s: seq<byte>)
    ensures Parse(ClientMove.Accept, m, [8] + EncodeVarint(v) + s, TOP_DEPTH)
         == Parse(ClientMove.Accept, m.(body := m.body.(objectid := v)), s, TOP_DEPTH)
    ensures Parse(ClientMove.Accept, m, [16] + EncodeVarint(v) + s, TOP_DEPTH)
         == Parse(ClientMove.Accept, m.(body := m.body.(movestate := v % TWO32)), s, TOP_DEPTH)
    ensures Parse(ClientMove.Accept, m, [24] + EncodeVarint(v) + s, TOP_DEPTH)
         == Parse(ClientMove.Accept, m.(body := m.body.(dir := ToInt32(v))), s, TOP_DEPTH)
    ensures Parse(ClientMove.Accept, m, [37] + LittleEndian(bits, 4) + s, TOP_DEPTH)
         == Parse(ClientMove.Accept, m.(body := m.body.(posx := bits)), s, TOP_DEPTH)
    ensures Parse(ClientMove.Accept, m, [45] + LittleEndian(bits, 4) + s, TOP_DEPTH)
         == Parse(ClientMove.Accept, m.(body := m.body.(posy := bits)), s, TOP_DEPTH)
  {
    hide Parse, EncodeVarint, LittleEndian, ToInt32;
    ReadsVarint(ClientMove.Accept, m, 1, v, s, TOP_DEPTH);
    ReadsVarint(ClientMove.Accept, m, 2, v, s, TOP_DEPTH);
    ReadsVarint(ClientMove.Accept, m, 3, v, s, TOP_DEPTH);
    ReadsFloat(ClientMove.Accept, m, 4, bits, s, TOP_DEPTH);
    ReadsFloat(ClientMove.Accept, m, 5, bits, s, TOP_DEPTH);
  }

  lemma ClientMoveKnows(k: ClientMove, f: Field)
    ensures ClientMove.Accept(k, f).Unusual? <==>
              f.Tag() != 8 && f.Tag() != 16 && f.Tag() != 24 && f.Tag() != 37 && f.Tag() != 45
  {
  }

  lemma ServerMoveRead(m: ServerMoveMessage, v: uint64, bits: uint32, s: seq<byte>)
    ensures Parse(ServerMove.Accept, m, [8] + EncodeVarint(v) + s, TOP_DEPTH)
         == Parse(ServerMove.Accept, m.(body := m.body.(objectid := v)), s, TOP_DEPTH)
    ensures Parse(ServerMove.Accept, m, [16] + EncodeVarint(v) + s, TOP_DEPTH)
         == Parse(ServerMove.Accept, m.(body := m.body.(movestate := v % TWO32)), s, TOP_DEPTH)
    ensures Parse(ServerMove.Accept, m, [24] + EncodeVarint(v) + s, TOP_DEPTH)
         == Parse(ServerMove.Accept, m.(body := m.body.(dir := ToInt32(v))), s, TOP_DEPTH)
    ensures Parse(ServerMove.Accept, m, [37] + LittleEndian(bits, 4) + s, TOP_DEPTH)
         == Parse(ServerMove.Accept, m.(body := m.body.(posx := bits)), s, TOP_DEPTH)
    ensures Parse(ServerMove.Accept, m, [45] + LittleEndian(bits, 4) + s, TOP_DEPTH)
         == Parse(ServerMove.Accept, m.(body := m.body.(posy := bits)), s, TOP_DEPTH)
    ensures Parse(ServerMove.Accept, m, [48] + EncodeVarint(v) + s, TOP_DEPTH)
         == Parse(ServerMove.Accept, m.(body := m.body.(needsync := v != 0)), s, TOP_DEPTH)
  {
    hide Parse, EncodeVarint, LittleEndian, ToInt32;
    ReadsVarint(ServerMove.Accept, m, 1, v, s, TOP_DEPTH);
    ReadsVarint(ServerMove.Accept, m, 2, v, s, TOP_DEPTH);
    ReadsVarint(ServerMove.Accept, m, 3, v, s, TOP_DEPTH);
    ReadsFloat(ServerMove.Accept, m, 4, bits, s, TOP_DEPTH);
    ReadsFloat(ServerMove.Accept, m, 5, bits, s, TOP_DEPTH);
    ReadsVarint(ServerMove.Accept, m, 6, v, s, TOP_DEPTH);
  }

  lemma ServerMoveKnows(k: ServerMove, f: Field)
    ensures ServerMove.Accept(k, f).Unusual? <==>
              f.Tag() != 8 && f.Tag() != 16 && f.Tag() != 24 && f.Tag() != 37 && f.Tag() != 45 && f.Tag() != 48
  {
  }
}
