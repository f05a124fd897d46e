/** Frames: a header of a 16-bit size and a 16-bit id in front of a message body, and the table that
    routes a frame to the handler of its type. */
module Framing {
  import opened Wrappers
  import opened Wire
  import opened Parsing
  import opened Protocol
  import opened ProtocolTheorems
  import opened Output
  import opened ExplodeTheorems

  const HEADER_SIZE := 4
  const TWO16 := 0x1_0000

  datatype Kind = ExplodeKind | TilemapKind | MyPlayerKind | ServerMoveKind | ClientMoveKind {
    /** `PacketIdType<T>::value`. */
    function Id(): (id: nat)
      ensures id < 0xFFFF
    {
      match this
      case MyPlayerKind => 11
      case ClientMoveKind => 14
      case ServerMoveKind => 15
      case TilemapKind => 16
      case ExplodeKind => 19
    }
  }

  datatype Packet =
    | ExplodePacket(explode: ExplodeMessage)
    | TilemapPacket(tilemap: TilemapMessage)
    | MyPlayerPacket(myPlayer: MyPlayerMessage)
    | ServerMovePacket(serverMove: ServerMoveMessage)
    | ClientMovePacket(clientMove: ClientMoveMessage)
  {
    function Kind(): Kind {
      match this
      case ExplodePacket(_) => ExplodeKind
      case TilemapPacket(_) => TilemapKind
      case MyPlayerPacket(_) => MyPlayerKind
      case ServerMovePacket(_) => ServerMoveKind
      case ClientMovePacket(_) => ClientMoveKind
    }

    function Bytes(): seq<byte> {
      match this
      case ExplodePacket(m) => WriteExplode(m)
      case TilemapPacket(m) => WriteTilemap(m)
      case MyPlayerPacket(m) => WriteMyPlayer(m)
      case ServerMovePacket(m) => WriteServerMove(m)
      case ClientMovePacket(m) => WriteClientMove(m)
    }

    ghost predicate Writable() {
      match this
      case ExplodePacket(m) => WritableExplode(m)
      case TilemapPacket(m) => WritableTilemap(m)
      case MyPlayerPacket(m) => WritableMyPlayer(m)
      case ServerMovePacket(m) => Foreign(ServerMove.Accept, m.unknown, TOP_DEPTH)
      case ClientMovePacket(m) => Foreign(ClientMove.Accept, m.unknown, TOP_DEPTH)
    }
  }

  /** `ParseFromArray` into a fresh packet; only a parse that ends at the end of the body succeeds. */
  function ParsePacket(kind: Kind, body: seq<byte>): Option<Packet> {
    match kind
    case ExplodeKind =>
      (match Parse(Explode.Accept, EMPTY_EXPLODE, body, TOP_DEPTH)
       case Done(m) => Some(ExplodePacket(m))
       case _ => None)
    case TilemapKind =>
      (match Parse(Tilemap.Accept, EMPTY_TILEMAP, body, TOP_DEPTH)
       case Done(m) => Some(TilemapPacket(m))
       case _ => None)
    case MyPlayerKind =>
      (match Parse(MyPlayer.Accept, EMPTY_MY_PLAYER, body, TOP_DEPTH)
       case Done(m) => Some(MyPlayerPacket(m))
       case _ => None)
    case ServerMoveKind =>
      (match Parse(ServerMove.Accept, EMPTY_SERVER_MOVE, body, TOP_DEPTH)
       case Done(m) => Some(ServerMovePacket(m))
       case _ => None)
    case ClientMoveKind =>
      (match Parse(ClientMove.Accept, EMPTY_CLIENT_MOVE, body, TOP_DEPTH)
       case Done(m) => Some(ClientMovePacket(m))
       case _ => None)
  }

  lemma PacketRoundTrip(p: Packet)
    requires p.Writable()
    ensures ParsePacket(p.Kind(), p.Bytes()) == Some(p)
  {
    match p
    case ExplodePacket(m) => ExplodeRoundTrip(m);
    case TilemapPacket(m) => TilemapRoundTrip(m);
    case MyPlayerPacket(m) => MyPlayerRoundTrip(m);
    case ServerMovePacket(m) => ServerMoveRoundTrip(m);
    case ClientMovePacket(m) => ClientMoveRoundTrip(m);
  }

  //
  // MakeSendBuffer
  //

  /** The bytes of a send buffer.  Sizes are kept to 16 bits; `None` stands for a buffer shorter than
      the header that is written into it, and a body that does not fit its 16-bit size stays zero. */
  function Frame(p: Packet): Option<seq<byte>> {
    var dataSize := |p.Bytes()| % TWO16;
    var packetSize := (dataSize + HEADER_SIZE) % TWO16;
    if packetSize < HEADER_SIZE then None
    else Some(Layout(packetSize, p.Kind().Id(), if |p.Bytes()| <= dataSize then p.Bytes() else Zeros(dataSize)))
  }

  function Layout(size: nat, id: nat, body: seq<byte>): seq<byte> {
    LittleEndian(size, 2) + LittleEndian(id, 2) + body
  }

  function Zeros(n: nat): (s: seq<byte>)
    ensures |s| == n
  {
    seq(n, _ => 0)
  }

  /** `MakeSendBuffer`: allocates the buffer, writes the header into it, then the body behind it. */
  method MakeSendBuffer(p: Packet) returns (buffer: array?<byte>)
    ensures buffer != null ==> fresh(buffer) && Frame(p) == Some(buffer[..])
    ensures buffer == null ==> Frame(p) == None
  {
    hide LittleEndian, Packet.Bytes, Packet.Kind, Kind.Id;
    var bytes := p.Bytes();
    var dataSize := |bytes| % TWO16;
    var packetSize := (dataSize + HEADER_SIZE) % TWO16;
    if packetSize < HEADER_SIZE { return null; }
    buffer := new byte[packetSize](_ => 0);
    var end := PutBytes(buffer, 0, LittleEndian(packetSize, 2));
    end := PutBytes(buffer, end, LittleEndian(p.Kind().Id(), 2));
    ghost var header := buffer[..end];
    assert header == LittleEndian(packetSize, 2) + LittleEndian(p.Kind().Id(), 2);
    assert buffer[end..] == Zeros(dataSize);
    assert buffer[..] == header + buffer[end..];
    if |bytes| <= dataSize {
      end := PutBytes(buffer, end, bytes);
      assert buffer[..end] == buffer[..];
    }
  }

  //
  // HandlePacket
  //

  /** What handling a frame amounts to: nothing, or one call of the handler for `kind`.  The handler is
      called even when the body does not parse; the packet it then sees is not specified (`None`). */
  datatype Dispatch = Ignored | Called(kind: Kind, packet: Option<Packet>)

  function HeaderSize(frame: seq<byte>): nat
    requires |frame| >= HEADER_SIZE
  {
    FromLittleEndian(frame[..2])
  }

  function HeaderId(frame: seq<byte>): nat
    requires |frame| >= HEADER_SIZE
  {
    FromLittleEndian(frame[2..4])
  }

  /** A received frame: complete, at least as long as its header, with an id inside the table. */
  predicate ValidFrame(frame: seq<byte>) {
    |frame| >= HEADER_SIZE && HEADER_SIZE <= HeaderSize(frame) <= |frame| && HeaderId(frame) < 0xFFFF
  }

  function HandlePacket(table: map<nat, Kind>, frame: seq<byte>): Dispatch
    requires ValidFrame(frame)
  {
    var id := HeaderId(frame);
    if id in table then Called(table[id], ParsePacket(table[id], frame[HEADER_SIZE..HeaderSize(frame)]))
    else Ignored
  }

  /** Every handler is registered under the id of its own packet type. */
  predicate Registered(table: map<nat, Kind>) { forall id | id in table :: table[id].Id() == id }

  /** What the client and the server register, as far as modelled here. */
  const CLIENT_TABLE: map<nat, Kind> :=
    map[11 := MyPlayerKind, 15 := ServerMoveKind, 16 := TilemapKind, 19 := ExplodeKind]
  const SERVER_TABLE: map<nat, Kind> := map[14 := ClientMoveKind]

  lemma BothTablesRegistered()
    ensures Registered(CLIENT_TABLE) && Registered(SERVER_TABLE)
  {
    assert MyPlayerKind.Id() == 11 && ServerMoveKind.Id() == 15 && TilemapKind.Id() == 16 && ExplodeKind.Id() == 19;
    assert ClientMoveKind.Id() == 14;
  }

  lemma FrameLayout(p: Packet)
    requires Frame(p).Some?
    ensures ValidFrame(Frame(p).value)
    ensures HeaderId(Frame(p).value) == p.Kind().Id() && HeaderSize(Frame(p).value) == |Frame(p).value|
    ensures Frame(p).value[HEADER_SIZE..] ==
            if |p.Bytes()| < TWO16 then p.Bytes() else Zeros(|p.Bytes()| % TWO16)
  {
    hide LittleEndian, FromLittleEndian, Layout, Zeros, HeaderId, HeaderSize, Packet.Bytes;
    var dataSize := |p.Bytes()| % TWO16;
    LayoutParts(dataSize + HEADER_SIZE, p.Kind().Id(), if |p.Bytes()| <= dataSize then p.Bytes() else Zeros(dataSize));
  }

  /** The four header bytes on the wire: the length of the frame, then the id, low byte first. */
  lemma HeaderBytes(p: Packet)
    requires Frame(p).Some?
    ensures var f := Frame(p).value;
            && |f| >= HEADER_SIZE
            && f[0] == |f| % 256 && f[1] == |f| / 256 && |f| < TWO16
            && f[2] == (match p
                        case MyPlayerPacket(_) => 11
                        case ClientMovePacket(_) => 14
                        case ServerMovePacket(_) => 15
                        case TilemapPacket(_) => 16
                        case ExplodePacket(_) => 19)
            && f[3] == 0
  {
    hide LittleEndian, FromLittleEndian, Packet.Bytes, HeaderId, HeaderSize, Zeros;
    FrameLayout(p);
    var f := Frame(p).value;
    assert f[..2] == LittleEndian(|f|, 2) && f[2..4] == LittleEndian(p.Kind().Id(), 2);
    TwoBytes(|f|);
    TwoBytes(p.Kind().Id());
    assert f[0] == f[..2][0] && f[1] == f[..2][1] && f[2] == f[2..4][0] && f[3] == f[2..4][1];
  }

  lemma TwoBytes(v: nat)
    requires v < TWO16
    ensures LittleEndian(v, 2) == [v % 256, v / 256]
  {
    assert LittleEndian(v, 2) == [v % 256] + LittleEndian(v / 256, 1);
    assert LittleEndian(v / 256, 1) == [v / 256 % 256] + LittleEndian(v / 256 / 256, 0);
  }

  lemma LayoutParts(size: nat, id: nat, body: seq<byte>)
    requires size < TWO16 && id < TWO16
    ensures HeaderSize(Layout(size, id, body)) == size && HeaderId(Layout(size, id, body)) == id
    ensures Layout(size, id, body)[HEADER_SIZE..] == body && |Layout(size, id, body)| == HEADER_SIZE + |body|
  {
    hide LittleEndian, FromLittleEndian;
    Pow256Values();
    LittleEndianRoundTrip(size, 2);
    LittleEndianRoundTrip(id, 2);
    assert Layout(size, id, body)[..2] == LittleEndian(size, 2);
    assert Layout(size, id, body)[2..4] == LittleEndian(id, 2);
  }

  /** A body of zeros is the empty message or no message at all. */
  lemma ZerosDoNotParse(p: Packet, n: nat)
    requires |p.Bytes()| > n
    ensures ParsePacket(p.Kind(), Zeros(n)) != Some(p)
  {
    if n == 0 {
      assert Zeros(n) == [] && EncodeFields([]) == [];
    } else {
      match p
      case ExplodePacket(_) => ParseZero(Explode.Accept, EMPTY_EXPLODE, Zeros(n), TOP_DEPTH);
      case TilemapPacket(_) => ParseZero(Tilemap.Accept, EMPTY_TILEMAP, Zeros(n), TOP_DEPTH);
      case MyPlayerPacket(_) => ParseZero(MyPlayer.Accept, EMPTY_MY_PLAYER, Zeros(n), TOP_DEPTH);
      case ServerMovePacket(_) => ParseZero(ServerMove.Accept, EMPTY_SERVER_MOVE, Zeros(n), TOP_DEPTH);
      case ClientMovePacket(_) => ParseZero(ClientMove.Accept, EMPTY_CLIENT_MOVE, Zeros(n), TOP_DEPTH);
    }
  }

  /** A frame reaches the handler of its own type with the original message exactly when body and
      header together fit the 16-bit size. */
  lemma FrameDeliveredIff(table: map<nat, Kind>, p: Packet)
    requires Registered(table) && p.Writable() && p.Kind().Id() in table
    ensures (Frame(p).Some? && ValidFrame(Frame(p).value)
             && HandlePacket(table, Frame(p).value) == Called(p.Kind(), Some(p)))
       <==> |p.Bytes()| + HEADER_SIZE < TWO16
  {
    hide Frame, HeaderId, HeaderSize, Packet.Bytes, ParsePacket, Zeros, Packet.Writable;
    FrameExistsIff(p);
    if Frame(p).Some? {
      FrameLayout(p);
      var f := Frame(p).value;
      assert f[HEADER_SIZE..HeaderSize(f)] == f[HEADER_SIZE..];
      KindOfId(table, p.Kind());
      if |p.Bytes()| < TWO16 {
        PacketRoundTrip(p);
      } else {
        ZerosDoNotParse(p, |p.Bytes()| % TWO16);
      }
    }
  }

  lemma FrameExistsIff(p: Packet)
    ensures Frame(p).Some? <==> |p.Bytes()| % TWO16 + HEADER_SIZE < TWO16
    ensures |p.Bytes()| < TWO16 ==> |p.Bytes()| % TWO16 == |p.Bytes()|
  {
    hide Packet.Bytes, Layout, Zeros;
  }

  /** Bodies that are lost: of 65532 bytes, with no room left for the header, and of 65540, of which four
      zeros are sent. */
  lemma OversizedBodiesLost()
    ensures |ExplodePacket(ZeroIds(65528)).Bytes()| == 65532 && Frame(ExplodePacket(ZeroIds(65528))) == None
    ensures |ExplodePacket(ZeroIds(65536)).Bytes()| == 65540
    ensures var f := Frame(ExplodePacket(ZeroIds(65536)));
            f.Some? && f.value[HEADER_SIZE..] == Zeros(4)
  {
    hide WriteExplode, Layout, Zeros, ZeroIds, VarintSize;
    ThreeByteSize(65528);
    ThreeByteSize(65536);
    ZeroIdsSize(65528);
    ZeroIdsSize(65536);
    FrameExistsIff(ExplodePacket(ZeroIds(65528)));
    FrameExistsIff(ExplodePacket(ZeroIds(65536)));
    FrameLayout(ExplodePacket(ZeroIds(65536)));
  }

  lemma ThreeByteSize(n: nat)
    requires 0x4000 <= n < 0x20_0000
    ensures VarintSize(n) == 3
  {
    assert VarintSize(n) == 1 + VarintSize(n / 128) == 2 + VarintSize(n / 128 / 128);
  }

  lemma KindOfId(table: map<nat, Kind>, kind: Kind)
    requires Registered(table) && kind.Id() in table
    ensures table[kind.Id()] == kind
  {
    var k := table[kind.Id()];
    assert k.Id() == kind.Id();
  }

  /** What follows a frame in the stream is not looked at. */
  lemma FrameInStream(table: map<nat, Kind>, p: Packet, rest: seq<byte>)
    requires Frame(p).Some?
    ensures ValidFrame(Frame(p).value) && ValidFrame(Frame(p).value + rest)
    ensures HandlePacket(table, Frame(p).value + rest) == HandlePacket(table, Frame(p).value)
  {
    hide Frame, FromLittleEndian, ParsePacket;
    FrameLayout(p);
    var f := Frame(p).value;
    assert (f + rest)[..2] == f[..2] && (f + rest)[2..4] == f[2..4];
    assert (f + rest)[HEADER_SIZE..|f|] == f[HEADER_SIZE..|f|];
  }

  /** Bytes 2 and 3 alone decide which handler is called, if any; whether the body parses does not. */
  lemma HandlerCalledIff(table: map<nat, Kind>, frame: seq<byte>)
    requires ValidFrame(frame)
    ensures var id: int := frame[2] as int + 256 * frame[3] as int;
            if id in table then HandlePacket(table, frame).Called? && HandlePacket(table, frame).kind == table[id]
            else HandlePacket(table, frame) == Ignored
  {
    hide ParsePacket;
    var s := frame[2..4];
    assert s[1..] == [frame[3]] && [frame[3]][1..] == [];
    assert FromLittleEndian(s) == s[0] + 256 * FromLittleEndian([frame[3]]);
  }

  /** A frame whose type nobody registered is ignored. */
  lemma FrameIgnored(table: map<nat, Kind>, p: Packet)
    requires Frame(p).Some? && p.Kind().Id() !in table
    ensures ValidFrame(Frame(p).value) && HandlePacket(table, Frame(p).value) == Ignored
  {
    FrameLayout(p);
  }
}
