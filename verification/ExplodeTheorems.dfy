/** Finer properties of the `S_Explode` parser: exactly when a written message can be read back, how
    the list of destroyed item ids may be cut up on the wire, and normalisation of any input. */
module ExplodeTheorems {
  import opened Wrappers
  import opened Wire
  import opened Parsing
  import opened Struct
  import opened Protocol
  import opened ProtocolTheorems
  import opened Output
  import opened ExplodeSizes
  import opened Shrinking

  //
  // Exactly when the round trip holds
  //

  predicate PlainBlocks(bs: seq<BlockInfo>) {
    bs == [] || (bs[0].unknown == [] && PlainBlocks(bs[1..]))
  }

  /** A message as the server fills it: no unknown fields anywhere. */
  predicate PlainExplode(m: ExplodeMessage) { m.unknown == [] && PlainBlocks(m.body.blocks) }

  lemma PlainBlockSize(b: BlockInfo)
    requires b.unknown == []
    ensures |WriteBlock(b)| <= 22
  {
    var f1, f2 := Varint(1, b.body.blockid), Varint(2, b.body.itemid);
    Pow128Bounds();
    VarintFieldSize(1, b.body.blockid);
    VarintFieldSize(2, b.body.itemid);
    VarintSizeBound(b.body.blockid, 10);
    VarintSizeBound(b.body.itemid, 10);
    EncodeFieldsConcat(Optional(b.body.blockid != 0, f1), Optional(b.body.itemid != 0, f2));
    assert b.body.Declared() + [] == b.body.Declared();
  }

  lemma {:induction false} PlainBlocksWritable(bs: seq<BlockInfo>)
    requires PlainBlocks(bs)
    ensures WritableBlocks(bs)
  {
    if bs == [] {
    } else {
      PlainBlockSize(bs[0]);
      PlainBlocksWritable(bs[1..]);
    }
  }

  /** A payload over the limit makes the parse fail, whatever follows. */
  lemma OversizedFails(m: ExplodeMessage, p: seq<byte>, s: seq<byte>)
    requires MAX_PAYLOAD < |p| < TWO31
    ensures Parse(Explode.Accept, m, EncodeField(Length(8, p)) + s, TOP_DEPTH) == Failed
  {
    var f := Length(8, p);
    FieldSplit(f, s);
    Pow128Bounds();
    VarintRoundTrip(|p|, p + s, 5);
    Associate(EncodeVarint(|p|), p, s);
  }

  /** A message that fits the 2 GB limit of the serialiser, with blocks and unknown fields the wire can
      carry, is read back exactly when its packed ids leave room for the parser's slop; otherwise its own
      serialisation is rejected. */
  lemma ExplodeRoundTripIff(m: ExplodeMessage)
    requires WritableBlocks(m.body.blocks) && Foreign(Explode.Accept, m.unknown, TOP_DEPTH)
    requires |WriteExplode(m)| < TWO31
    ensures Parse(Explode.Accept, EMPTY_EXPLODE, WriteExplode(m), TOP_DEPTH) == Done(m)
       <==> |PackVarints(m.body.ids)| <= MAX_PAYLOAD
  {
    if |PackVarints(m.body.ids)| <= MAX_PAYLOAD {
      ExplodeRoundTrip(m);
    } else {
      OversizedIdsFail(m);
    }
  }

  lemma OversizedIdsFail(m: ExplodeMessage)
    requires WritableBlocks(m.body.blocks)
    requires MAX_PAYLOAD < |PackVarints(m.body.ids)| && |WriteExplode(m)| < TWO31
    ensures Parse(Explode.Accept, EMPTY_EXPLODE, WriteExplode(m), TOP_DEPTH) == Failed
  {
    hide Parse, EncodeField, Explode.Accept, Explode.Scalars, BlockRecords;
    var front := m.body.Scalars() + BlockRecords(m.body.blocks);
    var packed := Length(8, PackVarints(m.body.ids));
    var later := EncodeFields([packed]) + EncodeFields(m.unknown);
    var k := m.body.(ids := []);
    PackedSize(m);
    ExplodeFold(EMPTY_EXPLODE.body, k);
    FrontIs(m);
    EncodeFieldsConcat(front, [packed]);
    EncodeFieldsConcat(m.body.Declared(), m.unknown);
    Associate(EncodeFields(front), EncodeFields([packed]), EncodeFields(m.unknown));
    ParseRecognised(Explode.Accept, EMPTY_EXPLODE, front, EMPTY_EXPLODE.body.Merge(k), later, TOP_DEPTH);
    EncodeSingle(packed);
    OversizedFails(EMPTY_EXPLODE.(body := EMPTY_EXPLODE.body.Merge(k)), packed.payload, EncodeFields(m.unknown));
  }

  lemma FrontIs(m: ExplodeMessage)
    requires m.body.ids != []
    ensures var front := m.body.Scalars() + BlockRecords(m.body.blocks);
            && m.body.(ids := []).Declared() == front
            && m.body.Declared() == front + [Length(8, PackVarints(m.body.ids))]
  {
    var front := m.body.Scalars() + BlockRecords(m.body.blocks);
    assert front + [] == front;
  }

  /** So for every message as the server fills it. */
  lemma PlainExplodeRoundTripIff(m: ExplodeMessage)
    requires PlainExplode(m) && |WriteExplode(m)| < TWO31
    ensures Parse(Explode.Accept, EMPTY_EXPLODE, WriteExplode(m), TOP_DEPTH) == Done(m)
       <==> |PackVarints(m.body.ids)| <= MAX_PAYLOAD
  {
    PlainBlocksWritable(m.body.blocks);
    ExplodeRoundTripIff(m);
  }

  lemma PackedSize(m: ExplodeMessage)
    ensures |PackVarints(m.body.ids)| <= |WriteExplode(m)|
    ensures m.body.ids == [] <==> |PackVarints(m.body.ids)| == 0
  {
    hide EncodeFields, EncodeField, BlockRecords, PackVarints;
    ExplodeSize(m);
    PackedNonEmpty(m.body.ids);
    LengthFieldSize(8, PackVarints(m.body.ids));
  }

  /** A message of `n` ids, all zero. */
  function ZeroIds(n: nat): ExplodeMessage {
    Message(Explode(0, 0, 0, 0, 0, [], seq(n, _ => 0)), [])
  }

  lemma {:induction false} PackedZeros(n: nat)
    ensures |PackVarints(seq(n, _ => 0))| == n
  {
    if n == 0 {
    } else {
      assert seq(n, _ => 0)[1..] == seq(n - 1, _ => 0);
      PackedZeros(n - 1);
    }
  }

  lemma ZeroIdsSize(n: nat)
    requires n > 0
    ensures |WriteExplode(ZeroIds(n))| == 1 + VarintSize(n) + n
    ensures |PackVarints(ZeroIds(n).body.ids)| == n
  {
    hide VarintSize, PackVarints, EncodeField;
    var m := ZeroIds(n);
    ExplodeSize(m);
    PackedZeros(n);
    LengthFieldSize(8, PackVarints(m.body.ids));
  }

  /** The shortest list of zero ids that is written and cannot be read back. */
  lemma OversizedIdsLost()
    ensures var m := ZeroIds(MAX_PAYLOAD + 1);
            && MAX_PAYLOAD + 1 == 2147483632
            && PlainExplode(m) && |WriteExplode(m)| < TWO31
            && Parse(Explode.Accept, EMPTY_EXPLODE, WriteExplode(m), TOP_DEPTH) == Failed
  {
    hide WriteExplode, PackVarints, Parse;
    ZeroIdsSize(MAX_PAYLOAD + 1);
    Pow128Bounds();
    VarintSizeBound(MAX_PAYLOAD + 1, 5);
    OversizedIdsFail(ZeroIds(MAX_PAYLOAD + 1));
  }

  //
  // Cutting up the id list
  //

  /** A piece of a message on the wire: a packed chunk of ids, a single id, or any other field. */
  datatype Piece = Packed(ids: seq<uint64>) | Single(id: uint64) | Other(field: Field) {
    function AsField(): Field {
      match this
      case Packed(ids) => Length(8, PackVarints(ids))
      case Single(id) => Varint(8, id)
      case Other(f) => f
    }

    function Ids(): seq<uint64> {
      match this
      case Packed(ids) => ids
      case Single(id) => [id]
      case Other(_) => []
    }

    ghost predicate Valid() {
      && Encodable(AsField(), TOP_DEPTH)
      && (Other? ==> field.number != 8 || !(field.Varint? || field.Length?))
    }
  }

  ghost predicate AllValid(ps: seq<Piece>) { ps == [] || (ps[0].Valid() && AllValid(ps[1..])) }

  function Stream(ps: seq<Piece>): seq<byte> {
    if ps == [] then [] else EncodeField(ps[0].AsField()) + Stream(ps[1..])
  }

  function OtherStream(ps: seq<Piece>): seq<byte> {
    if ps == [] then []
    else if ps[0].Other? then EncodeField(ps[0].field) + OtherStream(ps[1..])
    else OtherStream(ps[1..])
  }

  function AllIds(ps: seq<Piece>): seq<uint64> {
    if ps == [] then [] else ps[0].Ids() + AllIds(ps[1..])
  }

  function WithIds(m: ExplodeMessage, ids: seq<uint64>): ExplodeMessage { m.(body := m.body.(ids := ids)) }

  function OutcomeWithIds(o: Outcome<Explode>, ids: seq<uint64>): Outcome<Explode> {
    match o
    case Done(m) => Done(WithIds(m, ids))
    case Stopped(m, tag, rest) => Stopped(WithIds(m, ids), tag, rest)
    case Failed => Failed
  }

  /** However the ids are cut into packed chunks and single entries and mixed with other fields, the
      outcome is that of the other fields alone, with all the ids, in order, behind those there. */
  lemma {:induction false} ChunkingIsInvisible(ps: seq<Piece>, m: ExplodeMessage, ids: seq<uint64>)
    requires AllValid(ps)
    ensures Parse(Explode.Accept, WithIds(m, ids), Stream(ps), TOP_DEPTH)
         == OutcomeWithIds(Parse(Explode.Accept, m, OtherStream(ps), TOP_DEPTH), ids + AllIds(ps))
    decreases |ps|
  {
    hide Parse, Apply, Explode.Accept, WithIds, Stream, OtherStream;
    if ps == [] {
      ParseNothing(m, ids);
    } else {
      var p, more := ps[0], ids + ps[0].Ids();
      assert more + AllIds(ps[1..]) == ids + AllIds(ps);
      if p.Other? {
        assert more == ids;
        OtherPiece(ps, m, ids);
        var m' := Apply(Explode.Accept, m, p.field);
        if m'.Some? { ChunkingIsInvisible(ps[1..], m'.value, more); }
      } else {
        IdsPiece(ps, m, ids);
        ChunkingIsInvisible(ps[1..], m, more);
      }
    }
  }

  lemma IdsPiece(ps: seq<Piece>, m: ExplodeMessage, ids: seq<uint64>)
    requires ps != [] && AllValid(ps) && !ps[0].Other?
    ensures OtherStream(ps) == OtherStream(ps[1..])
    ensures Parse(Explode.Accept, WithIds(m, ids), Stream(ps), TOP_DEPTH)
         == Parse(Explode.Accept, WithIds(m, ids + ps[0].Ids()), Stream(ps[1..]), TOP_DEPTH)
  {
    hide Parse, Apply, Explode.Accept, WithIds;
    ParseEncodedField(Explode.Accept, WithIds(m, ids), ps[0].AsField(), Stream(ps[1..]), TOP_DEPTH);
    IdsAppended(m, ps[0], ids);
  }

  lemma OtherPiece(ps: seq<Piece>, m: ExplodeMessage, ids: seq<uint64>)
    requires ps != [] && AllValid(ps) && ps[0].Other?
    ensures Parse(Explode.Accept, WithIds(m, ids), Stream(ps), TOP_DEPTH) ==
            match Apply(Explode.Accept, m, ps[0].field)
            case None => Failed
            case Some(m') => Parse(Explode.Accept, WithIds(m', ids), Stream(ps[1..]), TOP_DEPTH)
    ensures Parse(Explode.Accept, m, OtherStream(ps), TOP_DEPTH) ==
            match Apply(Explode.Accept, m, ps[0].field)
            case None => Failed
            case Some(m') => Parse(Explode.Accept, m', OtherStream(ps[1..]), TOP_DEPTH)
  {
    hide Parse, Apply, Explode.Accept, WithIds;
    OtherKeepsIds(m, ps[0].field, ids);
    ParseEncodedField(Explode.Accept, WithIds(m, ids), ps[0].field, Stream(ps[1..]), TOP_DEPTH);
    ParseEncodedField(Explode.Accept, m, ps[0].field, OtherStream(ps[1..]), TOP_DEPTH);
  }

  lemma ParseNothing(m: ExplodeMessage, ids: seq<uint64>)
    ensures Parse(Explode.Accept, WithIds(m, ids), Stream([]), TOP_DEPTH)
         == OutcomeWithIds(Parse(Explode.Accept, m, OtherStream([]), TOP_DEPTH), ids + [])
  {
    assert ids + [] == ids && Stream([]) == [] == OtherStream([]);
  }

  lemma OtherKeepsIds(m: ExplodeMessage, f: Field, ids: seq<uint64>)
    requires Other(f).Valid()
    ensures Apply(Explode.Accept, WithIds(m, ids), f) ==
            match Apply(Explode.Accept, m, f) case None => None case Some(m') => Some(WithIds(m', ids))
  {
  }

  lemma IdsAppended(m: ExplodeMessage, p: Piece, ids: seq<uint64>)
    requires !p.Other?
    ensures Apply(Explode.Accept, WithIds(m, ids), p.AsField()) == Some(WithIds(m, ids + p.Ids()))
  {
    if p.Packed? { UnpackPacked(p.ids); }
  }

  //
  // Normalisation
  //

  ghost predicate CarriedBlocks(k: Explode) { forall b | b in k.blocks :: WritableBlock(b) }

  lemma BlocksStayCarried(k: Explode, f: Field)
    requires CarriedBlocks(k) && Encodable(f, TOP_DEPTH) && Explode.Accept(k, f).Set?
    ensures CarriedBlocks(Explode.Accept(k, f).body)
  {
    hide WriteBlock;
    if f.Length? && f.number == 6 {
      ParseKeeps(Block.Accept, (_: Block) => true, EMPTY_BLOCK, f.payload, NESTED_DEPTH);
      BlockShrinks(f.payload);
    }
  }

  lemma {:induction false} CarriedBlocksWritable(bs: seq<BlockInfo>)
    requires forall b | b in bs :: WritableBlock(b)
    ensures WritableBlocks(bs)
  {
    if bs == [] {
    } else {
      assert bs[0] in bs;
      CarriedBlocksWritable(bs[1..]);
    }
  }

  /** What the parser accepts, the wire can carry again, ids apart. */
  lemma AcceptedIsCarried(s: seq<byte>)
    requires Parse(Explode.Accept, EMPTY_EXPLODE, s, TOP_DEPTH).Done?
    ensures var m := Parse(Explode.Accept, EMPTY_EXPLODE, s, TOP_DEPTH).msg;
            WritableBlocks(m.body.blocks) && Foreign(Explode.Accept, m.unknown, TOP_DEPTH)
  {
    hide Parse;
    forall k, f | CarriedBlocks(k) && Encodable(f, TOP_DEPTH) && Explode.Accept(k, f).Set?
      ensures CarriedBlocks(Explode.Accept(k, f).body)
    {
      BlocksStayCarried(k, f);
    }
    ParseKeeps(Explode.Accept, CarriedBlocks, EMPTY_EXPLODE, s, TOP_DEPTH);
    CarriedBlocksWritable(Parse(Explode.Accept, EMPTY_EXPLODE, s, TOP_DEPTH).msg.body.blocks);
  }

  /** Any byte string the parser accepts, in whatever order and form, becomes a message that is written in
      at most 61 bytes more.  That writing is read back as the same message exactly when its packed ids
      leave room for the slop, so for every input that leaves it itself. */
  lemma ExplodeNormalises(s: seq<byte>)
    requires Parse(Explode.Accept, EMPTY_EXPLODE, s, TOP_DEPTH).Done?
    ensures var m := Parse(Explode.Accept, EMPTY_EXPLODE, s, TOP_DEPTH).msg;
            && (|s| <= MAX_PAYLOAD ==> Parse(Explode.Accept, EMPTY_EXPLODE, WriteExplode(m), TOP_DEPTH) == Done(m))
            && (|s| <= MAX_PAYLOAD ==> |WriteExplode(m)| <= |s| + 61)
            && (|WriteExplode(m)| < TWO31 ==>
                (Parse(Explode.Accept, EMPTY_EXPLODE, WriteExplode(m), TOP_DEPTH) == Done(m)
                 <==> |PackVarints(m.body.ids)| <= MAX_PAYLOAD))
  {
    hide Parse, WriteExplode, PackVarints, EncodeFields, EncodeField, BlockRecords, VarintSize;
    var m := Parse(Explode.Accept, EMPTY_EXPLODE, s, TOP_DEPTH).msg;
    AcceptedIsCarried(s);
    ExplodeListsShrink(s);
    if |s| <= MAX_PAYLOAD {
      ExplodeRoundTrip(m);
      Pow128Bounds();
      VarintSizeBound(|PackVarints(m.body.ids)|, 5);
      ExplodeSize(m);
      ScalarsBound(m.body);
      LengthFieldSize(8, PackVarints(m.body.ids));
      PackedNonEmpty(m.body.ids);
    }
    if |WriteExplode(m)| < TWO31 { ExplodeRoundTripIff(m); }
  }
}
