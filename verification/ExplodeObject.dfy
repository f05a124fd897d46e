/** `S_Explode` as the generated class, with its repeated submessages as objects of their own. */
module ExplodeObject {
  import opened Wire
  import opened Parsing
  import opened Struct
  import opened Protocol
  import opened ParseSteps
  import opened Output
  import opened ExplodeSizes
  import opened BlockObject

  ghost function BlockValues(bs: seq<DestroyedBlockInfo>): (vs: seq<BlockInfo>)
    reads bs
    ensures |vs| == |bs|
    ensures forall i | 0 <= i < |bs| :: vs[i] == bs[i].Value()
  {
    seq(|bs|, i requires 0 <= i < |bs| reads bs => bs[i].Value())
  }

  class S_Explode {
    var objectid: uint64
    var up: int32
    var down: int32
    var left: int32
    var right: int32
    var blocks: seq<DestroyedBlockInfo>
    var ids: seq<uint64>
    var unknown: seq<Field>
    var idsCachedSize: int32
    var cachedSize: int32

    ghost function Body(): Explode
      reads this, blocks
    {
      Explode(objectid, up, down, left, right, BlockValues(blocks), ids)
    }

    ghost function Value(): ExplodeMessage
      reads this, blocks
    {
      Message(Body(), unknown)
    }

    constructor ()
      ensures Value() == EMPTY_EXPLODE && blocks == []
    {
      objectid, up, down, left, right := 0, 0, 0, 0, 0;
      blocks, ids, unknown := [], [], [];
      idsCachedSize, cachedSize := 0, 0;
    }

    method Clear()
      modifies this
      ensures Value() == EMPTY_EXPLODE && blocks == []
    {
      blocks, ids := [], [];
      objectid, up, down, left, right := 0, 0, 0, 0, 0;
      unknown := [];
    }

    /** The parse loop does, on every byte string, what the plain parser of one record per step does:
        same message, same failure, same stopping point. */
    method InternalParse(buf: seq<byte>, start: nat, limit: nat) returns (end: ParseEnd)
      requires start <= limit <= |buf|
      modifies this
      ensures Agrees(end, Value(), Parse(Explode.Accept, old(Value()), buf[start..limit], TOP_DEPTH), buf, limit)
    {
      hide Parse, ParseAfterTag;
      ParseEmptyAtLimit(Explode.Accept, buf, limit, TOP_DEPTH);
      var ptr := start;
      while ptr < limit
        invariant start <= ptr <= limit
        invariant Parse(Explode.Accept, Value(), buf[ptr..limit], TOP_DEPTH)
               == Parse(Explode.Accept, old(Value()), buf[start..limit], TOP_DEPTH)
        decreases limit - ptr
      {
        StepTag(Explode.Accept, Value(), buf, ptr, limit, TOP_DEPTH);
        var t := ReadTag(buf[ptr..limit]);
        if t.None? { return Null; }
        var (tag, n) := t.value;
        ptr := ptr + n;
        var step := ParseField(tag, buf, ptr, limit);
        match step
        case Next(p) => ptr := p;
        case Stop => return AtTag(ptr, tag);
        case Fail => return Null;
      }
      return AtLimit;
    }

    /** The switch of the parse loop on one tag. */
    method ParseField(tag: uint32, buf: seq<byte>, ptr: nat, limit: nat) returns (step: Step)
      requires ptr <= limit <= |buf|
      modifies this
      ensures StepAgrees(Explode.Accept, step, old(Value()), Value(), tag, buf, ptr, limit, TOP_DEPTH)
    {
      hide Parse, ParseAfterTag;
      if tag == 8 || tag == 16 || tag == 24 || tag == 32 || tag == 40 || tag == 64 {
        step := ParseVarintField(tag, buf, ptr, limit);
      } else if tag / 8 == 6 && tag % 256 == 50 {
        step := ParseBlockRun(buf, ptr, limit);
      } else if tag / 8 == 8 && tag % 256 == 66 {
        step := ParsePacked(buf, ptr, limit);
      } else {
        var found;
        found, step := TakeUnusual(Explode.Accept, Value(), tag, buf, ptr, limit, TOP_DEPTH);
        unknown := unknown + found;
      }
    }

    method ParseVarintField(tag: uint32, buf: seq<byte>, ptr: nat, limit: nat) returns (step: Step)
      requires ptr <= limit <= |buf|
      requires tag == 8 || tag == 16 || tag == 24 || tag == 32 || tag == 40 || tag == 64
      modifies this
      ensures StepAgrees(Explode.Accept, step, old(Value()), Value(), tag, buf, ptr, limit, TOP_DEPTH)
      ensures blocks == old(blocks)
    {
      hide Parse, ParseAfterTag;
      var v;
      v, step := TakeVarint(Explode.Accept, Value(), tag, buf, ptr, limit, TOP_DEPTH);
      if step.Next? {
        if tag == 8 { objectid := v; }
        else if tag == 16 { up := ToInt32(v); }
        else if tag == 24 { down := ToInt32(v); }
        else if tag == 32 { left := ToInt32(v); }
        else if tag == 40 { right := ToInt32(v); }
        else { ids := ids + [v]; }
      }
    }

    /** `PackedUInt64Parser`. */
    method ParsePacked(buf: seq<byte>, ptr: nat, limit: nat) returns (step: Step)
      requires ptr <= limit <= |buf|
      modifies this
      ensures StepAgrees(Explode.Accept, step, old(Value()), Value(), 66, buf, ptr, limit, TOP_DEPTH)
      ensures blocks == old(blocks)
    {
      hide Parse, ParseAfterTag;
      var body;
      body, step := TakeLength(Explode.Accept, Value(), 66, buf, ptr, limit, TOP_DEPTH);
      if step.Fail? { return; }
      match UnpackVarints(buf[body..step.ptr])
      case None => return Fail;
      case Some(more) => ids := ids + more;
    }

    /** The tight loop over a run of equal tags: it leaves the switch only when the input ends or the
        next byte is another tag, and the plain parser would be at the same point. */
    method ParseBlockRun(buf: seq<byte>, ptr: nat, limit: nat) returns (step: Step)
      requires ptr <= limit <= |buf|
      modifies this
      ensures StepAgrees(Explode.Accept, step, old(Value()), Value(), 50, buf, ptr, limit, TOP_DEPTH)
      ensures !step.Stop?
    {
      hide Parse, ParseAfterTag;
      ghost var plain := ParseAfterTag(Explode.Accept, Value(), 50, buf[ptr..limit], TOP_DEPTH);
      var again := true;
      step := Next(ptr);
      while again
        invariant step.Next? ==> ptr <= step.ptr <= limit
        invariant again ==>
          step.Next? && ParseAfterTag(Explode.Accept, Value(), 50, buf[step.ptr..limit], TOP_DEPTH) == plain
        invariant !again ==> StepAgrees(Explode.Accept, step, old(Value()), Value(), 50, buf, ptr, limit, TOP_DEPTH)
        invariant !step.Stop?
        decreases again, if step.Next? then limit - step.ptr else 0
      {
        step, again := ParseBlockAndPeek(buf, step.ptr, limit);
      }
    }

    /** One turn of that loop: a record, and whether the tag that follows (then consumed) is 50 again. */
    method ParseBlockAndPeek(buf: seq<byte>, ptr: nat, limit: nat) returns (step: Step, again: bool)
      requires ptr <= limit <= |buf|
      modifies this
      ensures !step.Stop? && (step.Next? ==> ptr <= step.ptr <= limit)
      ensures again ==> step.Next? && ptr < step.ptr
      ensures again ==> (ParseAfterTag(Explode.Accept, Value(), 50, buf[step.ptr..limit], TOP_DEPTH)
                         == ParseAfterTag(Explode.Accept, old(Value()), 50, buf[ptr..limit], TOP_DEPTH))
      ensures !again ==> StepAgrees(Explode.Accept, step, old(Value()), Value(), 50, buf, ptr, limit, TOP_DEPTH)
    {
      hide Parse, ParseAfterTag;
      again := false;
      step := ParseBlock(buf, ptr, limit);
      if step.Next? && step.ptr < limit && buf[step.ptr] == 50 {
        StepExpected(Explode.Accept, Value(), 50, buf, step.ptr, limit, TOP_DEPTH);
        step, again := Next(step.ptr + 1), true;
      }
    }

    /** `ctx->ParseMessage(_internal_add_destroyedblockinfos(), ptr)`. */
    method ParseBlock(buf: seq<byte>, ptr: nat, limit: nat) returns (step: Step)
      requires ptr <= limit <= |buf|
      modifies this
      ensures StepAgrees(Explode.Accept, step, old(Value()), Value(), 50, buf, ptr, limit, TOP_DEPTH)
      ensures !step.Stop?
    {
      hide Parse, ParseAfterTag;
      ghost var m := Value();
      var b := new DestroyedBlockInfo();
      blocks := blocks + [b];
      var body;
      body, step := TakeLength(Explode.Accept, m, 50, buf, ptr, limit, TOP_DEPTH);
      if step.Fail? { return; }
      var end := b.InternalParse(buf, body, step.ptr);
      if end != AtLimit { return Fail; }
      assert BlockValues(blocks) == m.body.blocks + [b.Value()];
    }

    //
    // Sizes
    //

    /** The length prefixes the serialiser is about to write are the true lengths. */
    ghost predicate SizesCached()
      reads this, blocks
    {
      && BlocksCached(blocks)
      && idsCachedSize == |PackVarints(ids)|
    }

    /** The size of the message; every submessage and the packed ids remember theirs. */
    method ByteSizeLong() returns (total: nat)
      modifies `idsCachedSize, `cachedSize, blocks`cachedSize
      ensures Value() == old(Value())
      ensures SameSize(total, |WriteExplode(Value())|)
      ensures total < TWO31 ==> SizesCached() && cachedSize == total
    {
      hide EncodeFields, EncodeField, BlockRecords, WriteExplode, WriteBlock, PackVarints, PackedFieldSize, ToInt32;
      hide Explode.Scalars, Explode.Declared;
      ExplodeSize(Value());
      var blocksSize := BlocksSize();
      var packedSize := PackedSize();
      SameSizeSum(blocksSize, |EncodeFields(BlockRecords(Body().blocks))|, packedSize, PackedFieldSize(ids));
      var scalarsSize := ScalarsSize();
      total := blocksSize + packedSize + scalarsSize + |EncodeFields(unknown)|;
      cachedSize := ToInt32(total);
      if total < TWO31 { ToInt32Small(total); }
    }

    /** The part of the size for field 6. */
    method BlocksSize() returns (total: nat)
      modifies blocks`cachedSize
      ensures BlockValues(blocks) == old(BlockValues(blocks))
      ensures SameSize(total, |EncodeFields(BlockRecords(BlockValues(blocks)))|)
      ensures total < TWO31 ==> BlocksCached(blocks)
    {
      hide EncodeField, WriteBlock, VarintSize;
      total := |blocks|;
      ghost var values, sum := BlockValues(blocks), 0;
      assert values[..0] == [];
      for i := 0 to |blocks|
        invariant BlockValues(blocks) == values
        invariant sum >= 0 && total == |blocks| + sum
        invariant SameSize(i + sum, |EncodeFields(BlockRecords(values[..i]))|)
        invariant total < TWO31 ==> forall j | 0 <= j < i :: blocks[j].cachedSize == |WriteBlock(values[j])|
      {
        var size := MessageSize(blocks[i]);
        total := total + size;
        BlockRecordsExtend(values, i, i + sum, 1 + size);
        sum := sum + size;
      }
      assert values[..|blocks|] == values;
    }

    /** The part of the size for field 8, whose payload size is remembered. */
    method PackedSize() returns (total: nat)
      modifies `idsCachedSize
      ensures SameSize(total, PackedFieldSize(ids))
      ensures total < TWO31 ==> idsCachedSize == |PackVarints(ids)|
    {
      hide VarintSize, EncodeVarint, EncodeField, PackVarints, IdsSize, ToInt32, SignExtend;
      total := 0;
      var dataSize := IdsSize(ids);
      if dataSize < TWO31 { ToInt32Small(dataSize); }
      PackedNonEmpty(ids);
      if dataSize > 0 { total := total + 1 + VarintSize(SignExtend(ToInt32(dataSize))); }
      idsCachedSize := ToInt32(dataSize);
      total := total + dataSize;
      LengthFieldSize(8, PackVarints(ids));
    }

    /** The part of the size for fields 1 to 5. */
    method ScalarsSize() returns (total: nat)
      ensures total == |EncodeFields(Body().Scalars())|
    {
      hide VarintSize, SignExtend, EncodeFields, Explode.Scalars;
      total := 0;
      if objectid != 0 { total := total + 1 + VarintSize(objectid); }
      if up != 0 { total := total + 1 + VarintSize(SignExtend(up)); }
      if down != 0 { total := total + 1 + VarintSize(SignExtend(down)); }
      if left != 0 { total := total + 1 + VarintSize(SignExtend(left)); }
      if right != 0 { total := total + 1 + VarintSize(SignExtend(right)); }
      ScalarsSizes(Body());
    }
  
    //
    // Writing
    //

    /** Writes the message at `pos`, trusting the cached sizes for every length prefix. */
    method InternalSerialize(target: array<byte>, pos: nat) returns (end: nat)
      requires SizesCached()
      requires pos + |WriteExplode(Value())| <= target.Length
      modifies target
      ensures end == pos + |WriteExplode(Value())|
      ensures target[..end] == old(target[..pos]) + WriteExplode(Value())
      ensures forall i | end <= i < target.Length :: target[i] == old(target[i])
    {
      hide EncodeFields, BlockRecords, PackVarints;
      ghost var base, m := target[..pos], Value();
      ghost var f2 := m.body.Scalars() + BlockRecords(m.body.blocks);
      PrefixSize(m.body.Scalars(), BlockRecords(m.body.blocks));
      PrefixSize(f2, Optional(ids != [], Length(8, PackVarints(ids))));
      EncodeFieldsConcat(m.body.Declared(), unknown);
      end := SerializeScalars(target, pos, base);
      end := SerializeBlocks(target, end, base, m.body.Scalars());
      end := SerializePacked(target, end, base, f2);
      end := PutBytes(target, end, EncodeFields(unknown));
      Associate(base, EncodeFields(m.body.Declared()), EncodeFields(unknown));
    }

    method SerializeScalars(target: array<byte>, pos: nat, ghost base: seq<byte>) returns (end: nat)
      requires pos <= target.Length && target[..pos] == base
      requires |base| + |EncodeFields(Body().Scalars())| <= target.Length
      modifies target
      ensures end == |base| + |EncodeFields(Body().Scalars())|
      ensures target[..end] == base + EncodeFields(Body().Scalars())
      ensures forall i | end <= i < target.Length :: target[i] == old(target[i])
    {
      hide EncodeFields;
      ghost var f1 := Optional(objectid != 0, Varint(1, objectid));
      ghost var f2 := f1 + Optional(up != 0, Varint(2, SignExtend(up)));
      ghost var f3 := f2 + Optional(down != 0, Varint(3, SignExtend(down)));
      ghost var f4 := f3 + Optional(left != 0, Varint(4, SignExtend(left)));
      PrefixSize(f1, Optional(up != 0, Varint(2, SignExtend(up))));
      PrefixSize(f2, Optional(down != 0, Varint(3, SignExtend(down))));
      PrefixSize(f3, Optional(left != 0, Varint(4, SignExtend(left))));
      PrefixSize(f4, Optional(right != 0, Varint(5, SignExtend(right))));
      EncodeNothing();
      assert [] + f1 == f1 && base + [] == base;
      end := PutOptional(target, pos, objectid != 0, Varint(1, objectid), base, []);
      end := PutOptional(target, end, up != 0, Varint(2, SignExtend(up)), base, f1);
      end := PutOptional(target, end, down != 0, Varint(3, SignExtend(down)), base, f2);
      end := PutOptional(target, end, left != 0, Varint(4, SignExtend(left)), base, f3);
      end := PutOptional(target, end, right != 0, Varint(5, SignExtend(right)), base, f4);
    }

    method SerializeBlocks(target: array<byte>, pos: nat, ghost base: seq<byte>, ghost fs: seq<Field>)
      returns (end: nat)
      requires BlocksCached(blocks)
      requires pos <= target.Length && target[..pos] == base + EncodeFields(fs)
      requires |base| + |EncodeFields(fs + BlockRecords(BlockValues(blocks)))| <= target.Length
      modifies target
      ensures end == |base| + |EncodeFields(fs + BlockRecords(BlockValues(blocks)))|
      ensures target[..end] == base + EncodeFields(fs + BlockRecords(BlockValues(blocks)))
      ensures forall i | end <= i < target.Length :: target[i] == old(target[i])
    {
      hide EncodeFields, WriteBlock;
      ghost var values := BlockValues(blocks);
      end := pos;
      assert values[..0] == [] && fs + [] == fs;
      for i := 0 to |blocks|
        invariant pos <= end <= target.Length
        invariant target[..end] == base + EncodeFields(fs + BlockRecords(values[..i]))
        invariant forall k | end <= k < target.Length :: target[k] == old(target[k])
      {
        BlockRecordsPrefix(fs, values, i);
        end := WriteMessage(target, end, blocks[i], blocks[i].cachedSize);
        Associate(base, EncodeFields(fs + BlockRecords(values[..i])), EncodeField(Length(6, WriteBlock(values[i]))));
      }
      assert values[..|blocks|] == values;
    }

    method SerializePacked(target: array<byte>, pos: nat, ghost base: seq<byte>, ghost fs: seq<Field>)
      returns (end: nat)
      requires idsCachedSize == |PackVarints(ids)|
      requires pos <= target.Length && target[..pos] == base + EncodeFields(fs)
      requires |base| + |EncodeFields(fs + Optional(ids != [], Length(8, PackVarints(ids))))| <= target.Length
      modifies target
      ensures end == |base| + |EncodeFields(fs + Optional(ids != [], Length(8, PackVarints(ids))))|
      ensures target[..end] == base + EncodeFields(fs + Optional(ids != [], Length(8, PackVarints(ids))))
      ensures forall i | end <= i < target.Length :: target[i] == old(target[i])
    {
      hide EncodeFields, EncodeField, PackVarints;
      PackedNonEmpty(ids);
      end := PutOptional(target, pos, idsCachedSize > 0, Length(8, PackVarints(ids)), base, fs);
    }

    /** `SerializeToArray`: refused beyond 2 GB and when the buffer is too small. */
    method SerializeToArray(target: array<byte>, pos: nat, size: nat) returns (ok: bool)
      requires pos + size <= target.Length
      modifies target, `idsCachedSize, `cachedSize, blocks`cachedSize
      ensures Value() == old(Value())
      ensures ok <==> |WriteExplode(Value())| < TWO31 && |WriteExplode(Value())| <= size
      ensures ok ==> target[pos..pos + |WriteExplode(Value())|] == WriteExplode(Value())
      ensures forall i | 0 <= i < pos || pos + size <= i < target.Length :: target[i] == old(target[i])
    {
      hide WriteExplode, BlockValues;
      var byteSize := ByteSizeLong();
      ok := byteSize < TWO31 && byteSize <= size;
      if ok {
        ghost var w := WriteExplode(Value());
        var end := InternalSerialize(target, pos);
        WrittenBehind(target[..], old(target[..]), pos, end, w);
      }
    }

    //
    // Merging
    //

    method MergeFrom(from: S_Explode)
      requires from != this
      modifies this
      ensures Value() == MergeExplode(old(Value()), from.Value())
    {
      hide BlockValues;
      MergeBlocks(from.blocks);
      ids := ids + from.ids;
      MergeScalars(from);
      unknown := unknown + from.unknown;
    }

    method MergeScalars(from: S_Explode)
      requires from != this
      modifies `objectid, `up, `down, `left, `right
      ensures objectid == if from.objectid != 0 then from.objectid else old(objectid)
      ensures up == if from.up != 0 then from.up else old(up)
      ensures down == if from.down != 0 then from.down else old(down)
      ensures left == if from.left != 0 then from.left else old(left)
      ensures right == if from.right != 0 then from.right else old(right)
    {
      if from.objectid != 0 { objectid := from.objectid; }
      if from.up != 0 { up := from.up; }
      if from.down != 0 { down := from.down; }
      if from.left != 0 { left := from.left; }
      if from.right != 0 { right := from.right; }
    }

    /** Every submessage of `from` is copied into a new one. */
    method MergeBlocks(from: seq<DestroyedBlockInfo>)
      modifies `blocks
      ensures BlockValues(blocks) == old(BlockValues(blocks)) + BlockValues(from)
    {
      ghost var before, added := BlockValues(blocks), BlockValues(from);
      for i := 0 to |from|
        invariant BlockValues(blocks) == before + added[..i]
      {
        var b := new DestroyedBlockInfo();
        b.MergeFrom(from[i]);
        assert b.Value() == added[i] by { assert [] + from[i].unknown == from[i].unknown; }
        blocks := blocks + [b];
      }
    }
  }

  /** `InternalWriteMessage`: the tag, the cached size, then the submessage itself. */
  method WriteMessage(target: array<byte>, pos: nat, b: DestroyedBlockInfo, cachedSize: int) returns (end: nat)
    requires cachedSize == |WriteBlock(b.Value())|
    requires pos + |EncodeField(Length(6, WriteBlock(b.Value())))| <= target.Length
    modifies target
    ensures end == pos + |EncodeField(Length(6, WriteBlock(b.Value())))|
    ensures target[..end] == old(target[..pos]) + EncodeField(Length(6, WriteBlock(b.Value())))
    ensures forall i | end <= i < target.Length :: target[i] == old(target[i])
  {
    hide WriteBlock;
    ghost var f := Length(6, WriteBlock(b.Value()));
    WrittenMessage(WriteBlock(b.Value()));
    hide EncodeField, EncodeVarint;
    end := PutBytes(target, pos, [50]);
    end := PutBytes(target, end, EncodeVarint(cachedSize));
    end := b.InternalSerialize(target, end);
  }

  lemma WrittenMessage(payload: seq<byte>)
    ensures EncodeField(Length(6, payload)) == [50] + EncodeVarint(|payload|) + payload
  {
  }

  lemma BlockRecordsPrefix(fs: seq<Field>, bs: seq<BlockInfo>, i: nat)
    requires i < |bs|
    ensures EncodeFields(fs + BlockRecords(bs[..i + 1]))
         == EncodeFields(fs + BlockRecords(bs[..i])) + EncodeField(Length(6, WriteBlock(bs[i])))
    ensures |EncodeFields(fs + BlockRecords(bs[..i + 1]))| <= |EncodeFields(fs + BlockRecords(bs))|
  {
    hide *;
    var f := Length(6, WriteBlock(bs[i]));
    BlockRecordsStep(bs, i);
    assert Optional(true, f) == [f] by { OptionalPresent(f); }
    EncodeFieldsConcat(fs + BlockRecords(bs[..i]), [f]);
    EncodeSingle(f);
    assert fs + BlockRecords(bs[..i + 1]) == fs + BlockRecords(bs[..i]) + [f];
    BlockRecordsConcat(bs[..i + 1], bs[i + 1..]);
    assert bs == bs[..i + 1] + bs[i + 1..];
    PrefixSize(fs + BlockRecords(bs[..i + 1]), BlockRecords(bs[i + 1..]));
    assert fs + BlockRecords(bs) == fs + BlockRecords(bs[..i + 1]) + BlockRecords(bs[i + 1..]);
  }

  ghost predicate BlocksCached(bs: seq<DestroyedBlockInfo>)
    reads bs
  {
    forall i | 0 <= i < |bs| :: bs[i].cachedSize == |WriteBlock(bs[i].Value())|
  }

  /** `WireFormatLite::MessageSize`: a length prefix and the submessage it announces. */
  method MessageSize(b: DestroyedBlockInfo) returns (size: nat)
    modifies b`cachedSize
    ensures b.Value() == old(b.Value())
    ensures SameSize(1 + size, |EncodeField(Length(6, WriteBlock(b.Value())))|)
    ensures size < TWO31 ==> b.cachedSize == |WriteBlock(b.Value())|
  {
    hide VarintSize, EncodeVarint, EncodeField, WriteBlock, ToInt32;
    var n := b.ByteSizeLong();
    if n < TWO31 { ToInt32Small(n); }
    size := n + VarintSize(n % TWO32);
    LengthFieldSize(6, WriteBlock(b.Value()));
  }

  lemma BlockRecordsExtend(bs: seq<BlockInfo>, i: nat, before: nat, size: nat)
    requires i < |bs| && SameSize(before, |EncodeFields(BlockRecords(bs[..i]))|)
    requires SameSize(size, |EncodeField(Length(6, WriteBlock(bs[i])))|)
    ensures SameSize(before + size, |EncodeFields(BlockRecords(bs[..i + 1]))|)
  {
    BlockRecordsStep(bs, i);
    SameSizeSum(before, |EncodeFields(BlockRecords(bs[..i]))|, size, |EncodeField(Length(6, WriteBlock(bs[i])))|);
  }

  lemma BlockRecordsStep(bs: seq<BlockInfo>, i: nat)
    requires i < |bs|
    ensures BlockRecords(bs[..i + 1]) == BlockRecords(bs[..i]) + Optional(true, Length(6, WriteBlock(bs[i])))
    ensures |EncodeFields(BlockRecords(bs[..i + 1]))|
         == |EncodeFields(BlockRecords(bs[..i]))| + |EncodeField(Length(6, WriteBlock(bs[i])))|
  {
    BlockRecordsConcat(bs[..i], [bs[i]]);
    assert bs[..i + 1] == bs[..i] + [bs[i]];
    assert BlockRecords([bs[i]]) == [Length(6, WriteBlock(bs[i]))];
    OptionalSize(BlockRecords(bs[..i]), true, Length(6, WriteBlock(bs[i])));
  }
}
