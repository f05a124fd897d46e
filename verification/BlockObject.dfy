/** `DestroyedBlockInfo` as the generated class: fields updated in place by its parse loop, its size
    function and its merge. */
module BlockObject {
  import opened Wire
  import opened Parsing
  import opened Struct
  import opened ParseSteps
  import opened Output

  class DestroyedBlockInfo {
    var blockid: uint64
    var itemid: uint64
    var unknown: seq<Field>
    var cachedSize: int32

    ghost function Value(): BlockInfo
      reads this
    {
      Message(Block(blockid, itemid), unknown)
    }

    constructor ()
      ensures Value() == EMPTY_BLOCK
    {
      blockid, itemid, unknown, cachedSize := 0, 0, [], 0;
    }

    method Clear()
      modifies this
      ensures Value() == EMPTY_BLOCK
    {
      blockid, itemid, unknown := 0, 0, [];
    }

    method InternalParse(buf: seq<byte>, start: nat, limit: nat) returns (end: ParseEnd)
      requires start <= limit <= |buf|
      modifies this
      ensures Agrees(end, Value(), Parse(Block.Accept, old(Value()), buf[start..limit], NESTED_DEPTH), buf, limit)
    {
      hide Parse, ParseAfterTag;
      ParseEmptyAtLimit(Block.Accept, buf, limit, NESTED_DEPTH);
      var ptr := start;
      while ptr < limit
        invariant start <= ptr <= limit
        invariant Parse(Block.Accept, Value(), buf[ptr..limit], NESTED_DEPTH)
               == Parse(Block.Accept, old(Value()), buf[start..limit], NESTED_DEPTH)
        decreases limit - ptr
      {
        StepTag(Block.Accept, Value(), buf, ptr, limit, NESTED_DEPTH);
        var t := ReadTag(buf[ptr..limit]);
        if t.None? { return Null; }
        var (tag, n) := t.value;
        ptr := ptr + n;
        var step := ParseField(tag, buf, ptr, limit);
        match step
        case Next(p) => ptr := p;
        case Stop => return AtTag(ptr, tag);
        case Fail => return Null;
      }
      return AtLimit;
    }

    /** The switch of the parse loop on one tag. */
    method ParseField(tag: uint32, buf: seq<byte>, ptr: nat, limit: nat) returns (step: Step)
      requires ptr <= limit <= |buf|
      modifies this
      ensures StepAgrees(Block.Accept, step, old(Value()), Value(), tag, buf, ptr, limit, NESTED_DEPTH)
    {
      hide Parse, ParseAfterTag;
      if tag / 8 == 1 && tag % 256 == 8 {
        var v;
        v, step := TakeVarint(Block.Accept, Value(), tag, buf, ptr, limit, NESTED_DEPTH);
        if step.Next? { blockid := v; }
      } else if tag / 8 == 2 && tag % 256 == 16 {
        var v;
        v, step := TakeVarint(Block.Accept, Value(), tag, buf, ptr, limit, NESTED_DEPTH);
        if step.Next? { itemid := v; }
      } else {
        var found;
        found, step := TakeUnusual(Block.Accept, Value(), tag, buf, ptr, limit, NESTED_DEPTH);
        unknown := unknown + found;
      }
    }

    method ByteSizeLong() returns (total: nat)
      modifies `cachedSize
      ensures total == |WriteBlock(Value())| && Value() == old(Value())
      ensures cachedSize == ToInt32(total)
    {
      total := 0;
      if blockid != 0 { total := total + 1 + VarintSize(blockid); }
      if itemid != 0 { total := total + 1 + VarintSize(itemid); }
      total := total + |EncodeFields(unknown)|;
      cachedSize := ToInt32(total);

      VarintFieldSize(1, blockid);
      VarintFieldSize(2, itemid);
      OptionalSize([], blockid != 0, Varint(1, blockid));
      OptionalSize(Optional(blockid != 0, Varint(1, blockid)), itemid != 0, Varint(2, itemid));
      EncodeFieldsConcat(Value().body.Declared(), unknown);
      assert [] + Optional(blockid != 0, Varint(1, blockid)) == Optional(blockid != 0, Varint(1, blockid));
    }

    method InternalSerialize(target: array<byte>, pos: nat) returns (end: nat)
      requires pos + |WriteBlock(Value())| <= target.Length
      modifies target
      ensures end == pos + |WriteBlock(Value())|
      ensures target[..end] == old(target[..pos]) + WriteBlock(Value())
      ensures forall i | end <= i < target.Length :: target[i] == old(target[i])
    {
      ghost var base, f1 := target[..pos], Optional(blockid != 0, Varint(1, blockid));
      ghost var f2 := f1 + Optional(itemid != 0, Varint(2, itemid));
      assert [] + f1 == f1;
      EncodeFieldsConcat(f1, Optional(itemid != 0, Varint(2, itemid)));
      EncodeFieldsConcat(f2, unknown);
      end := PutOptional(target, pos, blockid != 0, Varint(1, blockid), base, []);
      end := PutOptional(target, end, itemid != 0, Varint(2, itemid), base, f1);
      end := PutBytes(target, end, EncodeFields(unknown));
      Associate(base, EncodeFields(f2), EncodeFields(unknown));
    }

    method MergeFrom(from: DestroyedBlockInfo)
      requires from != this
      modifies this
      ensures Value() == MergeBlock(old(Value()), from.Value())
    {
      if from.blockid != 0 { blockid := from.blockid; }
      if from.itemid != 0 { itemid := from.itemid; }
      unknown := unknown + from.unknown;
    }
  }
}
