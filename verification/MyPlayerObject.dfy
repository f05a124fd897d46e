/** `PlayerInfo` and `S_MyPlayer` as the generated classes: a submessage held by pointer, created on
    first use and merged into afterwards. */
module MyPlayerObject {
  import opened Wrappers
  import opened Wire
  import opened Parsing
  import opened Struct
  import opened Protocol
  import opened ParseSteps
  import opened Output

  class PlayerInfoMessage {
    var objectid: uint64
    var posx: uint32
    var posy: uint32
    var mainstate: int32
    var dir: int32
    var unknown: seq<Field>
    var cachedSize: int32

    ghost function Body(): Player
      reads this
    {
      Player(objectid, posx, posy, mainstate, dir)
    }

    ghost function Value(): PlayerInfo
      reads this
    {
      Message(Body(), unknown)
    }

    constructor ()
      ensures Value() == EMPTY_PLAYER
    {
      objectid, posx, posy, mainstate, dir, unknown, cachedSize := 0, 0, 0, 0, 0, [], 0;
    }

    method Clear()
      modifies this
      ensures Value() == EMPTY_PLAYER
    {
      objectid, posx, posy, mainstate, dir, unknown := 0, 0, 0, 0, 0, [];
    }

    method InternalParse(buf: seq<byte>, start: nat, limit: nat) returns (end: ParseEnd)
      requires start <= limit <= |buf|
      modifies this
      ensures Agrees(end, Value(), Parse(Player.Accept, old(Value()), buf[start..limit], NESTED_DEPTH), buf, limit)
    {
      hide Parse, ParseAfterTag;
      ParseEmptyAtLimit(Player.Accept, buf, limit, NESTED_DEPTH);
      var ptr := start;
      while ptr < limit
        invariant start <= ptr <= limit
        invariant Parse(Player.Accept, Value(), buf[ptr..limit], NESTED_DEPTH)
               == Parse(Player.Accept, old(Value()), buf[start..limit], NESTED_DEPTH)
        decreases limit - ptr
      {
        StepTag(Player.Accept, Value(), buf, ptr, limit, NESTED_DEPTH);
        var t := ReadTag(buf[ptr..limit]);
        if t.None? { return Null; }
        var (tag, n) := t.value;
        ptr := ptr + n;
        var step := ParseField(tag, buf, ptr, limit);
        match step
        case Next(p) => ptr := p;
        case Stop => return AtTag(ptr, tag);
        case Fail => return Null;
      }
      return AtLimit;
    }

    method ParseField(tag: uint32, buf: seq<byte>, ptr: nat, limit: nat) returns (step: Step)
      requires ptr <= limit <= |buf|
      modifies this
      ensures StepAgrees(Player.Accept, step, old(Value()), Value(), tag, buf, ptr, limit, NESTED_DEPTH)
    {
      hide Parse, ParseAfterTag;
      if tag == 8 || tag == 32 || tag == 40 {
        var v;
        v, step := TakeVarint(Player.Accept, Value(), tag, buf, ptr, limit, NESTED_DEPTH);
        if step.Next? {
          if tag == 8 { objectid := v; }
          else if tag == 32 { mainstate := ToInt32(v); }
          else { dir := ToInt32(v); }
        }
      } else if tag == 21 || tag == 29 {
        var v;
        v, step := TakeFixed32(Player.Accept, Value(), tag, buf, ptr, limit, NESTED_DEPTH);
        if step.Next? {
          if tag == 21 { posx := v; } else { posy := v; }
        }
      } else {
        var found;
        found, step := TakeUnusual(Player.Accept, Value(), tag, buf, ptr, limit, NESTED_DEPTH);
        unknown := unknown + found;
      }
    }

    method ByteSizeLong() returns (total: nat)
      modifies `cachedSize
      ensures total == |WritePlayer(Value())| && Value() == old(Value())
      ensures cachedSize == ToInt32(total)
    {
      total := ScalarsSize();
      EncodeFieldsConcat(Body().Declared(), unknown);
      total := total + |EncodeFields(unknown)|;
      cachedSize := ToInt32(total);
    }

    method ScalarsSize() returns (total: nat)
      ensures total == |EncodeFields(Body().Declared())|
    {
      hide EncodeFields, EncodeField, VarintSize;
      total := 0;
      if objectid != 0 { total := total + 1 + VarintSize(objectid); }
      if posx != 0 { total := total + 1 + 4; }
      if posy != 0 { total := total + 1 + 4; }
      if mainstate != 0 { total := total + 1 + VarintSize(SignExtend(mainstate)); }
      if dir != 0 { total := total + 1 + VarintSize(SignExtend(dir)); }

      ghost var f1 := Optional(objectid != 0, Varint(1, objectid));
      ghost var f2 := f1 + Optional(posx != 0, Fixed32(2, posx));
      ghost var f3 := f2 + Optional(posy != 0, Fixed32(3, posy));
      ghost var f4 := f3 + Optional(mainstate != 0, Varint(4, SignExtend(mainstate)));
      EncodeNothing();
      assert [] + f1 == f1;
      OptionalVarintSize([], 1, objectid);
      OptionalSize(f1, posx != 0, Fixed32(2, posx));
      OptionalSize(f2, posy != 0, Fixed32(3, posy));
      OptionalVarintSize(f3, 4, SignExtend(mainstate));
      OptionalVarintSize(f4, 5, SignExtend(dir));
      Fixed32FieldSize(2, posx);
      Fixed32FieldSize(3, posy);
    }

    method InternalSerialize(target: array<byte>, pos: nat) returns (end: nat)
      requires pos + |WritePlayer(Value())| <= target.Length
      modifies target
      ensures end == pos + |WritePlayer(Value())|
      ensures target[..end] == old(target[..pos]) + WritePlayer(Value())
      ensures forall i | end <= i < target.Length :: target[i] == old(target[i])
    {
      hide EncodeFields, EncodeField;
      ghost var base := target[..pos];
      ghost var f1 := Optional(objectid != 0, Varint(1, objectid));
      ghost var f2 := f1 + Optional(posx != 0, Fixed32(2, posx));
      ghost var f3 := f2 + Optional(posy != 0, Fixed32(3, posy));
      ghost var f4 := f3 + Optional(mainstate != 0, Varint(4, SignExtend(mainstate)));
      ghost var f5 := f4 + Optional(dir != 0, Varint(5, SignExtend(dir)));
      PrefixSize(f1, Optional(posx != 0, Fixed32(2, posx)));
      PrefixSize(f2, Optional(posy != 0, Fixed32(3, posy)));
      PrefixSize(f3, Optional(mainstate != 0, Varint(4, SignExtend(mainstate))));
      PrefixSize(f4, Optional(dir != 0, Varint(5, SignExtend(dir))));
      EncodeFieldsConcat(f5, unknown);
      EncodeNothing();
      assert [] + f1 == f1 && base + [] == base;
      end := PutOptional(target, pos, objectid != 0, Varint(1, objectid), base, []);
      end := PutOptional(target, end, posx != 0, Fixed32(2, posx), base, f1);
      end := PutOptional(target, end, posy != 0, Fixed32(3, posy), base, f2);
      end := PutOptional(target, end, mainstate != 0, Varint(4, SignExtend(mainstate)), base, f3);
      end := PutOptional(target, end, dir != 0, Varint(5, SignExtend(dir)), base, f4);
      end := PutBytes(target, end, EncodeFields(unknown));
      Associate(base, EncodeFields(f5), EncodeFields(unknown));
    }

    method MergeFrom(from: PlayerInfoMessage)
      requires from != this
      modifies this
      ensures Value() == MergePlayer(old(Value()), from.Value())
    {
      if from.objectid != 0 { objectid := from.objectid; }
      if from.posx != 0 { posx := from.posx; }
      if from.posy != 0 { posy := from.posy; }
      if from.mainstate != 0 { mainstate := from.mainstate; }
      if from.dir != 0 { dir := from.dir; }
      unknown := unknown + from.unknown;
    }
  }

  class S_MyPlayer {
    var info: PlayerInfoMessage?
    var unknown: seq<Field>
    var cachedSize: int32

    ghost function Value(): MyPlayerMessage
      reads this, info
    {
      Message(MyPlayer(if info == null then None else Some(info.Value())), unknown)
    }

    constructor ()
      ensures Value() == EMPTY_MY_PLAYER && info == null
    {
      info, unknown, cachedSize := null, [], 0;
    }

    method Clear()
      modifies this
      ensures Value() == EMPTY_MY_PLAYER && info == null
    {
      info, unknown := null, [];
    }

    method InternalParse(buf: seq<byte>, start: nat, limit: nat) returns (end: ParseEnd)
      requires start <= limit <= |buf|
      modifies this, info
      ensures Agrees(end, Value(), Parse(MyPlayer.Accept, old(Value()), buf[start..limit], TOP_DEPTH), buf, limit)
      ensures info == old(info) || fresh(info)
    {
      hide Parse, ParseAfterTag;
      ParseEmptyAtLimit(MyPlayer.Accept, buf, limit, TOP_DEPTH);
      var ptr := start;
      while ptr < limit
        invariant start <= ptr <= limit
        invariant Parse(MyPlayer.Accept, Value(), buf[ptr..limit], TOP_DEPTH)
               == Parse(MyPlayer.Accept, old(Value()), buf[start..limit], TOP_DEPTH)
        invariant info == old(info) || fresh(info)
        decreases limit - ptr
      {
        StepTag(MyPlayer.Accept, Value(), buf, ptr, limit, TOP_DEPTH);
        var t := ReadTag(buf[ptr..limit]);
        if t.None? { return Null; }
        var (tag, n) := t.value;
        ptr := ptr + n;
        var step := ParseField(tag, buf, ptr, limit);
        match step
        case Next(p) => ptr := p;
        case Stop => return AtTag(ptr, tag);
        case Fail => return Null;
      }
      return AtLimit;
    }

    method ParseField(tag: uint32, buf: seq<byte>, ptr: nat, limit: nat) returns (step: Step)
      requires ptr <= limit <= |buf|
      modifies this, info
      ensures StepAgrees(MyPlayer.Accept, step, old(Value()), Value(), tag, buf, ptr, limit, TOP_DEPTH)
      ensures info == old(info) || fresh(info)
    {
      hide Parse, ParseAfterTag;
      if tag == 10 {
        ghost var m := Value();
        var target := MutableInfo();
        var body;
        body, step := TakeLength(MyPlayer.Accept, m, tag, buf, ptr, limit, TOP_DEPTH);
        if step.Fail? { return; }
        var end := target.InternalParse(buf, body, step.ptr);
        if end != AtLimit { return Fail; }
      } else {
        var found;
        found, step := TakeUnusual(MyPlayer.Accept, Value(), tag, buf, ptr, limit, TOP_DEPTH);
        unknown := unknown + found;
      }
    }

    /** The submessage, created empty when there is none yet. */
    method MutableInfo() returns (target: PlayerInfoMessage)
      modifies `info
      ensures target == info && unknown == old(unknown)
      ensures old(info) != null ==> info == old(info)
      ensures old(info) == null ==> fresh(info) && info.Value() == EMPTY_PLAYER
    {
      if info == null { info := new PlayerInfoMessage(); }
      target := info;
    }

    method MergeFrom(from: S_MyPlayer)
      requires from != this && (from.info != null ==> from.info != info)
      modifies this, info
      ensures Value() == MergeMyPlayer(old(Value()), from.Value())
    {
      if from.info != null {
        var target := MutableInfo();
        target.MergeFrom(from.info);
      }
      unknown := unknown + from.unknown;
    }

    method ByteSizeLong() returns (total: nat)
      modifies `cachedSize, info
      ensures total == |WriteMyPlayer(Value())| && Value() == old(Value())
      ensures total < TWO31 ==> cachedSize == total && (info != null ==> info.cachedSize == |WritePlayer(info.Value())|)
    {
      hide EncodeField, EncodeFields, ToInt32;
      total := 0;
      EncodeFieldsConcat(Value().body.Declared(), unknown);
      EncodeNothing();
      if info != null {
        var n := info.ByteSizeLong();
        if n < TWO31 { ToInt32Small(n); }
        total := 1 + n + VarintSize(n);
        EncodeSingle(Length(1, WritePlayer(info.Value())));
        LengthFieldSize(1, WritePlayer(info.Value()));
      }
      total := total + |EncodeFields(unknown)|;
      cachedSize := ToInt32(total);
      if total < TWO31 { ToInt32Small(total); }
    }

    method InternalSerialize(target: array<byte>, pos: nat) returns (end: nat)
      requires info != null ==> info.cachedSize == |WritePlayer(info.Value())|
      requires pos + |WriteMyPlayer(Value())| <= target.Length
      modifies target
      ensures end == pos + |WriteMyPlayer(Value())|
      ensures target[..end] == old(target[..pos]) + WriteMyPlayer(Value())
      ensures forall i | end <= i < target.Length :: target[i] == old(target[i])
    {
      hide EncodeField, EncodeFields, WritePlayer;
      ghost var base, declared := target[..pos], Value().body.Declared();
      EncodeFieldsConcat(declared, unknown);
      EncodeNothing();
      end := pos;
      if info != null {
        EncodeSingle(Length(1, WritePlayer(info.Value())));
        end := WriteInfo(target, pos, info, info.cachedSize);
      }
      assert target[..end] == base + EncodeFields(declared);
      end := PutBytes(target, end, EncodeFields(unknown));
      Associate(base, EncodeFields(declared), EncodeFields(unknown));
    }
  }

  /** `InternalWriteMessage(1, ...)`: the tag, the cached size, then the submessage itself. */
  method WriteInfo(target: array<byte>, pos: nat, p: PlayerInfoMessage, cachedSize: int) returns (end: nat)
    requires cachedSize == |WritePlayer(p.Value())|
    requires pos + |EncodeField(Length(1, WritePlayer(p.Value())))| <= target.Length
    modifies target
    ensures end == pos + |EncodeField(Length(1, WritePlayer(p.Value())))|
    ensures target[..end] == old(target[..pos]) + EncodeField(Length(1, WritePlayer(p.Value())))
    ensures forall i | end <= i < target.Length :: target[i] == old(target[i])
  {
    ghost var f := Length(1, WritePlayer(p.Value()));
    end := PutBytes(target, pos, [10]);
    end := PutBytes(target, end, EncodeVarint(cachedSize));
    end := p.InternalSerialize(target, end);
    assert EncodeField(f) == [10] + EncodeVarint(cachedSize) + WritePlayer(p.Value());
  }
}
