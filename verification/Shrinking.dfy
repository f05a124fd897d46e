/** What is read is never longer when it is written again: the writer uses the shortest form of every
    varint, and the reader keeps nothing it was not sent. */
module Shrinking {
  import opened Wrappers
  import opened Wire
  import opened Parsing
  import opened Struct
  import opened Protocol
  import opened Output

  //
  // Fields
  //

  lemma {:induction false} VarintSizeMonotone(v: nat, w: nat)
    requires v <= w
    ensures VarintSize(v) <= VarintSize(w)
  {
    if v < 128 {
    } else {
      VarintSizeMonotone(v / 128, w / 128);
    }
  }

  lemma {:induction false} DecodedVarintSize(s: seq<byte>, budget: nat)
    requires DecodeVarint(s, budget).Some?
    ensures VarintSize(DecodeVarint(s, budget).value.0) <= DecodeVarint(s, budget).value.1
  {
    if s[0] < 128 {
    } else {
      DecodedVarintSize(s[1..], budget - 1);
      var (v, _) := DecodeVarint(s[1..], budget - 1).value;
      assert (s[0] - 128 + 128 * v) / 128 == v;
    }
  }

  lemma TagShrinks(s: seq<byte>)
    requires ReadTag(s).Some?
    ensures |EncodeVarint(ReadTag(s).value.0)| <= ReadTag(s).value.1
  {
    var (v, n) := DecodeVarint(s, 5).value;
    DecodedVarintSize(s, 5);
    VarintSizeMonotone(v % TWO32, v);
    assert VarintSize(v % TWO32) == |EncodeVarint(v % TWO32)|;
  }

  lemma Varint64Shrinks(s: seq<byte>)
    requires ReadVarint64(s).Some?
    ensures |EncodeVarint(ReadVarint64(s).value.0)| <= ReadVarint64(s).value.1
  {
    var (v, n) := DecodeVarint(s, 10).value;
    DecodedVarintSize(s, 10);
    VarintSizeMonotone(v % TWO64, v);
    assert VarintSize(v % TWO64) == |EncodeVarint(v % TWO64)|;
  }

  lemma LengthShrinks(s: seq<byte>)
    requires ReadLength(s).Some?
    ensures var (p, n) := ReadLength(s).value; |EncodeVarint(|p|) + p| <= n
  {
    DecodedVarintSize(s, 5);
    var (p, _) := ReadLength(s).value;
    assert VarintSize(|p|) == |EncodeVarint(|p|)|;
  }

  /** Every field takes at least as many bytes where it is read as where it is written. */
  lemma {:induction false} PayloadShrinks(tag: uint32, s: seq<byte>, depth: nat)
    requires !IsEndTag(tag) && ReadPayload(tag, s, depth).Got?
    ensures |EncodePayload(ReadPayload(tag, s, depth).field)| <= ReadPayload(tag, s, depth).size
    decreases |s|, 1
  {
    hide EncodeVarint, ReadGroup, ReadLength, ReadVarint64;
    if tag % 8 == 0 {
      Varint64Shrinks(s);
    } else if tag % 8 == 2 {
      LengthShrinks(s);
    } else if tag % 8 == 3 {
      GroupShrinks(s, depth - 1);
    }
  }

  lemma {:induction false} GroupShrinks(s: seq<byte>, depth: nat)
    requires ReadGroup(s, depth).Closed?
    ensures var Closed(fs, end, n) := ReadGroup(s, depth); |EncodeGroup(fs, end)| <= n
    decreases |s|, 0
  {
    hide EncodeVarint, EncodePayload, ReadPayload, ReadTag;
    var (tag, n) := ReadTag(s).value;
    TagShrinks(s);
    if !IsEndTag(tag) {
      PayloadShrinks(tag, s[n..], depth);
      var Got(f, k) := ReadPayload(tag, s[n..], depth);
      GroupShrinks(s[n + k..], depth);
      var Closed(fs, end, _) := ReadGroup(s[n + k..], depth);
      EncodeGroupSplit([f] + fs, end, []);
      assert ([f] + fs)[1..] == fs;
    }
  }

  //
  // Messages
  //

  lemma UnknownAppended(fs: seq<Field>, f: Field)
    ensures |EncodeFields(fs + [f])| == |EncodeFields(fs)| + |EncodeField(f)|
  {
    EncodeFieldsConcat(fs, [f]);
    EncodeSingle(f);
  }

  /** If no field adds more to the cost of a body than it takes on the wire, a message costs no more than
      what it was parsed from. */
  lemma {:induction false} ParseShrinks<K(!new)>(
    accept: (K, Field) -> Effect<K>, cost: K -> nat, m: Message<K>, s: seq<byte>, depth: nat)
    requires forall k, f :: accept(k, f).Set? ==> cost(accept(k, f).body) <= cost(k) + |EncodeField(f)|
    requires Parse(accept, m, s, depth).Done?
    ensures var m' := Parse(accept, m, s, depth).msg;
            cost(m'.body) + |EncodeFields(m'.unknown)| <= cost(m.body) + |EncodeFields(m.unknown)| + |s|
    decreases |s|
  {
    hide EncodeVarint, EncodePayload, EncodeFields, ReadPayload, ReadTag;
    if s == [] {
    } else {
      var (tag, n) := ReadTag(s).value;
      var Got(f, k) := ReadPayload(tag, s[n..], depth);
      var m' := Apply(accept, m, f).value;
      TagShrinks(s);
      PayloadShrinks(tag, s[n..], depth);
      UnknownAppended(m.unknown, f);
      ParseShrinks(accept, cost, m', s[n..][k..], depth);
    }
  }

  function BlockCost(k: Block): nat { |EncodeFields(k.Declared())| }

  lemma BlockCostIs(k: Block)
    ensures BlockCost(k) == (if k.blockid != 0 then |EncodeField(Varint(1, k.blockid))| else 0)
                          + (if k.itemid != 0 then |EncodeField(Varint(2, k.itemid))| else 0)
  {
    var f1 := Optional(k.blockid != 0, Varint(1, k.blockid));
    EncodeNothing();
    assert [] + f1 == f1;
    OptionalSize([], k.blockid != 0, Varint(1, k.blockid));
    OptionalSize(f1, k.itemid != 0, Varint(2, k.itemid));
  }

  /** A block is written in no more bytes than it was read from. */
  lemma BlockShrinks(p: seq<byte>)
    requires Parse(Block.Accept, EMPTY_BLOCK, p, NESTED_DEPTH).Done?
    ensures |WriteBlock(Parse(Block.Accept, EMPTY_BLOCK, p, NESTED_DEPTH).msg)| <= |p|
  {
    hide EncodeFields, EncodeField, Parse;
    forall k, f | Block.Accept(k, f).Set?
      ensures BlockCost(Block.Accept(k, f).body) <= BlockCost(k) + |EncodeField(f)|
    {
      BlockCostIs(k);
      BlockCostIs(Block.Accept(k, f).body);
    }
    ParseShrinks(Block.Accept, BlockCost, EMPTY_BLOCK, p, NESTED_DEPTH);
    var b := Parse(Block.Accept, EMPTY_BLOCK, p, NESTED_DEPTH).msg;
    BlockCostIs(EMPTY_BLOCK.body);
    EncodeNothing();
    EncodeFieldsConcat(b.body.Declared(), b.unknown);
  }

  lemma {:induction false} PackConcat(a: seq<uint64>, b: seq<uint64>)
    ensures PackVarints(a + b) == PackVarints(a) + PackVarints(b)
  {
    if a == [] {
      assert a + b == b;
    } else {
      assert (a + b)[0] == a[0] && (a + b)[1..] == a[1..] + b;
      PackConcat(a[1..], b);
    }
  }

  lemma {:induction false} UnpackShrinks(p: seq<byte>)
    requires UnpackVarints(p).Some?
    ensures |PackVarints(UnpackVarints(p).value)| <= |p|
  {
    hide EncodeVarint, ReadVarint64;
    if p == [] {
    } else {
      var (v, n) := ReadVarint64(p).value;
      Varint64Shrinks(p);
      UnpackShrinks(p[n..]);
      var ids := UnpackVarints(p[n..]).value;
      assert ([v] + ids)[1..] == ids;
    }
  }

  function BlocksCost(k: Explode): nat { |EncodeFields(BlockRecords(k.blocks))| }

  function IdsCost(k: Explode): nat { |PackVarints(k.ids)| }

  lemma BlocksCostAccepted(k: Explode, f: Field)
    requires Explode.Accept(k, f).Set?
    ensures BlocksCost(Explode.Accept(k, f).body) <= BlocksCost(k) + |EncodeField(f)|
    ensures !(f.Length? && f.number == 6) ==> BlocksCost(Explode.Accept(k, f).body) == BlocksCost(k)
  {
    hide EncodeFields, EncodeField, Parse, EncodeVarint;
    if f.Length? && f.number == 6 {
      var b := Parse(Block.Accept, EMPTY_BLOCK, f.payload, NESTED_DEPTH).msg;
      BlockShrinks(f.payload);
      BlockRecordsConcat(k.blocks, [b]);
      assert BlockRecords([b]) == [Length(6, WriteBlock(b))];
      UnknownAppended(BlockRecords(k.blocks), Length(6, WriteBlock(b)));
      VarintSizeMonotone(|WriteBlock(b)|, |f.payload|);
      LengthFieldSize(6, WriteBlock(b));
      LengthFieldSize(6, f.payload);
    }
  }

  lemma IdsCostAccepted(k: Explode, f: Field)
    requires Explode.Accept(k, f).Set?
    ensures IdsCost(Explode.Accept(k, f).body) <= IdsCost(k) + |EncodeField(f)|
    ensures f.Length? && f.number == 6 ==> IdsCost(Explode.Accept(k, f).body) == IdsCost(k)
  {
    hide EncodeFields, Parse, EncodeVarint;
    if f.Length? && f.number == 8 {
      UnpackShrinks(f.payload);
      PackConcat(k.ids, UnpackVarints(f.payload).value);
    } else if f.Varint? && f.number == 8 {
      PackConcat(k.ids, [f.value]);
      assert PackVarints([f.value]) == EncodeVarint(f.value) + PackVarints([]);
    }
  }

  function ListsCost(k: Explode): nat { BlocksCost(k) + IdsCost(k) }

  /** The lists and unknown fields of an `S_Explode` take no more bytes than it was read from. */
  lemma ExplodeListsShrink(s: seq<byte>)
    requires Parse(Explode.Accept, EMPTY_EXPLODE, s, TOP_DEPTH).Done?
    ensures var m := Parse(Explode.Accept, EMPTY_EXPLODE, s, TOP_DEPTH).msg;
            ListsCost(m.body) + |EncodeFields(m.unknown)| <= |s|
  {
    hide BlocksCost, IdsCost, EncodeField, Parse, Explode.Accept, EncodeFields;
    forall k, f | Explode.Accept(k, f).Set?
      ensures ListsCost(Explode.Accept(k, f).body) <= ListsCost(k) + |EncodeField(f)|
    {
      ListsCostAccepted(k, f);
    }
    ParseShrinks(Explode.Accept, ListsCost, EMPTY_EXPLODE, s, TOP_DEPTH);
    NoLists();
  }

  lemma ListsCostAccepted(k: Explode, f: Field)
    requires Explode.Accept(k, f).Set?
    ensures ListsCost(Explode.Accept(k, f).body) <= ListsCost(k) + |EncodeField(f)|
  {
    hide BlocksCost, IdsCost, EncodeField, Parse;
    BlocksCostAccepted(k, f);
    IdsCostAccepted(k, f);
  }

  lemma NoLists()
    ensures ListsCost(EMPTY_EXPLODE.body) == 0 && EncodeFields(EMPTY_EXPLODE.unknown) == []
  {
  }
}
