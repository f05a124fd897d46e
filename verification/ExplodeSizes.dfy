/** The size of a written `S_Explode`, part by part. */
module ExplodeSizes {
  import opened Wire
  import opened Parsing
  import opened Protocol
  import opened Output

  /** `UInt64Size` over the whole list. */
  function IdsSize(ids: seq<uint64>): (n: nat)
    ensures n == |PackVarints(ids)|
  {
    if ids == [] then 0 else VarintSize(ids[0]) + IdsSize(ids[1..])
  }

  function PackedFieldSize(ids: seq<uint64>): nat {
    if ids != [] then |EncodeField(Length(8, PackVarints(ids)))| else 0
  }

  lemma PackedNonEmpty(ids: seq<uint64>)
    ensures ids == [] <==> |PackVarints(ids)| == 0
  {
  }

  lemma ScalarsSizes(b: Explode)
    ensures |EncodeFields(b.Scalars())|
         == (if b.objectid != 0 then 1 + VarintSize(b.objectid) else 0)
          + (if b.up != 0 then 1 + VarintSize(SignExtend(b.up)) else 0)
          + (if b.down != 0 then 1 + VarintSize(SignExtend(b.down)) else 0)
          + (if b.left != 0 then 1 + VarintSize(SignExtend(b.left)) else 0)
          + (if b.right != 0 then 1 + VarintSize(SignExtend(b.right)) else 0)
  {
    hide VarintSize;
    var f1 := Optional(b.objectid != 0, Varint(1, b.objectid));
    var f2 := f1 + Optional(b.up != 0, Varint(2, SignExtend(b.up)));
    var f3 := f2 + Optional(b.down != 0, Varint(3, SignExtend(b.down)));
    var f4 := f3 + Optional(b.left != 0, Varint(4, SignExtend(b.left)));
    assert [] + f1 == f1;
    OptionalVarintSize([], 1, b.objectid);
    OptionalVarintSize(f1, 2, SignExtend(b.up));
    OptionalVarintSize(f2, 3, SignExtend(b.down));
    OptionalVarintSize(f3, 4, SignExtend(b.left));
    OptionalVarintSize(f4, 5, SignExtend(b.right));
  }

  /** The parts a size adds up to. */
  lemma ExplodeSize(m: ExplodeMessage)
    ensures |WriteExplode(m)| == |EncodeFields(m.body.Scalars())| + |EncodeFields(BlockRecords(m.body.blocks))|
                               + PackedFieldSize(m.body.ids) + |EncodeFields(m.unknown)|
  {
    var b := m.body;
    EncodeFieldsConcat(b.Scalars(), BlockRecords(b.blocks));
    OptionalSize(b.Scalars() + BlockRecords(b.blocks), b.ids != [], Length(8, PackVarints(b.ids)));
    EncodeFieldsConcat(b.Declared(), m.unknown);
  }

  /** The five scalar fields never take more than 55 bytes. */
  lemma ScalarsBound(b: Explode)
    ensures |EncodeFields(b.Scalars())| <= 55
  {
    hide EncodeFields, Explode.Scalars, VarintSize;
    Pow128Bounds();
    VarintSizeBound(b.objectid, 10);
    VarintSizeBound(SignExtend(b.up), 10);
    VarintSizeBound(SignExtend(b.down), 10);
    VarintSizeBound(SignExtend(b.left), 10);
    VarintSizeBound(SignExtend(b.right), 10);
    ScalarsSizes(b);
  }
}
