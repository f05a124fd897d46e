/** Writing into a buffer at a position, the way the serialisers advance `target`, and the sizes the
    size functions add up. */
module Output {
  import opened Wire
  import opened Parsing

  method PutBytes(target: array<byte>, pos: nat, s: seq<byte>) returns (end: nat)
    requires pos + |s| <= target.Length
    modifies target
    ensures end == pos + |s|
    ensures target[..end] == old(target[..pos]) + s
    ensures forall i | end <= i < target.Length :: target[i] == old(target[i])
  {
    end := pos;
    while end < pos + |s|
      invariant pos <= end <= pos + |s|
      invariant target[..end] == old(target[..pos]) + s[..end - pos]
      invariant forall i | end <= i < target.Length :: target[i] == old(target[i])
    {
      target[end] := s[end - pos];
      end := end + 1;
      assert s[..end - pos] == s[..end - 1 - pos] + [s[end - 1 - pos]];
    }
    assert s[..end - pos] == s;
  }

  /** Behind `base` and the fields already written, writes one more field if it is `present`. */
  method PutOptional(
    target: array<byte>, pos: nat, present: bool, f: Field, ghost base: seq<byte>, ghost fs: seq<Field>)
    returns (end: nat)
    requires pos <= target.Length && target[..pos] == base + EncodeFields(fs)
    requires |base| + |EncodeFields(fs + Optional(present, f))| <= target.Length
    modifies target
    ensures end == |base| + |EncodeFields(fs + Optional(present, f))|
    ensures target[..end] == base + EncodeFields(fs + Optional(present, f))
    ensures forall i | end <= i < target.Length :: target[i] == old(target[i])
  {
    hide EncodeField, EncodeFields;
    EncodeFieldsConcat(fs, Optional(present, f));
    EncodeNothing();
    end := pos;
    if present {
      EncodeSingle(f);
      end := PutBytes(target, pos, EncodeField(f));
      Associate(base, EncodeFields(fs), EncodeField(f));
    }
  }

  /** Equal, or both beyond the 2 GB that the serialiser refuses. */
  predicate SameSize(a: nat, b: nat) { a == b || (a >= TWO31 && b >= TWO31) }

  lemma SameSizeSum(a: nat, b: nat, c: nat, d: nat)
    requires SameSize(a, b) && SameSize(c, d)
    ensures SameSize(a + c, b + d)
  {
  }

  lemma PrefixSize(fs: seq<Field>, gs: seq<Field>)
    ensures |EncodeFields(fs)| <= |EncodeFields(fs + gs)|
  {
    EncodeFieldsConcat(fs, gs);
  }

  lemma WrittenBehind(now: seq<byte>, before: seq<byte>, pos: nat, end: nat, w: seq<byte>)
    requires pos <= end <= |now| == |before| && end == pos + |w|
    requires now[..end] == before[..pos] + w
    ensures now[pos..end] == w && now[..pos] == before[..pos]
    ensures forall i | 0 <= i < pos :: now[i] == before[i]
  {
    assert now[..end][pos..] == w && now[..end][..pos] == before[..pos];
    assert forall i | 0 <= i < pos :: now[i] == now[..pos][i] && before[i] == before[..pos][i];
  }

  lemma OptionalPresent(f: Field)
    ensures Optional(true, f) == [f]
  {
  }

  lemma EncodeNothing()
    ensures EncodeFields([]) == []
  {
  }

  lemma EncodeSingle(f: Field)
    ensures EncodeFields([f]) == EncodeField(f)
  {
  }

  /** What one optional field adds to the size of a message. */
  lemma OptionalSize(fs: seq<Field>, present: bool, f: Field)
    ensures |EncodeFields(fs + Optional(present, f))| == |EncodeFields(fs)| + if present then |EncodeField(f)| else 0
  {
    EncodeFieldsConcat(fs, Optional(present, f));
    EncodeSingle(f);
  }

  lemma VarintFieldSize(n: nat, v: uint64)
    requires n < 16
    ensures |EncodeField(Varint(n, v))| == 1 + VarintSize(v)
  {
  }

  lemma Fixed32FieldSize(n: nat, v: uint32)
    requires n < 15
    ensures |EncodeField(Fixed32(n, v))| == 1 + 4
  {
  }

  lemma LengthFieldSize(n: nat, p: seq<byte>)
    requires n < 15
    ensures |EncodeField(Length(n, p))| == 1 + VarintSize(|p|) + |p|
  {
    assert EncodePayload(Length(n, p)) == EncodeVarint(|p|) + p;
  }

  lemma OptionalVarintSize(fs: seq<Field>, n: nat, v: uint64)
    requires n < 16
    ensures |EncodeFields(fs + Optional(v != 0, Varint(n, v)))|
         == |EncodeFields(fs)| + if v != 0 then 1 + VarintSize(v) else 0
  {
    OptionalSize(fs, v != 0, Varint(n, v));
    VarintFieldSize(n, v);
  }
}
