/** The Protocol Buffers wire format: base-128 varints, little-endian fixed-width values, and fields.

    A `Field` is one key/value pair of the wire.  Every generated parser and serialiser of the
    program is a consumer or a producer of such fields. */
module Wire {
  import opened Wrappers

  const TWO31 := 0x8000_0000
  const TWO32 := 0x1_0000_0000
  const TWO64 := 0x1_0000_0000_0000_0000

  type byte = x: int | 0 <= x < 256
  type uint32 = x: int | 0 <= x < TWO32
  type uint64 = x: int | 0 <= x < TWO64
  type int32 = x: int | -TWO31 <= x < TWO31

  /** The longest payload a length prefix may announce: INT_MAX less the 16 slop bytes of the
      input stream. */
  const MAX_PAYLOAD := 0x7FFF_FFFF - 16

  /** Field numbers run from 1 to this bound. */
  const MAX_NUMBER := 0x1FFF_FFFF

  //
  // Base 128 varints
  //

  function EncodeVarint(v: nat): (s: seq<byte>)
    ensures |s| >= 1
  {
    if v < 128 then [v] else [v % 128 + 128] + EncodeVarint(v / 128)
  }

  /** The value of the varint at the front of `s` and the number of bytes it takes.  `None` when the
      input ends first or `budget` bytes all carry the continuation bit. */
  function DecodeVarint(s: seq<byte>, budget: nat): (r: Option<(nat, nat)>)
    ensures r.Some? ==> 1 <= r.value.1 <= |s| && r.value.1 <= budget
  {
    if budget == 0 || s == [] then None
    else if s[0] < 128 then Some((s[0], 1))
    else match DecodeVarint(s[1..], budget - 1)
      case None => None
      case Some((v, n)) => Some((s[0] - 128 + 128 * v, n + 1))
  }

  function Pow128(n: nat): (p: nat)
    ensures p >= 1
  {
    if n == 0 then 1 else 128 * Pow128(n - 1)
  }

  lemma {:induction false} VarintRoundTrip(v: nat, s: seq<byte>, budget: nat)
    requires budget > 0 && v < Pow128(budget)
    ensures DecodeVarint(EncodeVarint(v) + s, budget) == Some((v, |EncodeVarint(v)|))
  {
    if v < 128 {
    } else {
      var e := EncodeVarint(v) + s;
      assert Pow128(budget) == 128 * Pow128(budget - 1) && Pow128(0) == 1;
      VarintRoundTrip(v / 128, s, budget - 1);
      assert e[1..] == EncodeVarint(v / 128) + s;
    }
  }

  lemma Pow128Bounds()
    ensures TWO32 <= Pow128(5) && TWO64 <= Pow128(10)
  {
    assert Pow128(2) == 128 * Pow128(1) == 128 * 128;
    assert Pow128(4) == 128 * Pow128(3) == 128 * 128 * Pow128(2);
    assert Pow128(5) == 128 * Pow128(4);
    assert Pow128(7) == 128 * Pow128(6) == 128 * 128 * Pow128(5);
    assert Pow128(9) == 128 * Pow128(8) == 128 * 128 * Pow128(7);
    assert Pow128(10) == 128 * Pow128(9);
  }

  /** Number of bytes of the varint of `v`. */
  function VarintSize(v: nat): (n: nat)
    ensures n == |EncodeVarint(v)|
  {
    if v < 128 then 1 else 1 + VarintSize(v / 128)
  }

  lemma {:induction false} VarintSizeBound(v: nat, n: nat)
    requires n > 0 && v < Pow128(n)
    ensures VarintSize(v) <= n
  {
    if v < 128 {
    } else {
      assert Pow128(n) == 128 * Pow128(n - 1) && Pow128(0) == 1;
      VarintSizeBound(v / 128, n - 1);
    }
  }

  /** A varint field of type `int32` is sign-extended to 64 bits when written ... */
  function SignExtend(v: int32): uint64 {
    if v < 0 then v + TWO64 else v
  }

  /** ... and truncated to its low 32 bits when read. */
  function ToInt32(v: nat): int32 {
    var w := v % TWO32;
    if w >= TWO31 then w - TWO32 else w
  }

  lemma ToInt32Small(v: nat)
    requires v < TWO31
    ensures ToInt32(v) == v && SignExtend(v) == v && v % TWO32 == v
  {
  }

  lemma Int32RoundTrip(v: int32)
    ensures ToInt32(SignExtend(v)) == v
    ensures SignExtend(v) == 0 <==> v == 0
    ensures v < 0 ==> VarintSize(SignExtend(v)) == 10
  {
    if v < 0 { NegativeTakesTenBytes(v); }
  }

  lemma NegativeTakesTenBytes(v: int32)
    requires v < 0
    ensures VarintSize(SignExtend(v)) == 10
  {
    var u := SignExtend(v);
    assert u / 128 / 128 / 128 / 128 / 128 / 128 / 128 / 128 / 128 == 1;
    Pow128Bounds();
    VarintSizeBound(u, 10);
    var a := u / 128 / 128 / 128;
    assert VarintSize(u) == 3 + VarintSize(a);
    var b := a / 128 / 128 / 128;
    assert VarintSize(a) == 3 + VarintSize(b);
    assert VarintSize(b) == 3 + VarintSize(b / 128 / 128 / 128);
  }

  //
  // Little-endian fixed-width values
  //

  function LittleEndian(v: nat, n: nat): (s: seq<byte>)
    ensures |s| == n
  {
    if n == 0 then [] else [v % 256] + LittleEndian(v / 256, n - 1)
  }

  function FromLittleEndian(s: seq<byte>): nat {
    if s == [] then 0 else s[0] + 256 * FromLittleEndian(s[1..])
  }

  function Pow256(n: nat): (p: nat)
    ensures p >= 1
  {
    if n == 0 then 1 else 256 * Pow256(n - 1)
  }

  lemma {:induction false} LittleEndianRoundTrip(v: nat, n: nat)
    requires v < Pow256(n)
    ensures FromLittleEndian(LittleEndian(v, n)) == v
  {
    if n == 0 {
    } else {
      LittleEndianRoundTrip(v / 256, n - 1);
      assert LittleEndian(v, n)[1..] == LittleEndian(v / 256, n - 1);
    }
  }

  lemma {:induction false} FromLittleEndianBound(s: seq<byte>)
    ensures FromLittleEndian(s) < Pow256(|s|)
  {
    if s == [] {
    } else {
      FromLittleEndianBound(s[1..]);
    }
  }

  lemma Pow256Values()
    ensures Pow256(2) == 0x1_0000 && Pow256(4) == TWO32 && Pow256(8) == TWO64
  {
    assert Pow256(2) == 256 * Pow256(1) == 256 * 256;
    assert Pow256(4) == 256 * Pow256(3) == 256 * 256 * Pow256(2);
    assert Pow256(6) == 256 * Pow256(5) == 256 * 256 * Pow256(4);
    assert Pow256(8) == 256 * Pow256(7) == 256 * 256 * Pow256(6);
  }

  function Load32(s: seq<byte>): uint32
    requires |s| == 4
  {
    FromLittleEndianBound(s); Pow256Values();
    FromLittleEndian(s)
  }

  function Load64(s: seq<byte>): uint64
    requires |s| == 8
  {
    FromLittleEndianBound(s); Pow256Values();
    FromLittleEndian(s)
  }

  //
  // Fields
  //

  datatype Field =
    | Varint(number: nat, value: uint64)
    | Fixed64(number: nat, bits64: uint64)
    | Length(number: nat, payload: seq<byte>)
    | Group(number: nat, fields: seq<Field>)
    | Fixed32(number: nat, bits: uint32)
  {
    function WireType(): (w: nat)
      ensures w < 8
    {
      match this
      case Varint(_, _) => 0
      case Fixed64(_, _) => 1
      case Length(_, _) => 2
      case Group(_, _) => 3
      case Fixed32(_, _) => 5
    }

    function Tag(): (t: nat)
      ensures t / 8 == number && t % 8 == WireType() != 4
    {
      8 * number + WireType()
    }
  }

  /** What a field writes after its tag. */
  function EncodePayload(f: Field): seq<byte>
    decreases f, 2
  {
    match f
    case Varint(_, v) => EncodeVarint(v)
    case Fixed64(_, v) => LittleEndian(v, 8)
    case Length(_, p) => EncodeVarint(|p|) + p
    case Group(n, fs) => EncodeGroup(fs, 8 * n + 4)
    case Fixed32(_, v) => LittleEndian(v, 4)
  }

  function EncodeField(f: Field): (s: seq<byte>)
    ensures |s| >= 1
    decreases f, 3
  {
    EncodeVarint(f.Tag()) + EncodePayload(f)
  }

  function EncodeFields(fs: seq<Field>): seq<byte>
    decreases fs, 0
  {
    if fs == [] then [] else EncodeField(fs[0]) + EncodeFields(fs[1..])
  }

  /** The fields of a group and its end tag. */
  function EncodeGroup(fs: seq<Field>, end: nat): seq<byte>
    decreases fs, 1
  {
    EncodeFields(fs) + EncodeVarint(end)
  }

  lemma Associate(a: seq<byte>, b: seq<byte>, c: seq<byte>)
    ensures (a + b) + c == a + (b + c)
  {
  }

  lemma EncodeGroupSplit(fs: seq<Field>, end: nat, s: seq<byte>)
    ensures fs == [] ==> EncodeGroup(fs, end) + s == EncodeVarint(end) + s
    ensures fs != [] ==> EncodeGroup(fs, end) + s == EncodeField(fs[0]) + (EncodeGroup(fs[1..], end) + s)
    ensures fs != [] ==> |EncodeGroup(fs, end)| == |EncodeField(fs[0])| + |EncodeGroup(fs[1..], end)|
  {
    if fs != [] {
      Associate(EncodeField(fs[0]), EncodeFields(fs[1..]), EncodeVarint(end));
      Associate(EncodeField(fs[0]), EncodeGroup(fs[1..], end), s);
    }
  }

  lemma {:induction false} EncodeFieldsConcat(fs: seq<Field>, gs: seq<Field>)
    ensures EncodeFields(fs + gs) == EncodeFields(fs) + EncodeFields(gs)
  {
    if fs == [] {
      assert fs + gs == gs;
    } else {
      assert (fs + gs)[0] == fs[0] && (fs + gs)[1..] == fs[1..] + gs;
      EncodeFieldsConcat(fs[1..], gs);
      Associate(EncodeField(fs[0]), EncodeFields(fs[1..]), EncodeFields(gs));
    }
  }

  /** A field the wire format can carry inside `depth` more levels of groups. */
  ghost predicate Encodable(f: Field, depth: nat)
    decreases f
  {
    && 1 <= f.number <= MAX_NUMBER
    && (f.Length? ==> |f.payload| <= MAX_PAYLOAD)
    && (f.Group? ==> depth > 0 && forall g | g in f.fields :: Encodable(g, depth - 1))
  }

  ghost predicate AllEncodable(fs: seq<Field>, depth: nat) {
    forall f | f in fs :: Encodable(f, depth)
  }

  /** What is found after a tag: the payload of a field, or nothing usable. */
  datatype Payload = Got(field: Field, size: nat) | Bad

  /** The fields before an end tag, that tag, and the bytes taken. */
  datatype GroupRead = Closed(fields: seq<Field>, end: uint32, size: nat) | NoGroup

  /** The tag at the front of `s` and its size: at most five bytes, kept to 32 bits. */
  function ReadTag(s: seq<byte>): (r: Option<(uint32, nat)>)
    ensures r.Some? ==> 1 <= r.value.1 <= |s|
  {
    match DecodeVarint(s, 5)
    case None => None
    case Some((v, n)) => Some((v % TWO32, n))
  }

  function ReadVarint64(s: seq<byte>): (r: Option<(uint64, nat)>)
    ensures r.Some? ==> 1 <= r.value.1 <= |s|
  {
    match DecodeVarint(s, 10)
    case None => None
    case Some((v, n)) => Some((v % TWO64, n))
  }

  /** A length prefix; sizes close to 2 GB are refused. */
  function ReadSize(s: seq<byte>): (r: Option<(nat, nat)>)
    ensures r.Some? ==> 1 <= r.value.1 <= |s| && r.value.0 <= MAX_PAYLOAD
  {
    match DecodeVarint(s, 5)
    case None => None
    case Some((v, n)) => if v <= MAX_PAYLOAD then Some((v, n)) else None
  }

  predicate IsEndTag(tag: uint32) { tag == 0 || tag % 8 == 4 }

  function ReadLength(s: seq<byte>): (r: Option<(seq<byte>, nat)>)
    ensures r.Some? ==> 1 <= r.value.1 <= |s| && |r.value.0| <= MAX_PAYLOAD
  {
    match ReadSize(s)
    case None => None
    case Some((size, n)) => if n + size <= |s| then Some((s[n..n + size], n + size)) else None
  }

  /** Reads what follows `tag`, whatever its field number. */
  function ReadPayload(tag: uint32, s: seq<byte>, depth: nat): (r: Payload)
    requires !IsEndTag(tag)
    ensures r.Got? ==> 1 <= r.size <= |s| && r.field.Tag() == tag
    decreases |s|, 3
  {
    var number := tag / 8;
    if number == 0 then Bad
    else if tag % 8 == 0 then
      match ReadVarint64(s)
      case None => Bad
      case Some((v, n)) => Got(Varint(number, v), n)
    else if tag % 8 == 1 then
      if |s| < 8 then Bad else Got(Fixed64(number, Load64(s[..8])), 8)
    else if tag % 8 == 2 then
      match ReadLength(s)
      case None => Bad
      case Some((p, n)) => Got(Length(number, p), n)
    else if tag % 8 == 3 then ReadGroupPayload(number, s, depth)
    else if tag % 8 == 5 then
      if |s| < 4 then Bad else Got(Fixed32(number, Load32(s[..4])), 4)
    else Bad
  }

  /** A group is read up to the end tag of its own number, one level deeper. */
  function ReadGroupPayload(number: nat, s: seq<byte>, depth: nat): (r: Payload)
    ensures r.Got? ==> 1 <= r.size <= |s| && r.field.Group? && r.field.number == number
    decreases |s|, 2
  {
    if depth == 0 then Bad
    else match ReadGroup(s, depth - 1)
      case NoGroup => Bad
      case Closed(fs, end, n) => if end == 8 * number + 4 then Got(Group(number, fs), n) else Bad
  }

  /** Reads fields up to an end tag. */
  function ReadGroup(s: seq<byte>, depth: nat): (r: GroupRead)
    ensures r.Closed? ==> 1 <= r.size <= |s|
    decreases |s|, 1
  {
    match ReadTag(s)
    case None => NoGroup
    case Some((tag, n)) =>
      if IsEndTag(tag) then Closed([], tag, n)
      else match ReadPayload(tag, s[n..], depth)
        case Bad => NoGroup
        case Got(f, k) =>
          match ReadGroup(s[n + k..], depth)
          case NoGroup => NoGroup
          case Closed(fs, end, rest) => Closed([f] + fs, end, n + k + rest)
  }

  /** Whatever is read could be written again. */
  lemma {:induction false} ReadPayloadEncodable(tag: uint32, s: seq<byte>, depth: nat)
    requires !IsEndTag(tag) && ReadPayload(tag, s, depth).Got?
    ensures Encodable(ReadPayload(tag, s, depth).field, depth)
    decreases |s|, 1
  {
    if tag % 8 == 3 { ReadGroupEncodable(s, depth - 1); }
  }

  lemma {:induction false} ReadGroupEncodable(s: seq<byte>, depth: nat)
    requires ReadGroup(s, depth).Closed?
    ensures AllEncodable(ReadGroup(s, depth).fields, depth)
    decreases |s|, 0
  {
    hide Encodable, ReadPayload, ReadTag;
    var (tag, n) := ReadTag(s).value;
    if !IsEndTag(tag) {
      ReadPayloadEncodable(tag, s[n..], depth);
      ReadGroupEncodable(s[n + ReadPayload(tag, s[n..], depth).size..], depth);
    }
  }

  lemma ReadTagEncoded(tag: uint32, s: seq<byte>)
    ensures ReadTag(EncodeVarint(tag) + s) == Some((tag, |EncodeVarint(tag)|))
  {
    Pow128Bounds();
    VarintRoundTrip(tag, s, 5);
  }

  lemma ReadTagOneByte(s: seq<byte>)
    requires s != [] && s[0] < 128
    ensures ReadTag(s) == Some((s[0], 1))
  {
  }

  lemma ReadVarintEncoded(v: uint64, s: seq<byte>)
    ensures ReadVarint64(EncodeVarint(v) + s) == Some((v, |EncodeVarint(v)|))
  {
    Pow128Bounds();
    VarintRoundTrip(v, s, 10);
  }

  lemma ReadLengthEncoded(p: seq<byte>, s: seq<byte>)
    requires |p| <= MAX_PAYLOAD
    ensures ReadLength(EncodeVarint(|p|) + p + s) == Some((p, |EncodeVarint(|p|)| + |p|))
  {
    var e := EncodeVarint(|p|);
    Pow128Bounds();
    VarintRoundTrip(|p|, p + s, 5);
    assert e + p + s == e + (p + s);
    assert (e + p + s)[|e|..|e| + |p|] == p;
  }

  /** Reading undoes writing, for every field with any suffix, through nested groups. */
  lemma {:induction false} ReadPayloadEncoded(f: Field, s: seq<byte>, depth: nat)
    requires Encodable(f, depth)
    ensures ReadPayload(f.Tag(), EncodePayload(f) + s, depth) == Got(f, |EncodePayload(f)|)
    decreases f, 2
  {
    if f.Group? {
      ReadGroupPayloadEncoded(f.number, f.fields, s, depth);
    } else if f.Varint? || f.Length? {
      ReadVariableEncoded(f, s, depth);
    } else {
      ReadFixedEncoded(f, s, depth);
    }
  }

  lemma {:induction false} ReadGroupPayloadEncoded(number: nat, fs: seq<Field>, s: seq<byte>, depth: nat)
    requires Encodable(Group(number, fs), depth)
    ensures ReadGroupPayload(number, EncodeGroup(fs, 8 * number + 4) + s, depth)
         == Got(Group(number, fs), |EncodeGroup(fs, 8 * number + 4)|)
    decreases fs, 1
  {
    ReadGroupEncoded(fs, 8 * number + 4, s, depth - 1);
  }

  lemma ReadVariableEncoded(f: Field, s: seq<byte>, depth: nat)
    requires Encodable(f, depth) && (f.Varint? || f.Length?)
    ensures ReadPayload(f.Tag(), EncodePayload(f) + s, depth) == Got(f, |EncodePayload(f)|)
  {
    match f
    case Varint(_, v) => ReadVarintEncoded(v, s);
    case Length(_, p) => ReadLengthEncoded(p, s);
  }

  lemma ReadFixedEncoded(f: Field, s: seq<byte>, depth: nat)
    requires Encodable(f, depth) && (f.Fixed32? || f.Fixed64?)
    ensures ReadPayload(f.Tag(), EncodePayload(f) + s, depth) == Got(f, |EncodePayload(f)|)
  {
    Pow256Values();
    match f
    case Fixed64(_, v) =>
      LittleEndianRoundTrip(v, 8);
      assert (EncodePayload(f) + s)[..8] == LittleEndian(v, 8);
    case Fixed32(_, v) =>
      LittleEndianRoundTrip(v, 4);
      assert (EncodePayload(f) + s)[..4] == LittleEndian(v, 4);
  }

  lemma {:induction false} ReadGroupEncoded(fs: seq<Field>, end: uint32, s: seq<byte>, depth: nat)
    requires AllEncodable(fs, depth) && IsEndTag(end)
    ensures ReadGroup(EncodeGroup(fs, end) + s, depth) == Closed(fs, end, |EncodeGroup(fs, end)|)
    decreases fs, 0
  {
    EncodeGroupSplit(fs, end, s);
    if fs == [] {
      ReadGroupEnd(end, s, depth);
    } else {
      hide ReadGroup, EncodePayload;
      assert Encodable(fs[0], depth);
      var tail := EncodeGroup(fs[1..], end) + s;
      ReadPayloadEncoded(fs[0], tail, depth);
      ReadGroupEncoded(fs[1..], end, s, depth);
      ReadGroupCons(fs[0], tail, depth, fs[1..], end, |EncodeGroup(fs[1..], end)|);
      assert fs == [fs[0]] + fs[1..];
    }
  }

  lemma ReadGroupEnd(end: uint32, s: seq<byte>, depth: nat)
    requires IsEndTag(end)
    ensures ReadGroup(EncodeGroup([], end) + s, depth) == Closed([], end, |EncodeGroup([], end)|)
  {
    EncodeGroupSplit([], end, s);
    ReadTagEncoded(end, s);
  }

  /** Where the tag and the payload of a written field are found. */
  lemma FieldSplit(f: Field, tail: seq<byte>)
    requires f.number <= MAX_NUMBER
    ensures ReadTag(EncodeField(f) + tail) == Some((f.Tag(), |EncodeVarint(f.Tag())|))
    ensures (EncodeField(f) + tail)[|EncodeVarint(f.Tag())|..] == EncodePayload(f) + tail
    ensures (EncodeField(f) + tail)[|EncodeField(f)|..] == tail
    ensures (EncodePayload(f) + tail)[|EncodePayload(f)|..] == tail
    ensures |EncodeField(f)| == |EncodeVarint(f.Tag())| + |EncodePayload(f)|
  {
    Associate(EncodeVarint(f.Tag()), EncodePayload(f), tail);
    ReadTagEncoded(f.Tag(), EncodePayload(f) + tail);
  }

  /** One step of reading a group, at a field that was written canonically. */
  lemma ReadGroupCons(f: Field, tail: seq<byte>, depth: nat, fs: seq<Field>, end: uint32, n: nat)
    requires Encodable(f, depth)
    requires ReadPayload(f.Tag(), EncodePayload(f) + tail, depth) == Got(f, |EncodePayload(f)|)
    requires ReadGroup(tail, depth) == Closed(fs, end, n)
    ensures ReadGroup(EncodeField(f) + tail, depth) == Closed([f] + fs, end, |EncodeField(f)| + n)
  {
    FieldSplit(f, tail);
    ReadGroupStep(EncodeField(f) + tail, depth);
  }

  lemma ReadGroupStep(s: seq<byte>, depth: nat)
    requires ReadTag(s).Some? && !IsEndTag(ReadTag(s).value.0)
    requires ReadPayload(ReadTag(s).value.0, s[ReadTag(s).value.1..], depth).Got?
    ensures var (tag, n) := ReadTag(s).value;
            var Got(f, k) := ReadPayload(tag, s[n..], depth);
            ReadGroup(s, depth) ==
            match ReadGroup(s[n + k..], depth)
            case NoGroup => NoGroup
            case Closed(fs, end, rest) => Closed([f] + fs, end, n + k + rest)
  {
  }
}
