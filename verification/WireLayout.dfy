/** The wire format digit by digit: which bytes stand for which number, field and end of a message. */
module WireLayout {
  import opened Wrappers
  import opened Wire
  import opened Parsing

  //
  // Digits
  //

  lemma Division(v: nat, d: nat)
    requires d > 0
    ensures d * (v / d) <= v < d * (v / d + 1)
  {
  }

  lemma QuotientIs(v: nat, d: nat, q: nat)
    requires d > 0 && d * q <= v < d * (q + 1)
    ensures v / d == q
  {
    var e := v / d;
    Division(v, d);
    if e < q {
      Scale(d, e + 1, q);
      assert false;
    } else if e > q {
      Scale(d, q + 1, e);
      assert false;
    }
  }

  lemma DivideTwice(v: nat, a: nat, p: nat)
    requires a > 0 && p > 0
    ensures a * p > 0 && v / (a * p) == v / a / p
  {
    var u := v / a;
    var q := u / p;
    Division(v, a);
    Division(u, p);
    Scale(a, p * q, u);
    Scale(a, u + 1, p * (q + 1));
    Regroup(a, p, q);
    Regroup(a, p, q + 1);
    Scale(a, 1, p);
    QuotientIs(v, a * p, q);
  }

  lemma Scale(a: nat, m: nat, n: nat)
    requires m <= n
    ensures a * m <= a * n
  {
  }

  lemma Regroup(a: nat, p: nat, q: nat)
    ensures a * (p * q) == (a * p) * q
  {
  }

  /** Byte `i` of a varint holds the `i`th group of seven bits, the lowest first; all but the last byte carry
      the continuation bit, and the last group is not zero unless it is the only one. */
  lemma {:induction false} VarintDigits(v: nat, i: nat)
    requires i < |EncodeVarint(v)|
    ensures EncodeVarint(v)[i] % 128 == v / Pow128(i) % 128
    ensures EncodeVarint(v)[i] >= 128 <==> i < |EncodeVarint(v)| - 1
    ensures i == |EncodeVarint(v)| - 1 > 0 ==> EncodeVarint(v)[i] > 0
  {
    if i == 0 {
    } else {
      VarintDigits(v / 128, i - 1);
      DivideTwice(v, 128, Pow128(i - 1));
      assert EncodeVarint(v)[i] == EncodeVarint(v / 128)[i - 1];
    }
  }

  lemma LowDigit(d: nat, u: nat, base: nat)
    requires d < base
    ensures (d + base * u) / base == u && (d + base * u) % base == d
  {
    QuotientIs(d + base * u, base, u);
    Remainder(d + base * u, base);
  }

  lemma Remainder(v: nat, d: nat)
    requires d > 0
    ensures v % d == v - d * (v / d)
  {
  }

  lemma {:induction false} DecodedBound(s: seq<byte>, budget: nat)
    requires DecodeVarint(s, budget).Some?
    ensures DecodeVarint(s, budget).value.0 < Pow128(DecodeVarint(s, budget).value.1)
  {
    if s[0] < 128 {
      assert Pow128(1) == 128 * Pow128(0);
    } else {
      var (u, m) := DecodeVarint(s[1..], budget - 1).value;
      DecodedBound(s[1..], budget - 1);
      Scale(128, u + 1, Pow128(m));
    }
  }

  /** What is read as a varint: bytes with the continuation bit up to one without, holding the groups of
      seven bits of the value. */
  lemma {:induction false} DecodedDigits(s: seq<byte>, budget: nat, i: nat)
    requires DecodeVarint(s, budget).Some? && i < DecodeVarint(s, budget).value.1
    ensures var (v, n) := DecodeVarint(s, budget).value;
            v / Pow128(i) % 128 == s[i] % 128 && (s[i] >= 128 <==> i < n - 1)
  {
    if s[0] < 128 {
    } else {
      var (u, m) := DecodeVarint(s[1..], budget - 1).value;
      LowDigit(s[0] - 128, u, 128);
      if i > 0 {
        DecodedDigits(s[1..], budget - 1, i - 1);
        DivideTwice(s[0] - 128 + 128 * u, 128, Pow128(i - 1));
      }
    }
  }

  /** Reading fails exactly when the input or the budget ends before a byte without the continuation bit. */
  lemma {:induction false} DecodeFailsIff(s: seq<byte>, budget: nat)
    ensures DecodeVarint(s, budget).None? <==> forall i | 0 <= i < |s| && i < budget :: s[i] >= 128
  {
    if budget == 0 || s == [] || s[0] < 128 {
    } else {
      DecodeFailsIff(s[1..], budget - 1);
      assert forall i | 1 <= i < |s| :: s[i] == s[1..][i - 1];
    }
  }

  lemma {:induction false} LittleEndianDigits(v: nat, n: nat, i: nat)
    requires i < n
    ensures LittleEndian(v, n)[i] == v / Pow256(i) % 256
  {
    if i == 0 {
    } else {
      LittleEndianDigits(v / 256, n - 1, i - 1);
      DivideTwice(v, 256, Pow256(i - 1));
    }
  }

  lemma {:induction false} FromLittleEndianDigits(s: seq<byte>, i: nat)
    requires i < |s|
    ensures FromLittleEndian(s) / Pow256(i) % 256 == s[i]
  {
    if i == 0 {
    } else {
      var u := FromLittleEndian(s[1..]);
      FromLittleEndianDigits(s[1..], i - 1);
      LowDigit(s[0], u, 256);
      DivideTwice(s[0] + 256 * u, 256, Pow256(i - 1));
    }
  }

  /** The casts between 32 and 64 bits keep the low bits. */
  lemma CastsKeepLowBits(v: int32, w: nat)
    ensures SignExtend(v) % TWO32 == v % TWO32 && (SignExtend(v) - v) % TWO64 == 0
    ensures ToInt32(w) % TWO32 == w % TWO32
  {
  }

  //
  // Fields
  //

  /** A key is the field number and the wire type in the low three bits; a length comes before its bytes, and
      a group ends with the key of its number and type 4. */
  lemma FieldLayout(n: nat, v: uint64, bits: uint32, p: seq<byte>, fs: seq<Field>)
    ensures EncodeField(Varint(n, v)) == EncodeVarint(8 * n) + EncodeVarint(v)
    ensures EncodeField(Fixed64(n, v)) == EncodeVarint(8 * n + 1) + LittleEndian(v, 8)
    ensures EncodeField(Length(n, p)) == EncodeVarint(8 * n + 2) + (EncodeVarint(|p|) + p)
    ensures EncodeField(Group(n, fs))
         == EncodeVarint(8 * n + 3) + (EncodeFields(fs) + EncodeVarint(8 * n + 4))
    ensures EncodeField(Fixed32(n, bits)) == EncodeVarint(8 * n + 5) + LittleEndian(bits, 4)
  {
    assert EncodePayload(Group(n, fs)) == EncodeGroup(fs, 8 * n + 4);
  }

  /** What a parser does at a key, whatever the message: it stops at zero and at the key that ends a group,
      and fails at wire types 6 and 7, at other keys of number 0, and where no key can be read. */
  lemma KeyEndsParse<K>(accept: (K, Field) -> Effect<K>, m: Message<K>, tag: uint32, s: seq<byte>, depth: nat)
    ensures var outcome := Parse(accept, m, EncodeVarint(tag) + s, depth);
            && (tag == 0 || tag % 8 == 4 ==> outcome == Stopped(m, tag, s))
            && (tag % 8 >= 6 || (1 <= tag < 8 && tag != 4) ==> outcome == Failed)
    ensures s != [] && ReadTag(s).None? ==> Parse(accept, m, s, depth) == Failed
  {
    ReadTagEncoded(tag, s);
    assert (EncodeVarint(tag) + s)[|EncodeVarint(tag)|..] == s;
  }

  /** A field that is recognised sets what `accept` says; one that is not is kept, behind those kept before. */
  lemma FieldRead<K>(accept: (K, Field) -> Effect<K>, m: Message<K>, f: Field, s: seq<byte>, depth: nat)
    requires Encodable(f, depth)
    ensures Parse(accept, m, EncodeField(f) + s, depth) ==
            match accept(m.body, f)
            case Set(k) => Parse(accept, m.(body := k), s, depth)
            case Unusual => Parse(accept, m.(unknown := m.unknown + [f]), s, depth)
            case Malformed => Failed
  {
    ParseEncodedField(accept, m, f, s, depth);
  }

  //
  // Input that ends too soon
  //

  /** A key or a length takes at most five bytes, a value ten; reading fails exactly when the last of them, or
      of the input, still carries the continuation bit, and a length also when it is over the limit. */
  lemma ReadsFailIff(s: seq<byte>)
    ensures ReadTag(s).None? <==> forall i | 0 <= i < |s| && i < 5 :: s[i] >= 128
    ensures ReadVarint64(s).None? <==> forall i | 0 <= i < |s| && i < 10 :: s[i] >= 128
    ensures ReadSize(s).None? <==>
              (forall i | 0 <= i < |s| && i < 5 :: s[i] >= 128) || DecodeVarint(s, 5).value.0 > 2147483631
  {
    DecodeFailsIff(s, 5);
    DecodeFailsIff(s, 10);
  }

  lemma VarintCut(v: nat, i: nat, budget: nat)
    requires i < |EncodeVarint(v)|
    ensures DecodeVarint(EncodeVarint(v)[..i], budget).None?
  {
    var s := EncodeVarint(v)[..i];
    forall k | 0 <= k < |s| && k < budget ensures s[k] >= 128 { VarintDigits(v, k); }
    DecodeFailsIff(s, budget);
  }

  lemma LengthCut(p: seq<byte>, i: nat)
    requires |p| <= MAX_PAYLOAD && i < |EncodeVarint(|p|) + p|
    ensures ReadLength((EncodeVarint(|p|) + p)[..i]).None?
  {
    var e := EncodeVarint(|p|);
    if i < |e| {
      assert (e + p)[..i] == e[..i];
      VarintCut(|p|, i, 5);
    } else {
      assert (e + p)[..i] == e + p[..i - |e|];
      Pow128Bounds();
      VarintRoundTrip(|p|, p[..i - |e|], 5);
    }
  }

  /** A field that is cut off anywhere behind its key is no field. */
  lemma {:induction false} PayloadCut(f: Field, i: nat, depth: nat)
    requires Encodable(f, depth) && i < |EncodePayload(f)|
    ensures ReadPayload(f.Tag(), EncodePayload(f)[..i], depth).Bad?
    decreases f, 2
  {
    hide EncodeVarint, ReadGroup, ReadLength, LittleEndian;
    match f
    case Varint(_, v) => VarintCut(v, i, 10);
    case Length(_, p) => LengthCut(p, i);
    case Group(n, fs) => GroupCut(fs, 8 * n + 4, i, depth - 1);
    case _ =>
  }

  lemma {:induction false} GroupCut(fs: seq<Field>, end: uint32, i: nat, depth: nat)
    requires AllEncodable(fs, depth) && IsEndTag(end) && i < |EncodeGroup(fs, end)|
    ensures ReadGroup(EncodeGroup(fs, end)[..i], depth).NoGroup?
    decreases fs, 0
  {
    hide EncodeVarint, EncodePayload, ReadPayload, EncodeField;
    var s := EncodeGroup(fs, end)[..i];
    EncodeGroupSplit(fs, end, []);
    if fs == [] {
      assert EncodeGroup(fs, end) == EncodeVarint(end);
      VarintCut(end, i, 5);
    } else {
      var f, tail := fs[0], EncodeGroup(fs[1..], end);
      assert Encodable(f, depth) && EncodeGroup(fs, end) == EncodeField(f) + tail;
      if i < |EncodeField(f)| {
        assert s == EncodeField(f)[..i];
        GroupCutInField(f, i, depth);
      } else {
        var j := i - |EncodeField(f)|;
        assert s == EncodeField(f) + tail[..j];
        GroupCut(fs[1..], end, j, depth);
        ReadPayloadEncoded(f, tail[..j], depth);
        FieldSplit(f, tail[..j]);
      }
    }
  }

  lemma {:induction false} GroupCutInField(f: Field, i: nat, depth: nat)
    requires Encodable(f, depth) && i < |EncodeField(f)|
    ensures ReadGroup(EncodeField(f)[..i], depth).NoGroup?
    decreases f, 4
  {
    hide EncodeVarint, EncodePayload, ReadPayload;
    FieldCut(f, i, depth);
  }

  /** A prefix of a field ends within its key or within its payload. */
  lemma {:induction false} FieldCut(f: Field, i: nat, depth: nat)
    requires Encodable(f, depth) && i < |EncodeField(f)|
    ensures var s := EncodeField(f)[..i];
            ReadTag(s).None? ||
            (ReadTag(s).value.0 == f.Tag() && ReadPayload(f.Tag(), s[ReadTag(s).value.1..], depth).Bad?)
    decreases f, 3
  {
    hide EncodeVarint, EncodePayload, ReadPayload;
    var e, s := EncodeVarint(f.Tag()), EncodeField(f)[..i];
    if i < |e| {
      assert s == e[..i];
      VarintCut(f.Tag(), i, 5);
    } else {
      var p := EncodePayload(f)[..i - |e|];
      assert s == e + p && s[|e|..] == p;
      ReadTagEncoded(f.Tag(), p);
      PayloadCut(f, i - |e|, depth);
    }
  }

  /** Whatever the message, input that ends within a field makes the parse fail. */
  lemma CutFieldFails<K>(accept: (K, Field) -> Effect<K>, m: Message<K>, f: Field, i: nat, depth: nat)
    requires Encodable(f, depth) && 0 < i < |EncodeField(f)|
    ensures Parse(accept, m, EncodeField(f)[..i], depth) == Failed
  {
    hide EncodeField, ReadPayload;
    FieldCut(f, i, depth);
  }

  /** A group must end with its own number. */
  lemma OtherEndFails(n: nat, fs: seq<Field>, end: uint32, s: seq<byte>, depth: nat)
    requires depth > 0 && AllEncodable(fs, depth - 1) && IsEndTag(end) && end != 8 * n + 4
    ensures ReadGroupPayload(n, EncodeGroup(fs, end) + s, depth).Bad?
  {
    ReadGroupEncoded(fs, end, s, depth - 1);
  }
}
