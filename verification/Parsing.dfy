/** What every generated parser does, on values.

    A message is its declared fields (`body`) and the fields its parser did not recognise
    (`unknown`).  A parser is given by the effect one field has on the body; `Parse` is the plain
    parser that reads one field per step.  The theorems about reading back what was written, and
    about messages written one after the other, are proved here once for all message types. */
module Parsing {
  import opened Wrappers
  import opened Wire

  datatype Message<+K> = Message(body: K, unknown: seq<Field>)

  /** What a field does to a message body: it sets something, is not recognised, or does not parse. */
  datatype Effect<+K> = Set(body: K) | Unusual | Malformed

  /** How a parse ends: at the end of the input, at an end tag (with the input left), or in failure. */
  datatype Outcome<+K> = Done(msg: Message<K>) | Stopped(msg: Message<K>, tag: uint32, rest: seq<byte>) | Failed

  /** Nesting levels left when a top-level message is parsed, and inside its submessages. */
  const TOP_DEPTH := 100
  const NESTED_DEPTH := 99

  function Apply<K>(accept: (K, Field) -> Effect<K>, m: Message<K>, f: Field): Option<Message<K>> {
    match accept(m.body, f)
    case Set(k) => Some(m.(body := k))
    case Unusual => Some(m.(unknown := m.unknown + [f]))
    case Malformed => None
  }

  function Parse<K>(accept: (K, Field) -> Effect<K>, m: Message<K>, s: seq<byte>, depth: nat): Outcome<K>
    decreases |s|, 0
  {
    if s == [] then Done(m)
    else match ReadTag(s)
      case None => Failed
      case Some((tag, n)) => ParseAfterTag(accept, m, tag, s[n..], depth)
  }

  function ParseAfterTag<K>(
    accept: (K, Field) -> Effect<K>, m: Message<K>, tag: uint32, s: seq<byte>, depth: nat): Outcome<K>
    decreases |s|, 1
  {
    if IsEndTag(tag) then Stopped(m, tag, s)
    else match ReadPayload(tag, s, depth)
      case Bad => Failed
      case Got(f, n) =>
        match Apply(accept, m, f)
        case None => Failed
        case Some(m') => Parse(accept, m', s[n..], depth)
  }

  /** A zero byte in tag position ends the parse there. */
  lemma ParseZero<K>(accept: (K, Field) -> Effect<K>, m: Message<K>, s: seq<byte>, depth: nat)
    requires s != [] && s[0] == 0
    ensures Parse(accept, m, s, depth) == Stopped(m, 0, s[1..])
  {
    ReadTagOneByte(s);
  }

  /** The effect of a list of fields, all of them recognised. */
  function Fold<K>(accept: (K, Field) -> Effect<K>, k: K, fs: seq<Field>): Option<K> {
    if fs == [] then Some(k)
    else match accept(k, fs[0])
      case Set(k') => Fold(accept, k', fs[1..])
      case _ => None
  }

  lemma {:induction false} FoldConcat<K>(accept: (K, Field) -> Effect<K>, k: K, fs: seq<Field>, gs: seq<Field>)
    ensures Fold(accept, k, fs + gs) ==
            match Fold(accept, k, fs) case None => None case Some(k') => Fold(accept, k', gs)
  {
    if fs == [] {
      assert fs + gs == gs;
    } else {
      assert (fs + gs)[0] == fs[0] && (fs + gs)[1..] == fs[1..] + gs;
      match accept(k, fs[0])
      case Set(k') => FoldConcat(accept, k', fs[1..], gs);
      case _ =>
    }
  }

  /** A field in front of any input is parsed as if it were applied first. */
  lemma ParseEncodedField<K>(accept: (K, Field) -> Effect<K>, m: Message<K>, f: Field, s: seq<byte>, depth: nat)
    requires Encodable(f, depth)
    ensures Parse(accept, m, EncodeField(f) + s, depth) ==
            match Apply(accept, m, f) case None => Failed case Some(m') => Parse(accept, m', s, depth)
  {
    FieldSplit(f, s);
    ReadPayloadEncoded(f, s, depth);
  }

  /** `fs` can be written, and reading it all turns body `k` into `k'`. */
  ghost predicate FoldsTo<K(!new)>(accept: (K, Field) -> Effect<K>, k: K, fs: seq<Field>, k': K, depth: nat) {
    Fold(accept, k, fs) == Some(k') && AllEncodable(fs, depth)
  }

  lemma FoldsToConcat<K(!new)>(
    accept: (K, Field) -> Effect<K>, k: K, fs: seq<Field>, k1: K, gs: seq<Field>, k2: K, depth: nat)
    requires FoldsTo(accept, k, fs, k1, depth) && FoldsTo(accept, k1, gs, k2, depth)
    ensures FoldsTo(accept, k, fs + gs, k2, depth)
  {
    FoldConcat(accept, k, fs, gs);
  }

  lemma FoldsToCons<K(!new)>(
    accept: (K, Field) -> Effect<K>, k: K, f: Field, k1: K, fs: seq<Field>, k2: K, depth: nat)
    requires accept(k, f) == Set(k1) && Encodable(f, depth)
    requires FoldsTo(accept, k1, fs, k2, depth)
    ensures FoldsTo(accept, k, [f] + fs, k2, depth)
  {
    assert ([f] + fs)[1..] == fs;
  }

  /** A field that is written only when it holds something other than its default. */
  function Optional(present: bool, f: Field): seq<Field> { if present then [f] else [] }

  /** One more optional field behind `fs`. */
  lemma Extend<K(!new)>(
    accept: (K, Field) -> Effect<K>, k: K, fs: seq<Field>, k1: K, present: bool, f: Field, depth: nat)
    returns (gs: seq<Field>, k2: K)
    requires FoldsTo(accept, k, fs, k1, depth)
    requires present ==> accept(k1, f).Set? && Encodable(f, depth)
    ensures gs == fs + Optional(present, f) && (fs == [] ==> gs == Optional(present, f))
    ensures k2 == if present then accept(k1, f).body else k1
    ensures FoldsTo(accept, k, gs, k2, depth)
  {
    gs := fs + Optional(present, f);
    k2 := if present then accept(k1, f).body else k1;
    if present { assert Fold(accept, k1, [f]) == Some(k2); }
    FoldsToConcat(accept, k, fs, k1, Optional(present, f), k2, depth);
  }

  /** Recognised fields in front of any input are folded into the body. */
  lemma {:induction false} ParseRecognised<K(!new)>(
    accept: (K, Field) -> Effect<K>, m: Message<K>, fs: seq<Field>, k: K, s: seq<byte>, depth: nat)
    requires FoldsTo(accept, m.body, fs, k, depth)
    ensures Parse(accept, m, EncodeFields(fs) + s, depth) == Parse(accept, m.(body := k), s, depth)
    decreases |fs|
  {
    if fs == [] {
      assert EncodeFields(fs) + s == s;
    } else {
      assert Encodable(fs[0], depth);
      Associate(EncodeField(fs[0]), EncodeFields(fs[1..]), s);
      ParseEncodedField(accept, m, fs[0], EncodeFields(fs[1..]) + s, depth);
      ParseRecognised(accept, m.(body := accept(m.body, fs[0]).body), fs[1..], k, s, depth);
    }
  }

  ghost predicate AllUnusual<K(!new)>(accept: (K, Field) -> Effect<K>, fs: seq<Field>) {
    forall f, k | f in fs :: accept(k, f).Unusual?
  }

  /** Unrecognised fields in front of any input are kept, in order. */
  lemma {:induction false} ParseUnusual<K(!new)>(
    accept: (K, Field) -> Effect<K>, m: Message<K>, fs: seq<Field>, s: seq<byte>, depth: nat)
    requires AllEncodable(fs, depth) && AllUnusual(accept, fs)
    ensures Parse(accept, m, EncodeFields(fs) + s, depth)
         == Parse(accept, m.(unknown := m.unknown + fs), s, depth)
    decreases |fs|
  {
    if fs == [] {
      assert EncodeFields(fs) + s == s;
      assert m.unknown + fs == m.unknown;
    } else {
      assert Encodable(fs[0], depth) && accept(m.body, fs[0]).Unusual?;
      Associate(EncodeField(fs[0]), EncodeFields(fs[1..]), s);
      ParseEncodedField(accept, m, fs[0], EncodeFields(fs[1..]) + s, depth);
      ParseUnusual(accept, m.(unknown := m.unknown + [fs[0]]), fs[1..], s, depth);
      assert m.unknown + [fs[0]] + fs[1..] == m.unknown + fs;
    }
  }

  /** Unknown fields that a parser of `depth` levels would read back as unknown fields. */
  ghost predicate Foreign<K(!new)>(accept: (K, Field) -> Effect<K>, fs: seq<Field>, depth: nat) {
    AllEncodable(fs, depth) && AllUnusual(accept, fs)
  }

  function Write(declared: seq<Field>, unknown: seq<Field>): seq<byte> { EncodeFields(declared + unknown) }

  /** The master theorem: a message whose declared fields fold to `merged` is parsed, in front of any
      further input, as that merge, its unknown fields following those already there. */
  lemma ParseWritten<K(!new)>(
    accept: (K, Field) -> Effect<K>, m: Message<K>, declared: seq<Field>, merged: K, unknown: seq<Field>,
    s: seq<byte>, depth: nat)
    requires FoldsTo(accept, m.body, declared, merged, depth)
    requires Foreign(accept, unknown, depth)
    ensures Parse(accept, m, Write(declared, unknown) + s, depth)
         == Parse(accept, Message(merged, m.unknown + unknown), s, depth)
  {
    EncodeFieldsConcat(declared, unknown);
    Associate(EncodeFields(declared), EncodeFields(unknown), s);
    ParseRecognised(accept, m, declared, merged, EncodeFields(unknown) + s, depth);
    ParseUnusual(accept, m.(body := merged), unknown, s, depth);
  }

  /** Whether a field is recognised does not depend on what the message already holds. */
  ghost predicate Uniform<K(!new)>(accept: (K, Field) -> Effect<K>) {
    forall f, k, k' :: accept(k, f).Unusual? == accept(k', f).Unusual?
  }

  /** Whatever the input, a parse that succeeds keeps every invariant that single fields keep, and
      leaves only unknown fields that would be unknown again. */
  lemma {:induction false} ParseKeeps<K(!new)>(
    accept: (K, Field) -> Effect<K>, inv: K -> bool, m: Message<K>, s: seq<byte>, depth: nat)
    requires Uniform(accept)
    requires forall k, f :: inv(k) && Encodable(f, depth) && accept(k, f).Set? ==> inv(accept(k, f).body)
    requires inv(m.body) && Foreign(accept, m.unknown, depth)
    requires Parse(accept, m, s, depth).Done?
    ensures inv(Parse(accept, m, s, depth).msg.body)
    ensures Foreign(accept, Parse(accept, m, s, depth).msg.unknown, depth)
    decreases |s|
  {
    if s == [] {
    } else {
      var (tag, n) := ReadTag(s).value;
      var rest := s[n..];
      var Got(f, k) := ReadPayload(tag, rest, depth);
      ReadPayloadEncodable(tag, rest, depth);
      var m' := Apply(accept, m, f).value;
      if accept(m.body, f).Unusual? {
        assert forall g | g in m'.unknown :: g in m.unknown || g == f;
      }
      ParseKeeps(accept, inv, m', rest[k..], depth);
    }
  }
}
