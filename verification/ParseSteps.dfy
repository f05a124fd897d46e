/** How the plain parser of `Parsing` moves along a buffer: the facts a parse loop needs, one per kind
    of step, and the way a loop's result is compared with that parser. */
module ParseSteps {
  import opened Wire
  import opened Parsing

  /** How a parse loop returns: at its limit, at an end tag (left just behind it), or with a null pointer. */
  datatype ParseEnd = AtLimit | AtTag(ptr: nat, tag: uint32) | Null

  /** The loop over `buf[..limit]` that ended in `end` with message `now` did what the plain parser does. */
  ghost predicate Agrees<K>(end: ParseEnd, now: Message<K>, plain: Outcome<K>, buf: seq<byte>, limit: nat)
    requires limit <= |buf|
  {
    match plain
    case Done(m) => end == AtLimit && now == m
    case Stopped(m, tag, rest) =>
      end.AtTag? && end.tag == tag && now == m && end.ptr <= limit && rest == buf[end.ptr..limit]
    case Failed => end == Null
  }

  /** How the handling of one tag goes on: with the next tag, by stopping at this end tag, or in failure. */
  datatype Step = Next(ptr: nat) | Stop | Fail

  /** Handling `tag`, with its payload at `ptr`, did what the plain parser does and leaves `now`. */
  ghost predicate StepAgrees<K>(
    accept: (K, Field) -> Effect<K>, step: Step, before: Message<K>, now: Message<K>, tag: uint32,
    buf: seq<byte>, ptr: nat, limit: nat, depth: nat)
    requires ptr <= limit <= |buf|
  {
    var plain := ParseAfterTag(accept, before, tag, buf[ptr..limit], depth);
    match step
    case Next(p) => ptr <= p <= limit && plain == Parse(accept, now, buf[p..limit], depth)
    case Stop => now == before && plain == Stopped(now, tag, buf[ptr..limit])
    case Fail => plain == Failed
  }

  lemma Slices(buf: seq<byte>, ptr: nat, n: nat, limit: nat)
    requires ptr + n <= limit <= |buf|
    ensures buf[ptr..limit][n..] == buf[ptr + n..limit] && buf[ptr..limit][..n] == buf[ptr..ptr + n]
  {
  }

  lemma StepTag<K>(accept: (K, Field) -> Effect<K>, m: Message<K>, buf: seq<byte>, ptr: nat, limit: nat, depth: nat)
    requires ptr < limit <= |buf|
    ensures match ReadTag(buf[ptr..limit])
            case None => Parse(accept, m, buf[ptr..limit], depth) == Failed
            case Some((tag, n)) =>
              ptr + n <= limit &&
              Parse(accept, m, buf[ptr..limit], depth) == ParseAfterTag(accept, m, tag, buf[ptr + n..limit], depth)
  {
    var t := ReadTag(buf[ptr..limit]);
    if t.Some? { Slices(buf, ptr, t.value.1, limit); }
  }

  /** A loop that has reached its limit is done. */
  lemma ParseEmptyAtLimit<K(!new)>(accept: (K, Field) -> Effect<K>, buf: seq<byte>, limit: nat, depth: nat)
    requires limit <= |buf|
    ensures forall m {:trigger Parse(accept, m, buf[limit..limit], depth)} ::
              Parse(accept, m, buf[limit..limit], depth) == Done(m)
  {
    assert buf[limit..limit] == [];
  }

  /** Where the next byte is `expected`, a one-byte tag, the plain parser reads that tag. */
  lemma StepExpected<K>(
    accept: (K, Field) -> Effect<K>, m: Message<K>, expected: byte, buf: seq<byte>, ptr: nat, limit: nat, depth: nat)
    requires ptr < limit <= |buf| && buf[ptr] == expected < 128
    ensures Parse(accept, m, buf[ptr..limit], depth) == ParseAfterTag(accept, m, expected, buf[ptr + 1..limit], depth)
  {
    hide *;
    ReadTagOneByte(buf[ptr..limit]);
    StepTag(accept, m, buf, ptr, limit, depth);
  }

  ghost function Continue<K>(
    accept: (K, Field) -> Effect<K>, m: Message<K>, f: Field, s: seq<byte>, depth: nat): Outcome<K>
  {
    match Apply(accept, m, f)
    case None => Failed
    case Some(m') => Parse(accept, m', s, depth)
  }

  lemma StepPayload<K>(
    accept: (K, Field) -> Effect<K>, m: Message<K>, tag: uint32, buf: seq<byte>, ptr: nat, limit: nat, depth: nat)
    requires ptr <= limit <= |buf| && !IsEndTag(tag)
    ensures match ReadPayload(tag, buf[ptr..limit], depth)
            case Bad => ParseAfterTag(accept, m, tag, buf[ptr..limit], depth) == Failed
            case Got(f, n) =>
              ptr + n <= limit &&
              ParseAfterTag(accept, m, tag, buf[ptr..limit], depth)
              == Continue(accept, m, f, buf[ptr + n..limit], depth)
  {
    var p := ReadPayload(tag, buf[ptr..limit], depth);
    if p.Got? { Slices(buf, ptr, p.size, limit); }
  }

  /** `ReadVarint64(&ptr)` and the check of the pointer it leaves. */
  method TakeVarint<K>(
    ghost accept: (K, Field) -> Effect<K>, ghost m: Message<K>, tag: uint32,
    buf: seq<byte>, ptr: nat, limit: nat, ghost depth: nat)
    returns (v: uint64, step: Step)
    requires ptr <= limit <= |buf| && tag % 8 == 0 && tag > 0
    ensures !step.Stop? && (step.Next? ==> ptr <= step.ptr <= limit)
    ensures ParseAfterTag(accept, m, tag, buf[ptr..limit], depth) ==
            if step.Fail? then Failed
            else Continue(accept, m, Varint(tag / 8, v), buf[step.ptr..limit], depth)
  {
    StepPayload(accept, m, tag, buf, ptr, limit, depth);
    match ReadVarint64(buf[ptr..limit])
    case None => return 0, Fail;
    case Some((value, n)) => return value, Next(ptr + n);
  }

  /** `UnalignedLoad<float>(ptr)`, as the 32-bit pattern of the float. */
  method TakeFixed32<K>(
    ghost accept: (K, Field) -> Effect<K>, ghost m: Message<K>, tag: uint32,
    buf: seq<byte>, ptr: nat, limit: nat, ghost depth: nat)
    returns (v: uint32, step: Step)
    requires ptr <= limit <= |buf| && tag % 8 == 5 && tag > 5
    ensures !step.Stop? && (step.Next? ==> ptr <= step.ptr <= limit)
    ensures ParseAfterTag(accept, m, tag, buf[ptr..limit], depth) ==
            if step.Fail? then Failed
            else Continue(accept, m, Fixed32(tag / 8, v), buf[step.ptr..limit], depth)
  {
    StepPayload(accept, m, tag, buf, ptr, limit, depth);
    if ptr + 4 > limit { return 0, Fail; }
    Slices(buf, ptr, 4, limit);
    return Load32(buf[ptr..ptr + 4]), Next(ptr + 4);
  }

  lemma StepLength<K>(
    accept: (K, Field) -> Effect<K>, m: Message<K>, tag: uint32, buf: seq<byte>, ptr: nat, limit: nat, depth: nat)
    requires ptr <= limit <= |buf| && tag % 8 == 2 && tag > 2
    ensures ParseAfterTag(accept, m, tag, buf[ptr..limit], depth) ==
            match ReadSize(buf[ptr..limit])
            case None => Failed
            case Some((size, n)) =>
              if ptr + n + size > limit then Failed
              else Continue(accept, m, Length(tag / 8, buf[ptr + n..ptr + n + size]), buf[ptr + n + size..limit], depth)
  {
    StepPayload(accept, m, tag, buf, ptr, limit, depth);
    var z := ReadSize(buf[ptr..limit]);
    if z.Some? && ptr + z.value.1 + z.value.0 <= limit { SubSlice(buf, ptr, z.value.1, z.value.0, limit); }
  }

  lemma SubSlice(buf: seq<byte>, ptr: nat, n: nat, size: nat, limit: nat)
    requires ptr + n + size <= limit <= |buf|
    ensures buf[ptr..limit][n..n + size] == buf[ptr + n..ptr + n + size]
  {
    var s, t := buf[ptr..limit][n..n + size], buf[ptr + n..ptr + n + size];
    assert forall i | 0 <= i < size :: s[i] == buf[ptr..limit][n + i] && t[i] == buf[ptr + n + i];
  }

  /** A length prefix and the limit it pushes: the payload is `buf[body..step.ptr]`.  A payload that
      would end behind the enclosing limit makes the whole parse fail. */
  method TakeLength<K>(
    ghost accept: (K, Field) -> Effect<K>, ghost m: Message<K>, tag: uint32,
    buf: seq<byte>, ptr: nat, limit: nat, ghost depth: nat)
    returns (body: nat, step: Step)
    requires ptr <= limit <= |buf| && tag % 8 == 2 && tag > 2
    ensures !step.Stop? && (step.Next? ==> ptr < body <= step.ptr <= limit)
    ensures ParseAfterTag(accept, m, tag, buf[ptr..limit], depth) ==
            if step.Fail? then Failed
            else Continue(accept, m, Length(tag / 8, buf[body..step.ptr]), buf[step.ptr..limit], depth)
  {
    StepLength(accept, m, tag, buf, ptr, limit, depth);
    match ReadSize(buf[ptr..limit])
    case None => return 0, Fail;
    case Some((size, n)) =>
      if ptr + n + size > limit { return 0, Fail; }
      return ptr + n, Next(ptr + n + size);
  }

  /** A tag that is not declared: an end tag stops the loop, anything else is read as an unknown field. */
  method TakeUnusual<K>(
    ghost accept: (K, Field) -> Effect<K>, ghost m: Message<K>, tag: uint32,
    buf: seq<byte>, ptr: nat, limit: nat, depth: nat)
    returns (found: seq<Field>, step: Step)
    requires ptr <= limit <= |buf|
    requires forall f: Field | f.Tag() == tag :: accept(m.body, f).Unusual?
    ensures StepAgrees(accept, step, m, m.(unknown := m.unknown + found), tag, buf, ptr, limit, depth)
  {
    found := [];
    if IsEndTag(tag) {
      assert m.unknown + found == m.unknown;
      return found, Stop;
    }
    StepPayload(accept, m, tag, buf, ptr, limit, depth);
    match ReadPayload(tag, buf[ptr..limit], depth)
    case Bad => return found, Fail;
    case Got(f, n) => return [f], Next(ptr + n);
  }
}
