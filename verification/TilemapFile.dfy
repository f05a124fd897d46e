/** The editor's tilemap and its file: the size, then the tiles row by row, each a little-endian 32-bit
    integer. */
module TilemapFile {
  import opened Wire
  import opened Geometry
  import opened WireLayout

  function Bytes(v: int32): (s: seq<byte>)
    ensures |s| == 4
  {
    LittleEndian(if v < 0 then v + TWO32 else v, 4)
  }

  function Value(s: seq<byte>): int32
    requires |s| == 4
  {
    ToInt32(Load32(s))
  }

  lemma ValueOfBytes(v: int32)
    ensures Value(Bytes(v)) == v
  {
    Pow256Values();
    LittleEndianRoundTrip(if v < 0 then v + TWO32 else v, 4);
  }

  function Written(vs: seq<int32>): seq<byte> {
    if vs == [] then [] else Bytes(vs[0]) + Written(vs[1..])
  }

  /** The whole values in `s`. */
  function Values(s: seq<byte>): seq<int32> {
    if |s| < 4 then [] else [Value(s[..4])] + Values(s[4..])
  }

  lemma {:induction false} ValuesOfWritten(vs: seq<int32>)
    ensures Values(Written(vs)) == vs && |Written(vs)| == 4 * |vs|
  {
    if vs == [] {
    } else {
      var s := Written(vs);
      ValueOfBytes(vs[0]);
      ValuesOfWritten(vs[1..]);
      assert s[..4] == Bytes(vs[0]) && s[4..] == Written(vs[1..]);
    }
  }

  /** A file holds one value for every four bytes; a rest of one to three is none. */
  lemma {:induction false} ValuesAt(s: seq<byte>, i: nat)
    ensures |Values(s)| == |s| / 4
    ensures i < |s| / 4 ==> Values(s)[i] == Value(s[4 * i..4 * i + 4])
  {
    if |s| < 4 {
    } else {
      ValuesAt(s[4..], if i == 0 then 0 else i - 1);
      if 0 < i < |s| / 4 { assert s[4..][4 * (i - 1)..4 * (i - 1) + 4] == s[4 * i..4 * i + 4]; }
    }
  }

  /** The size a file gives; what it is too short to give stays as it was. */
  lemma LoadedSizeIs(m: Map, file: seq<byte>)
    ensures LoadedSize(m, file).0 == if |file| >= 4 then Value(file[..4]) else m.x
    ensures LoadedSize(m, file).1 == if |file| >= 8 then Value(file[4..8]) else m.y
  {
    hide Value;
    ValuesAt(file, 0);
    ValuesAt(file, 1);
  }

  /** Every four bytes are those of one integer. */
  lemma BytesOfValue(s: seq<byte>)
    requires |s| == 4
    ensures Bytes(Value(s)) == s
  {
    Pow256Values();
    FromLittleEndianBound(s);
    LittleEndianOf(s);
  }

  lemma {:induction false} LittleEndianOf(s: seq<byte>)
    ensures LittleEndian(FromLittleEndian(s), |s|) == s
  {
    if s == [] {
    } else {
      LowDigit(s[0], FromLittleEndian(s[1..]), 256);
      LittleEndianOf(s[1..]);
    }
  }

  lemma ByteIs(v: int32, k: nat)
    requires k < 4
    ensures Bytes(v)[k] == v % TWO32 / Pow256(k) % 256
  {
    hide Pow256, LittleEndian;
    var low: nat := if v < 0 then v + TWO32 else v;
    LittleEndianDigits(low, 4, k);
    LowBits(v);
  }

  lemma LowBits(v: int32)
    ensures v % TWO32 == if v < 0 then v + TWO32 else v
  {
  }

  lemma ByteBehind(e: seq<byte>, rest: seq<byte>, i: nat, k: nat)
    requires |e| == 4 && k < 4 && 4 * i + k < 4 + |rest|
    ensures (e + rest)[4 * i + k] == if i == 0 then e[k] else rest[4 * (i - 1) + k]
  {
  }

  /** Byte `k` of value `i` in the file: the low 32 bits of the value, lowest byte first. */
  lemma {:induction false} WrittenByte(vs: seq<int32>, i: nat, k: nat)
    requires i < |vs| && k < 4
    ensures |Written(vs)| == 4 * |vs| && Written(vs)[4 * i + k] == vs[i] % TWO32 / Pow256(k) % 256
  {
    hide Pow256, Bytes, Values;
    ValuesOfWritten(vs);
    ValuesOfWritten(vs[1..]);
    ByteIs(vs[0], k);
    ByteBehind(Bytes(vs[0]), Written(vs[1..]), i, k);
    if i == 0 {
    } else {
      WrittenByte(vs[1..], i - 1, k);
    }
  }

  //
  // The map as a value
  //

  datatype Map = Map(x: int32, y: int32, tiles: seq<seq<int32>>) {
    /** There is storage for every tile of the map. */
    predicate Whole() { HasRoom(tiles, x, y) }
  }

  /** There is storage for `h` rows of `w` tiles. */
  predicate HasRoom(tiles: seq<seq<int32>>, w: int, h: int) {
    h <= |tiles| && forall r | 0 <= r < h :: w <= |tiles[r]|
  }

  /** The first `w` tiles of the rows `r` to `h`. */
  function RowsFrom(tiles: seq<seq<int32>>, w: nat, r: nat, h: int): seq<int32>
    requires HasRoom(tiles, w, h)
    decreases h - r
  {
    if r >= h then [] else tiles[r][..w] + RowsFrom(tiles, w, r + 1, h)
  }

  function Saved(m: Map): seq<byte>
    requires m.Whole()
  {
    Written([m.x, m.y] + RowsFrom(m.tiles, Positive(m.x), 0, m.y))
  }

  /** The next value, or `missing` at the end of the file. */
  function Next(s: seq<int32>, missing: int32): int32 { if s == [] then missing else s[0] }

  function Rest(s: seq<int32>): seq<int32> { if s == [] then [] else s[1..] }

  /** A row with the tiles from `c` to `w` replaced by what comes next, and what is left. */
  function FillRow(row: seq<int32>, c: nat, w: int, s: seq<int32>): (r: (seq<int32>, seq<int32>))
    requires w <= |row|
    ensures |r.0| == |row|
    decreases w - c
  {
    if c >= w then (row, s) else FillRow(row[c := Next(s, -1)], c + 1, w, Rest(s))
  }

  function FillRows(tiles: seq<seq<int32>>, w: int, r: nat, h: int, s: seq<int32>): (t: seq<seq<int32>>)
    requires HasRoom(tiles, w, h)
    ensures |t| == |tiles| && forall k | 0 <= k < |t| :: |t[k]| == |tiles[k]|
    decreases h - r
  {
    if r >= h then tiles
    else
      var (row, rest) := FillRow(tiles[r], 0, w, s);
      FillRows(tiles[r := row], w, r + 1, h, rest)
  }

  function LoadedSize(m: Map, file: seq<byte>): (int32, int32) {
    var s := Values(file);
    (Next(s, m.x), Next(Rest(s), m.y))
  }

  function Loaded(m: Map, file: seq<byte>): Map
    requires HasRoom(m.tiles, LoadedSize(m, file).0, LoadedSize(m, file).1)
  {
    var (x, y) := LoadedSize(m, file);
    Map(x, y, FillRows(m.tiles, x, 0, y, Rest(Rest(Values(file)))))
  }

  //
  // Round trip
  //

  lemma {:induction false} RowsFromLength(tiles: seq<seq<int32>>, w: nat, r: nat, h: int)
    requires HasRoom(tiles, w, h)
    ensures |RowsFrom(tiles, w, r, h)| == Positive(h - r) * w
    decreases h - r
  {
    if r >= h {
    } else {
      RowsFromLength(tiles, w, r + 1, h);
    }
  }

  /** Filling a row from values that begin with enough of them. */
  lemma {:induction false} FillRowFrom(row: seq<int32>, c: nat, w: nat, cells: seq<int32>, rest: seq<int32>)
    requires c <= w <= |row| && |cells| == w - c
    ensures FillRow(row, c, w, cells + rest) == (row[..c] + cells + row[w..], rest)
    decreases w - c
  {
    if c < w {
      assert (cells + rest)[1..] == cells[1..] + rest;
      FillRowFrom(row[c := cells[0]], c + 1, w, cells[1..], rest);
      assert row[c := cells[0]][..c + 1] + cells[1..] == row[..c] + cells;
      assert row[c := cells[0]][w..] == row[w..];
    } else {
      assert cells + rest == rest && row[..c] + cells + row[w..] == row;
    }
  }

  /** The tiles of `a` are those of `b` within `w` and between `r` and `h`, and those of `c` elsewhere. */
  ghost predicate Patched(a: seq<seq<int32>>, b: seq<seq<int32>>, c: seq<seq<int32>>, w: nat, r: nat, h: int)
    requires HasRoom(b, w, h)
  {
    && |a| == |c|
    && forall k | 0 <= k < |a| ::
         a[k] == if r <= k < h && w <= |c[k]| then b[k][..w] + c[k][w..] else c[k]
  }

  lemma {:induction false} FillRowsFromAt(b: seq<seq<int32>>, c: seq<seq<int32>>, w: nat, r: nat, h: int, k: nat)
    requires HasRoom(b, w, h) && HasRoom(c, w, h) && k < |c|
    ensures FillRows(c, w, r, h, RowsFrom(b, w, r, h))[k]
         == if r <= k < h && w <= |c[k]| then b[k][..w] + c[k][w..] else c[k]
    decreases h - r
  {
    hide FillRow;
    if r >= h {
    } else {
      var cells, rest := b[r][..w], RowsFrom(b, w, r + 1, h);
      FillRowFrom(c[r], 0, w, cells, rest);
      assert c[r][..0] + cells + c[r][w..] == cells + c[r][w..];
      FillRowsFromAt(b, c[r := cells + c[r][w..]], w, r + 1, h, k);
    }
  }

  lemma FillRowsFrom(b: seq<seq<int32>>, c: seq<seq<int32>>, w: nat, r: nat, h: int)
    requires HasRoom(b, w, h) && HasRoom(c, w, h)
    ensures Patched(FillRows(c, w, r, h, RowsFrom(b, w, r, h)), b, c, w, r, h)
  {
    hide FillRows, RowsFrom;
    forall k: nat | k < |c|
      ensures FillRows(c, w, r, h, RowsFrom(b, w, r, h))[k]
           == if r <= k < h && w <= |c[k]| then b[k][..w] + c[k][w..] else c[k]
    {
      FillRowsFromAt(b, c, w, r, h, k);
    }
  }

  /** Tiles that agree within the first rows and columns are written alike. */
  lemma {:induction false} SameRows(a: seq<seq<int32>>, b: seq<seq<int32>>, w: nat, r: nat, h: int)
    requires HasRoom(a, w, h) && HasRoom(b, w, h)
    requires forall k | 0 <= k < h :: a[k][..w] == b[k][..w]
    ensures RowsFrom(a, w, r, h) == RowsFrom(b, w, r, h)
    decreases h - r
  {
    if r >= h {
    } else {
      SameRows(a, b, w, r + 1, h);
    }
  }

  lemma SavedIs(a: Map)
    requires a.Whole()
    ensures HasRoom(a.tiles, Positive(a.x), a.y)
    ensures Saved(a) == Written([a.x, a.y] + RowsFrom(a.tiles, Positive(a.x), 0, a.y))
    ensures Positive(a.y - 0) == Positive(a.y)
  {
  }

  lemma SavedValues(a: Map)
    requires a.Whole()
    ensures Values(Saved(a)) == [a.x, a.y] + RowsFrom(a.tiles, Positive(a.x), 0, a.y)
    ensures |Saved(a)| == 8 + 4 * (Positive(a.y) * Positive(a.x))
  {
    hide *;
    SavedIs(a);
    var cells := RowsFrom(a.tiles, Positive(a.x), 0, a.y);
    ValuesOfWritten([a.x, a.y] + cells);
    RowsFromLength(a.tiles, Positive(a.x), 0, a.y);
    assert |[a.x, a.y] + cells| == 2 + |cells|;
  }

  /** Loading the file of map `a` into a map with room for it gives the size and every tile of `a`, leaves
      the rest of the storage alone, and saving the result gives the same bytes. */
  lemma SaveThenLoad(a: Map, m: Map)
    requires a.Whole() && HasRoom(m.tiles, a.x, a.y)
    ensures |Saved(a)| == 8 + 4 * (Positive(a.y) * Positive(a.x))
    ensures LoadedSize(m, Saved(a)) == (a.x, a.y)
    ensures var b := Loaded(m, Saved(a));
            && b.x == a.x && b.y == a.y
            && Patched(b.tiles, a.tiles, m.tiles, Positive(a.x), 0, a.y)
            && b.Whole() && Saved(b) == Saved(a)
  {
    hide FillRows, RowsFrom;
    var w := Positive(a.x);
    var cells := RowsFrom(a.tiles, w, 0, a.y);
    SavedValues(a);
    assert Rest(Rest([a.x, a.y] + cells)) == cells;
    FillRowsFrom(a.tiles, m.tiles, w, 0, a.y);
    FillRowsNegative(m.tiles, a.x, 0, a.y, cells);
    var b := Loaded(m, Saved(a));
    forall k | 0 <= k < b.y ensures b.tiles[k][..w] == a.tiles[k][..w] { }
    SameRows(a.tiles, b.tiles, w, 0, a.y);
  }

  /** A negative width reads like none. */
  lemma {:induction false} FillRowsNegative(tiles: seq<seq<int32>>, w: int, r: nat, h: int, s: seq<int32>)
    requires HasRoom(tiles, w, h)
    ensures HasRoom(tiles, Positive(w), h) && FillRows(tiles, w, r, h, s) == FillRows(tiles, Positive(w), r, h, s)
    decreases h - r
  {
    if r < h && w < 0 {
      assert FillRow(tiles[r], 0, w, s) == FillRow(tiles[r], 0, 0, s) == (tiles[r], s);
      assert tiles[r := tiles[r]] == tiles;
      FillRowsNegative(tiles, w, r + 1, h, s);
    }
  }

  //
  // Any file
  //

  function Drop(s: seq<int32>, n: nat): seq<int32> { if n < |s| then s[n..] else [] }

  /** Value `n` of the file, -1 when it is missing. */
  function At(s: seq<int32>, n: nat): int32 { if n < |s| then s[n] else -1 }

  lemma {:induction false} FillRowAt(row: seq<int32>, c: nat, w: nat, s: seq<int32>)
    requires c <= w <= |row|
    ensures FillRow(row, c, w, s).1 == Drop(s, w - c)
    ensures forall k | 0 <= k < |row| :: FillRow(row, c, w, s).0[k] == if c <= k < w then At(s, k - c) else row[k]
    decreases w - c
  {
    if c >= w {
    } else {
      FillRowAt(row[c := Next(s, -1)], c + 1, w, Rest(s));
    }
  }

  /** The place of a tile in row `r` and column `c` among the tiles of a map `w` wide. */
  function Index(w: nat, r: nat, c: nat): nat { r * w + c }

  lemma NextRow(w: nat, r: nat, c: nat)
    ensures Index(w, r + 1, c) == w + Index(w, r, c) && Index(w, 0, c) == c
  {
  }

  lemma {:induction false} FillRowsAt(tiles: seq<seq<int32>>, w: nat, r: nat, h: int, s: seq<int32>, k: nat, c: nat)
    requires HasRoom(tiles, w, h) && k < |tiles| && c < |tiles[k]|
    ensures FillRows(tiles, w, r, h, s)[k][c]
         == if r <= k < h && c < w then At(s, Index(w, k - r, c)) else tiles[k][c]
    decreases h - r
  {
    hide Index, FillRow, At, Drop;
    if r >= h {
    } else {
      var (row, rest) := FillRow(tiles[r], 0, w, s);
      FillRowAt(tiles[r], 0, w, s);
      FillRowsAt(tiles[r := row], w, r + 1, h, rest, k, c);
      NextRow(w, if k > r then k - r - 1 else 0, c);
      if r < k < h && c < w { DropAt(s, w, Index(w, k - r - 1, c)); }
    }
  }

  lemma DropAt(s: seq<int32>, n: nat, i: nat)
    ensures At(Drop(s, n), i) == At(s, n + i)
  {
  }

  /** Whatever the file holds, tile (c, r) inside the size read becomes value 2 + r * w + c of the file, or
      -1 if the file ends before it; tiles outside keep what they were. */
  lemma LoadedAt(m: Map, file: seq<byte>, r: nat, c: nat)
    requires HasRoom(m.tiles, LoadedSize(m, file).0, LoadedSize(m, file).1)
    requires r < |m.tiles| && c < |m.tiles[r]|
    ensures Loaded(m, file).tiles[r][c]
         == (if r < LoadedSize(m, file).1 && c < LoadedSize(m, file).0
             then At(Values(file), 2 + Index(LoadedSize(m, file).0, r, c))
             else m.tiles[r][c])
  {
    hide FillRows, Index, Values;
    var (w, h) := LoadedSize(m, file);
    var s := Values(file);
    FillRowsNegative(m.tiles, w, 0, h, Rest(Rest(s)));
    FillRowsAt(m.tiles, Positive(w), 0, h, Rest(Rest(s)), r, c);
    if r < h && c < w {
      assert Rest(Rest(s)) == Drop(s, 2);
      DropAt(s, 2, Index(w, r, c));
    }
  }

  lemma {:induction false} RowsFromAt(tiles: seq<seq<int32>>, w: nat, r: nat, h: int, k: nat, c: nat)
    requires HasRoom(tiles, w, h) && r <= k < h && c < w
    ensures Index(w, k - r, c) < |RowsFrom(tiles, w, r, h)|
    ensures RowsFrom(tiles, w, r, h)[Index(w, k - r, c)] == tiles[k][c]
    decreases h - r
  {
    hide Index;
    NextRow(w, if k > r then k - r - 1 else 0, c);
    if k == r {
    } else {
      RowsFromAt(tiles, w, r + 1, h, k, c);
    }
  }

  /** The saved file holds the width, the height, and tile (c, r) as value 2 + r * w + c, each in four bytes,
      lowest first, negative numbers as their low 32 bits. */
  lemma SavedAt(a: Map, r: nat, c: nat, k: nat)
    requires a.Whole() && k < 4
    ensures |Saved(a)| >= 8
    ensures Saved(a)[k] == a.x % TWO32 / Pow256(k) % 256 && Saved(a)[4 + k] == a.y % TWO32 / Pow256(k) % 256
    ensures r < a.y && c < a.x ==>
              && 4 * (2 + Index(a.x, r, c)) + k < |Saved(a)|
              && Saved(a)[4 * (2 + Index(a.x, r, c)) + k] == a.tiles[r][c] % TWO32 / Pow256(k) % 256
  {
    hide Index, Pow256, Written;
    var w := Positive(a.x);
    var cells := RowsFrom(a.tiles, w, 0, a.y);
    var vs := [a.x, a.y] + cells;
    WrittenByte(vs, 0, k);
    WrittenByte(vs, 1, k);
    if r < a.y && c < a.x {
      RowsFromAt(a.tiles, w, 0, a.y, r, c);
      WrittenByte(vs, 2 + Index(w, r, c), k);
    }
  }

  //
  // The classes
  //

  /** An open file: `Read` returns `old` at its end. */
  class File {
    var bytes: seq<byte>
    var at: nat

    ghost predicate Valid() reads this { at <= |bytes| }

    ghost function Ahead(): seq<int32>
      requires Valid()
      reads this
    {
      Values(bytes[at..])
    }

    method Read(old_: int32) returns (v: int32)
      requires Valid()
      modifies `at
      ensures Valid() && v == Next(old(Ahead()), old_) && Ahead() == Rest(old(Ahead()))
    {
      if |bytes| - at < 4 { return old_; }
      v := Value(bytes[at..at + 4]);
      assert bytes[at..][..4] == bytes[at..at + 4] && bytes[at..][4..] == bytes[at + 4..];
      at := at + 4;
    }

    method Write(v: int32)
      modifies `bytes
      ensures bytes == old(bytes) + Bytes(v)
    {
      bytes := bytes + Bytes(v);
    }
  }

  class Tilemap {
    var sizeX: int32
    var sizeY: int32
    var tiles: seq<seq<int32>>

    function AsMap(): Map
      reads this
    {
      Map(sizeX, sizeY, tiles)
    }

    method SetMapSize(x: int32, y: int32)
      requires 0 <= x && 0 <= y
      modifies this
      ensures AsMap() == Map(x, y, seq(y, r => seq(x, c => 0))) && AsMap().Whole()
    {
      sizeX, sizeY := x, y;
      tiles := seq(y, r => seq(x, c => 0));
    }

    method LoadFile(file: File)
      requires file.Valid() && file.at == 0
      requires HasRoom(tiles, LoadedSize(AsMap(), file.bytes).0, LoadedSize(AsMap(), file.bytes).1)
      modifies this, file`at
      ensures AsMap() == Loaded(old(AsMap()), file.bytes)
    {
      hide Values, FillRow;
      ghost var all := Values(file.bytes);
      assert file.bytes[0..] == file.bytes;
      sizeX := file.Read(sizeX);
      sizeY := file.Read(sizeY);
      ghost var before, w, h, s := tiles, sizeX, sizeY, file.Ahead();
      for y := 0 to Positive(sizeY)
        invariant file.Valid() && sizeX == w && sizeY == h && HasRoom(tiles, w, h)
        invariant FillRows(tiles, w, y, h, file.Ahead()) == FillRows(before, w, 0, h, s)
      {
        LoadRow(y, file);
      }
    }

    /** The inner loop. */
    method LoadRow(y: nat, file: File)
      requires file.Valid() && y < |tiles| && sizeX <= |tiles[y]|
      modifies `tiles, file`at
      ensures file.Valid()
      ensures var (row, rest) := FillRow(old(tiles)[y], 0, sizeX, old(file.Ahead()));
              tiles == old(tiles)[y := row] && file.Ahead() == rest
    {
      ghost var before, s := tiles, file.Ahead();
      for x := 0 to Positive(sizeX)
        invariant file.Valid() && |tiles| == |before| && |tiles[y]| == |before[y]|
        invariant tiles == before[y := tiles[y]]
        invariant FillRow(tiles[y], x, sizeX, file.Ahead()) == FillRow(before[y], 0, sizeX, s)
      {
        var value := file.Read(-1);
        tiles := tiles[y := tiles[y][x := value]];
      }
    }

    method SaveFile(file: File)
      requires AsMap().Whole() && file.bytes == []
      modifies file`bytes
      ensures file.bytes == Saved(AsMap())
    {
      hide Written, Bytes;
      ghost var w := Positive(sizeX);
      ghost var all := RowsFrom(tiles, w, 0, sizeY);
      WrittenFirst(sizeX, [sizeY] + all);
      WrittenFirst(sizeY, all);
      file.Write(sizeX);
      file.Write(sizeY);
      assert [sizeX] + ([sizeY] + all) == [sizeX, sizeY] + all;
      for y := 0 to Positive(sizeY)
        invariant file.bytes + Written(RowsFrom(tiles, w, y, sizeY)) == Saved(AsMap())
      {
        SaveRow(y, file);
      }
      WrittenNone();
    }

    /** The inner loop. */
    method SaveRow(y: nat, file: File)
      requires AsMap().Whole() && y < sizeY
      requires file.bytes + Written(RowsFrom(tiles, Positive(sizeX), y, sizeY)) == Saved(AsMap())
      modifies file`bytes
      ensures file.bytes + Written(RowsFrom(tiles, Positive(sizeX), y + 1, sizeY)) == Saved(AsMap())
    {
      hide Written, Bytes, Saved;
      ghost var w := Positive(sizeX);
      ghost var later := RowsFrom(tiles, w, y + 1, sizeY);
      assert tiles[y][0..w] == tiles[y][..w];
      for x := 0 to Positive(sizeX)
        invariant file.bytes + Written(tiles[y][x..w] + later) == Saved(AsMap())
      {
        assert tiles[y][x..w] + later == [tiles[y][x]] + (tiles[y][x + 1..w] + later);
        WrittenFirst(tiles[y][x], tiles[y][x + 1..w] + later);
        file.Write(tiles[y][x]);
      }
      assert tiles[y][w..w] + later == later;
    }
  }

  lemma WrittenFirst(v: int32, vs: seq<int32>)
    ensures forall b: seq<byte> :: b + Written([v] + vs) == (b + Bytes(v)) + Written(vs)
  {
    assert ([v] + vs)[1..] == vs;
  }

  lemma WrittenNone()
    ensures Written([]) == []
  {
  }
}
