/** The Start-menu layout: grid arithmetic shared by all revisions, and the
    canonical packing of tiles into groups of bounded capacity. */
module Layout {
  import opened Wrappers

  /** `width` counts medium tiles per group row (3 or 4), `height` counts group rows
      (never validated), `tileSize` is 1 (small) or 2 (medium) grid cells. */
  datatype Config = Config(width: int, height: int, tileSize: int)

  /** One `DesktopApplicationTile`: size, column and row in grid cells, and the
      title its shortcut (`<title>.lnk`) is named after. */
  datatype Tile = Tile(size: int, column: int, row: int, link: string)

  /** One `start:Group` element: its name and its tiles in placement order. */
  datatype Group = Group(name: string, tiles: seq<Tile>)

  /** The shell's group width, `GroupCellWidth="8"`, in grid cells. */
  const GroupCellWidth := 8

  datatype FlagError = BadWidth | BadTileSize

  /** The values `main` lets through. */
  predicate ValidFlags(cfg: Config) {
    (cfg.width == 3 || cfg.width == 4) && (cfg.tileSize == 1 || cfg.tileSize == 2)
  }

  /** Tiles per group row: `width·(3−tileSize)`. */
  function EffectiveWidth(cfg: Config): int {
    cfg.width * (3 - cfg.tileSize)
  }

  /** The range of Go's `int`, which is 64 bits wide on the tool's platform. */
  const IntModulus := 0x1_0000_0000_0000_0000
  const IntMin := -0x8000_0000_0000_0000
  const IntMax := 0x7FFF_FFFF_FFFF_FFFF

  /** A result of Go's `int` arithmetic: the exact value wrapped into the signed
      64-bit range, which is what a chain of wrapping multiplications yields. */
  function WrapInt(x: int): (r: int)
    ensures IntMin <= r <= IntMax
    ensures (x - r) % IntModulus == 0
    ensures IntMin <= x <= IntMax ==> r == x
  {
    var m := x % IntModulus;
    if m > IntMax then m - IntModulus else m
  }

  /** A non-negative value never grows by wrapping. */
  lemma WrapIntBelow(x: int)
    requires x >= 0
    ensures WrapInt(x) <= x
  {
  }

  /** The exact product `width·(3−tileSize)·height·(3−tileSize)`. */
  function ExactCapacity(cfg: Config): int {
    cfg.width * (3 - cfg.tileSize) * cfg.height * (3 - cfg.tileSize)
  }

  /** Tiles per group, `maxTiles`, computed in Go `int`: wraps when `height` is
      huge, since nothing bounds it. */
  function Capacity(cfg: Config): int {
    WrapInt(ExactCapacity(cfg))
  }

  /** Heights that keep `maxTiles` exact under valid flags. */
  const HeightBound := 0x0800_0000_0000_0000

  /** The flag checks in `main`: width first, then tile size; height is never
      looked at. Passing them is what makes the grid arithmetic well defined. */
  function CheckFlags(cfg: Config): (r: Option<FlagError>)
    ensures r.None? <==> ValidFlags(cfg)
    ensures r == Some(BadWidth) <==> cfg.width != 3 && cfg.width != 4
    ensures r.None? ==> EffectiveWidth(cfg) in {3, 4, 6, 8}
    ensures r.None? && -HeightBound < cfg.height < HeightBound ==>
              Capacity(cfg) == ExactCapacity(cfg) && (cfg.height >= 1 <==> Capacity(cfg) >= 1)
  {
    if cfg.width != 3 && cfg.width != 4 then Some(BadWidth)
    else if cfg.tileSize != 1 && cfg.tileSize != 2 then Some(BadTileSize)
    else if -HeightBound < cfg.height < HeightBound then
      CapacityExact(cfg);
      None
    else None
  }

  /** Under valid flags the factor in front of `height` is between 3 and 16, so a
      height below 2^59 in size keeps the product inside Go's `int`. */
  lemma CapacityExact(cfg: Config)
    requires ValidFlags(cfg) && -HeightBound < cfg.height < HeightBound
    ensures ExactCapacity(cfg) == EffectiveWidth(cfg) * (3 - cfg.tileSize) * cfg.height
    ensures 3 <= EffectiveWidth(cfg) * (3 - cfg.tileSize) <= 16
    ensures Capacity(cfg) == ExactCapacity(cfg)
  {
    var f := EffectiveWidth(cfg) * (3 - cfg.tileSize);
    assert ExactCapacity(cfg) == f * cfg.height;
    if cfg.height >= 0 {
      MulMonotone(cfg.height, 16, f);
    } else {
      MulMonotone(-cfg.height, 16, f);
    }
  }

  /** A height the flag checks let through wraps `maxTiles` negative: width 3 and
      medium tiles give `3·height = 2^63 + 1`, which Go's `int` holds as
      `−2^63 + 1`, so the packing loop opens a group before every tile. */
  lemma HugeHeightWraps()
    ensures var cfg := Config(3, 3074457345618258603, 2);
            ValidFlags(cfg) && CheckFlags(cfg).None? && Capacity(cfg) == IntMin + 1
  {
  }

  /** Column of the `k`-th tile of a group, `(k mod W)·t`. */
  function Column(cfg: Config, k: nat): int
    requires ValidFlags(cfg)
  {
    (k % EffectiveWidth(cfg)) * cfg.tileSize
  }

  /** Row of the `k`-th tile of a group, written `(k − k mod W)/W·t` in the source. */
  function Row(cfg: Config, k: nat): (r: int)
    requires ValidFlags(cfg)
    ensures r == (k / EffectiveWidth(cfg)) * cfg.tileSize
  {
    var w := EffectiveWidth(cfg);
    assert k - k % w == (k / w) * w;
    (k - k % w) / w * cfg.tileSize
  }

  /** The tile element written for the `k`-th tile of a group. */
  function TileAt(cfg: Config, k: nat, title: string): Tile
    requires ValidFlags(cfg)
  {
    Tile(cfg.tileSize, Column(cfg, k), Row(cfg, k), title)
  }

  /** Every slot of a group lies inside the group's grid: at most `2·width` (so at
      most 8) cells wide and `2·height` cells tall. */
  lemma CellInsideGroup(cfg: Config, k: nat)
    requires ValidFlags(cfg) && cfg.height >= 1 && k < Capacity(cfg)
    ensures 0 <= Column(cfg, k) && Column(cfg, k) + cfg.tileSize <= 2 * cfg.width <= GroupCellWidth
    ensures 0 <= Row(cfg, k) && Row(cfg, k) + cfg.tileSize <= 2 * cfg.height
  {
    var w := EffectiveWidth(cfg);
    var rows := cfg.height * (3 - cfg.tileSize);
    assert rows >= cfg.height by {
      MulMonotone(cfg.height, 3 - cfg.tileSize, 1);
    }
    assert ExactCapacity(cfg) == w * rows;
    MulMonotone(w, rows, 0);
    WrapIntBelow(ExactCapacity(cfg));
    QuotientBelow(k, w, rows);
    RowInsideGroup(cfg, k / w);
  }

  /** A slot row below `height·(3−t)` ends inside `2·height` cells. */
  lemma RowInsideGroup(cfg: Config, q: nat)
    requires ValidFlags(cfg) && q < cfg.height * (3 - cfg.tileSize)
    ensures q * cfg.tileSize + cfg.tileSize <= 2 * cfg.height
  {
    if cfg.tileSize == 1 {
      assert q < 2 * cfg.height;
    } else {
      assert q < cfg.height;
      assert q * 2 + 2 <= 2 * cfg.height;
    }
  }

  /** Multiplication by a non-negative factor is monotone. */
  lemma MulMonotone(w: int, a: int, b: int)
    requires w >= 0
    ensures a >= b ==> w * a >= w * b
  {
    assert w * a - w * b == w * (a - b);
  }

  lemma QuotientBelow(k: nat, w: int, m: int)
    requires w > 0 && k < w * m
    ensures k / w < m
  {
    assert k == w * (k / w) + k % w;
    MulMonotone(w, k / w, m);
  }

  /** Distinct slots get disjoint `t×t` squares. */
  lemma CellsDisjoint(cfg: Config, j: nat, k: nat)
    requires ValidFlags(cfg) && j != k
    ensures || Column(cfg, j) + cfg.tileSize <= Column(cfg, k)
            || Column(cfg, k) + cfg.tileSize <= Column(cfg, j)
            || Row(cfg, j) + cfg.tileSize <= Row(cfg, k)
            || Row(cfg, k) + cfg.tileSize <= Row(cfg, j)
  {
    var w := EffectiveWidth(cfg);
    assert j == (j / w) * w + j % w && k == (k / w) * w + k % w;
    if j % w == k % w {
      assert j / w != k / w;
    }
  }

  /** Five games, width 3, medium tiles, height 7: one group of capacity 21,
      columns 0, 2, 4, 0, 2 and rows 0, 0, 0, 2, 2. */
  lemma FiveTileExample()
    ensures var cfg := Config(3, 7, 2);
            && EffectiveWidth(cfg) == 3 && Capacity(cfg) == 21
            && [Column(cfg, 0), Column(cfg, 1), Column(cfg, 2), Column(cfg, 3), Column(cfg, 4)] == [0, 2, 4, 0, 2]
            && [Row(cfg, 0), Row(cfg, 1), Row(cfg, 2), Row(cfg, 3), Row(cfg, 4)] == [0, 0, 0, 2, 2]
  {
  }

  // ---- packing ----

  /** All tiles of a layout in document order. */
  function Flatten(doc: seq<Group>): seq<Tile>
  {
    if |doc| == 0 then [] else Flatten(doc[..|doc| - 1]) + doc[|doc| - 1].tiles
  }

  lemma FlattenAddGroup(doc: seq<Group>, g: Group)
    ensures Flatten(doc + [g]) == Flatten(doc) + g.tiles
  {
    assert (doc + [g])[..|doc|] == doc;
  }

  lemma FlattenAddTile(doc: seq<Group>, t: Tile)
    requires |doc| > 0
    ensures var last := doc[|doc| - 1];
            Flatten(doc[..|doc| - 1] + [Group(last.name, last.tiles + [t])]) == Flatten(doc) + [t]
  {
    var last := doc[|doc| - 1];
    FlattenAddGroup(doc[..|doc| - 1], Group(last.name, last.tiles + [t]));
  }

  /** Slot, inside its group, of the tile placed `k`-th overall: `k mod C`, or 0
      when the capacity is not positive and every tile gets a group of its own. */
  function Slot(cfg: Config, k: nat): (r: nat)
    ensures Capacity(cfg) >= 1 ==> r < Capacity(cfg) && (k < Capacity(cfg) ==> r == k)
  {
    var c := Capacity(cfg);
    if c >= 1 then SlotBelow(k, c); k % c else 0
  }

  lemma SlotBelow(k: nat, c: int)
    requires c >= 1
    ensures k % c < c && (k < c ==> k % c == k)
  {
  }

  lemma DivModUnique(n: int, c: int, q: int, r: int)
    requires c > 0 && 0 <= r < c && n == q * c + r
    ensures n / c == q && n % c == r
  {
    var q', r' := n / c, n % c;
    assert n == q' * c + r';
    MulMonotone(c, q', q + 1);
    MulMonotone(c, q, q' + 1);
    assert c * (q + 1) == c * q + c && c * (q' + 1) == c * q' + c;
  }

  /** The tiles of a layout of the titles `ts`: every group carries `name`, and the
      tiles, in document order, are the titles at their slots. */
  predicate LaidTiles(cfg: Config, name: string, ts: seq<string>, doc: seq<Group>)
    requires ValidFlags(cfg)
  {
    && |doc| >= 1
    && (forall g :: 0 <= g < |doc| ==> doc[g].name == name)
    && |Flatten(doc)| == |ts|
    && (forall k :: 0 <= k < |ts| ==> Flatten(doc)[k] == TileAt(cfg, Slot(cfg, k), ts[k]))
  }

  /** The group sizes for a positive capacity: all groups but the last are full,
      and the last is non-empty unless nothing was placed. */
  predicate LaidFull(cfg: Config, name: string, ts: seq<string>, doc: seq<Group>)
    requires |doc| >= 1
  {
    var c := Capacity(cfg);
    c >= 1 ==>
      && |doc[|doc| - 1].tiles| <= c
      && (|doc| - 1) * c + |doc[|doc| - 1].tiles| == |ts|
      && (forall g :: 0 <= g < |doc| - 1 ==> |doc[g].tiles| == c)
      && (|ts| > 0 ==> |doc[|doc| - 1].tiles| > 0)
      && (|ts| == 0 ==> doc == [Group(name, [])])
  }

  /** The group sizes for a capacity of zero or less: an empty first group, then one
      group per tile. */
  predicate LaidSingles(cfg: Config, ts: seq<string>, doc: seq<Group>)
    requires |doc| >= 1
  {
    Capacity(cfg) <= 0 ==>
      && |doc| == |ts| + 1
      && doc[0].tiles == []
      && (forall g :: 1 <= g < |doc| ==> |doc[g].tiles| == 1)
  }

  predicate Laid(cfg: Config, name: string, ts: seq<string>, doc: seq<Group>)
    requires ValidFlags(cfg)
  {
    LaidTiles(cfg, name, ts, doc) && LaidFull(cfg, name, ts, doc) && LaidSingles(cfg, ts, doc)
  }

  /** One turn of the loop: a group that has reached the capacity is closed and a
      new one opened, then the tile goes into the last group at the next slot. */
  function Place(cfg: Config, name: string, doc: seq<Group>, title: string): (d: seq<Group>)
    requires ValidFlags(cfg) && |doc| >= 1
    ensures |d| >= 1
  {
    var open := if |doc[|doc| - 1].tiles| >= Capacity(cfg) then doc + [Group(name, [])] else doc;
    var last := open[|open| - 1];
    open[..|open| - 1] + [Group(last.name, last.tiles + [TileAt(cfg, |last.tiles|, title)])]
  }

  /** The two shapes of a turn: a fresh group holding just the new tile, or the
      tile appended to the last group. */
  lemma PlaceShape(cfg: Config, name: string, doc: seq<Group>, title: string)
    requires ValidFlags(cfg) && |doc| >= 1
    ensures var last := doc[|doc| - 1];
            var d := Place(cfg, name, doc, title);
            && (|last.tiles| >= Capacity(cfg) ==> d == doc + [Group(name, [TileAt(cfg, 0, title)])])
            && (|last.tiles| < Capacity(cfg) ==>
                  d == doc[..|doc| - 1] + [Group(last.name, last.tiles + [TileAt(cfg, |last.tiles|, title)])])
  {
    if |doc[|doc| - 1].tiles| >= Capacity(cfg) {
      var open := doc + [Group(name, [])];
      assert open[..|open| - 1] == doc && open[|open| - 1] == Group(name, []);
      assert [] + [TileAt(cfg, 0, title)] == [TileAt(cfg, 0, title)];
    }
  }

  /** A turn appends exactly one tile to the flattened layout, at the slot the
      running count gives it. */
  lemma PlaceAppendsAtSlot(cfg: Config, name: string, ts: seq<string>, doc: seq<Group>, title: string)
    requires ValidFlags(cfg) && Laid(cfg, name, ts, doc)
    ensures Flatten(Place(cfg, name, doc, title)) == Flatten(doc) + [TileAt(cfg, Slot(cfg, |ts|), title)]
  {
    var c := Capacity(cfg);
    var n := |ts|;
    var count := |doc[|doc| - 1].tiles|;
    PlaceShape(cfg, name, doc, title);
    if count >= c {
      FlattenAddGroup(doc, Group(name, [TileAt(cfg, 0, title)]));
      if c >= 1 {
        DivModUnique(n, c, |doc|, 0);
      }
    } else {
      FlattenAddTile(doc, TileAt(cfg, count, title));
      DivModUnique(n, c, |doc| - 1, count);
    }
  }

  lemma PlaceKeepsTiles(cfg: Config, name: string, ts: seq<string>, doc: seq<Group>, title: string)
    requires ValidFlags(cfg) && Laid(cfg, name, ts, doc)
    ensures LaidTiles(cfg, name, ts + [title], Place(cfg, name, doc, title))
  {
    var d := Place(cfg, name, doc, title);
    var ts' := ts + [title];
    PlaceAppendsAtSlot(cfg, name, ts, doc, title);
    PlaceKeepsNames(cfg, name, doc, title);
    forall k | 0 <= k < |ts'|
      ensures Flatten(d)[k] == TileAt(cfg, Slot(cfg, k), ts'[k])
    {
      if k < |ts| {
        assert Flatten(d)[k] == Flatten(doc)[k];
      }
    }
  }

  lemma PlaceKeepsNames(cfg: Config, name: string, doc: seq<Group>, title: string)
    requires ValidFlags(cfg) && |doc| >= 1
    requires forall g :: 0 <= g < |doc| ==> doc[g].name == name
    ensures var d := Place(cfg, name, doc, title);
            forall g :: 0 <= g < |d| ==> d[g].name == name
  {
    PlaceShape(cfg, name, doc, title);
  }

  lemma PlaceKeepsSizes(cfg: Config, name: string, ts: seq<string>, doc: seq<Group>, title: string)
    requires ValidFlags(cfg) && Laid(cfg, name, ts, doc)
    ensures LaidFull(cfg, name, ts + [title], Place(cfg, name, doc, title))
    ensures LaidSingles(cfg, ts + [title], Place(cfg, name, doc, title))
  {
    PlaceShape(cfg, name, doc, title);
  }

  /** Placing one more title keeps the shape `Laid` describes. */
  lemma PlaceKeepsLaid(cfg: Config, name: string, ts: seq<string>, doc: seq<Group>, title: string)
    requires ValidFlags(cfg) && Laid(cfg, name, ts, doc)
    ensures Laid(cfg, name, ts + [title], Place(cfg, name, doc, title))
  {
    PlaceKeepsTiles(cfg, name, ts, doc, title);
    PlaceKeepsSizes(cfg, name, ts, doc, title);
  }

  /** `createStartMenu`'s layout loop: before each tile, a full group (count at
      capacity) is closed and a new one with the same name is opened. */
  method Pack(cfg: Config, groupName: string, titles: seq<string>) returns (doc: seq<Group>)
    requires ValidFlags(cfg)
    ensures |doc| >= 1
    ensures forall g :: 0 <= g < |doc| ==> doc[g].name == groupName
    ensures |Flatten(doc)| == |titles|
    ensures forall k :: 0 <= k < |titles| ==> Flatten(doc)[k] == TileAt(cfg, Slot(cfg, k), titles[k])
    ensures Capacity(cfg) >= 1 ==> forall g :: 0 <= g < |doc| - 1 ==> |doc[g].tiles| == Capacity(cfg)
    ensures Capacity(cfg) >= 1 && |titles| > 0 ==>
              && 0 < |doc[|doc| - 1].tiles| <= Capacity(cfg)
              && |doc| == (|titles| + Capacity(cfg) - 1) / Capacity(cfg)
    ensures Capacity(cfg) >= 1 && |titles| == 0 ==> doc == [Group(groupName, [])]
    ensures Capacity(cfg) <= 0 ==>
              && |doc| == |titles| + 1
              && doc[0].tiles == []
              && forall g :: 1 <= g < |doc| ==> |doc[g].tiles| == 1
  {
    doc := [Group(groupName, [])];
    var i := 0;
    while i < |titles|
      invariant 0 <= i <= |titles|
      invariant Laid(cfg, groupName, titles[..i], doc)
    {
      PlaceKeepsLaid(cfg, groupName, titles[..i], doc, titles[i]);
      assert titles[..i] + [titles[i]] == titles[..i + 1];
      doc := Place(cfg, groupName, doc, titles[i]);
      i := i + 1;
    }
    assert titles[..i] == titles;
    var c := Capacity(cfg);
    if c >= 1 && |titles| > 0 {
      DivModUnique(|titles| + c - 1, c, |doc|, |doc[|doc| - 1].tiles| - 1);
    }
  }
}
