/** The first revision, `main.go`: a fixed tag, the narrow allow-list, no count
    ceilings, every game in one unnamed group whose rows grow without bound, and
    one PowerShell run per game that always fetches the icon. */
module EarlyRevision {
  import opened Wrappers
  import opened Sanitizer
  import opened Games
  import opened Catalog
  import opened Layout
  import opened Shortcuts
  import opened KeyedRevision
  import Text

  /** The only tag this revision reads. */
  const FixedTag := "StartMenuTiles"

  /** The same title read by this revision and by the map-keyed one: both panic
      on it or neither does, and this revision's title is the map-keyed title with
      the characters outside `[A-Za-z0-9 ]` removed as well. */
  lemma NarrowTitleOfWideTitle(title: string)
    ensures ExtractTitle(title, Narrow).None? <==> ExtractTitle(title, Wide).None?
    ensures ExtractTitle(title, Narrow).Some? ==>
              ExtractTitle(title, Narrow).value == Filter(Narrow, ExtractTitle(title, Wide).value)
  {
    match Text.SecondField(title, ':')
    case None =>
    case Some(field) => NarrowAfterWide(field);
  }

  /** `listGames` of the first revision: one fixed query, the accept loop with the
      narrow list, and neither a count check nor an empty check. */
  function ListGamesEarly(db: Query -> Option<seq<Row>>): (r: Result<GameMap, Fatal>)
    ensures r == Failure(QueryFailed) <==> db(TaggedGames(FixedTag)).None?
    ensures r == Failure(TitleWithoutColon) <==>
              db(TaggedGames(FixedTag)).Some?
              && exists i :: 0 <= i < |db(TaggedGames(FixedTag)).value| && ':' !in db(TaggedGames(FixedTag)).value[i].title
    ensures r.Success? <==>
              db(TaggedGames(FixedTag)).Some?
              && forall i :: 0 <= i < |db(TaggedGames(FixedTag)).value| ==> ':' in db(TaggedGames(FixedTag)).value[i].title
    ensures r.Success? ==>
              && DistinctEntryTitles(r.value)
              && r.value.Keys <= RowKeys(db(TaggedGames(FixedTag)).value)
              && (forall k :: k in r.value ==> AllAllowed(Narrow, r.value[k].title))
  {
    match db(TaggedGames(FixedTag))
    case None => Failure(QueryFailed)
    case Some(rows) =>
      match Collect(rows, Narrow)
      case None => Failure(TitleWithoutColon)
      case Some(games) => Success(games)
  }

  /** The layout loop of the first revision: every tile goes into the single
      group named "", at slot `k` for the `k`-th game; the grid is `width` wide
      and its rows are not bounded. Distinct tiles never overlap, and every tile
      fits the group's eight cells of width. */
  method PackSingleGroup(cfg: Config, titles: seq<string>) returns (g: Group)
    requires ValidFlags(cfg)
    ensures g.name == "" && |g.tiles| == |titles|
    ensures forall k :: 0 <= k < |titles| ==> g.tiles[k] == TileAt(cfg, k, titles[k])
    ensures forall k :: 0 <= k < |titles| ==>
              0 <= g.tiles[k].column && g.tiles[k].column + g.tiles[k].size <= GroupCellWidth
    ensures forall j, k :: 0 <= j < k < |titles| ==>
              || g.tiles[j].column + g.tiles[j].size <= g.tiles[k].column
              || g.tiles[k].column + g.tiles[k].size <= g.tiles[j].column
              || g.tiles[j].row + g.tiles[j].size <= g.tiles[k].row
              || g.tiles[k].row + g.tiles[k].size <= g.tiles[j].row
  {
    var tiles: seq<Tile> := [];
    var k := 0;
    while k < |titles|
      invariant 0 <= k <= |titles| && |tiles| == k
      invariant forall i :: 0 <= i < k ==> tiles[i] == TileAt(cfg, i, titles[i])
    {
      tiles := tiles + [TileAt(cfg, k, titles[k])];
      k := k + 1;
    }
    g := Group("", tiles);
    forall k | 0 <= k < |titles|
      ensures 0 <= g.tiles[k].column && g.tiles[k].column + g.tiles[k].size <= GroupCellWidth
    {
      ColumnInsideGroup(cfg, k);
    }
    forall j, k | 0 <= j < k < |titles|
      ensures || g.tiles[j].column + g.tiles[j].size <= g.tiles[k].column
              || g.tiles[k].column + g.tiles[k].size <= g.tiles[j].column
              || g.tiles[j].row + g.tiles[j].size <= g.tiles[k].row
              || g.tiles[k].row + g.tiles[k].size <= g.tiles[j].row
    {
      CellsDisjoint(cfg, j, k);
    }
  }

  /** A column never leaves the group's width, whatever the slot. */
  lemma ColumnInsideGroup(cfg: Config, k: nat)
    requires ValidFlags(cfg)
    ensures 0 <= Column(cfg, k) && Column(cfg, k) + cfg.tileSize <= 2 * cfg.width <= GroupCellWidth
  {
    var w := EffectiveWidth(cfg);
    assert 0 <= k % w < w;
    assert (k % w + 1) * cfg.tileSize <= w * cfg.tileSize;
  }

  /** The rows are not bounded: the `(W·h)`-th game starts at row `h·t`, so with
      enough games the group is taller than any height. */
  lemma RowsUnbounded(cfg: Config, h: nat)
    requires ValidFlags(cfg)
    ensures Layout.Row(cfg, EffectiveWidth(cfg) * h) == h * cfg.tileSize >= h
  {
    var w := EffectiveWidth(cfg);
    DivModUnique(w * h, w, h, 0);
  }

  /** The games with their file names: this revision names every file by the raw
      release key. */
  function RawGames(games: GameMap, order: seq<string>): (r: seq<Game>)
    requires forall i :: 0 <= i < |order| ==> order[i] in games
    ensures |r| == |order|
  {
    seq(|order|, i requires 0 <= i < |order| =>
      Game(order[i], games[order[i]].title, order[i], games[order[i]].iconFileName))
  }

  /** The per-game side of `createStartMenu`: the launch script and the manifest
      (always showing the name), then one PowerShell run that fetches the icon
      and creates the shortcut. */
  method PerGameRuns(games: GameMap, order: seq<string>) returns (files: seq<FileWrite>, runs: seq<seq<Command>>)
    requires forall i :: 0 <= i < |order| ==> order[i] in games
    ensures |files| == 2 * |order| && |runs| == |order|
    ensures forall i :: 0 <= i < |order| ==>
              && files[2 * i] == LaunchScript(order[i], order[i])
              && files[2 * i + 1] == Manifest(order[i], NameOnLogo(false))
              && runs[i] == [DownloadIcon(games[order[i]].iconFileName, order[i]), CreateShortcut(games[order[i]].title, order[i])]
  {
    files, runs := [], [];
    var i := 0;
    while i < |order|
      invariant 0 <= i <= |order| && |files| == 2 * i && |runs| == i
      invariant forall j :: 0 <= j < i ==>
                  && files[2 * j] == LaunchScript(order[j], order[j])
                  && files[2 * j + 1] == Manifest(order[j], NameOnLogo(false))
      invariant forall j :: 0 <= j < i ==>
                  runs[j] == [DownloadIcon(games[order[j]].iconFileName, order[j]), CreateShortcut(games[order[j]].title, order[j])]
    {
      var key := order[i];
      var e := games[key];
      var files' := files + [LaunchScript(key, key), Manifest(key, NameOnLogo(false))];
      forall j | 0 <= j < i + 1
        ensures && files'[2 * j] == LaunchScript(order[j], order[j])
                && files'[2 * j + 1] == Manifest(order[j], NameOnLogo(false))
      {
        if j < i {
          assert files'[2 * j] == files[2 * j] && files'[2 * j + 1] == files[2 * j + 1];
        }
      }
      files := files';
      runs := runs + [[DownloadIcon(e.iconFileName, key), CreateShortcut(e.title, key)]];
      i := i + 1;
    }
  }

  /** The download lines of all runs, in order. */
  function DownloadLines(runs: seq<seq<Command>>): (ds: seq<Command>)
    requires forall i :: 0 <= i < |runs| ==> |runs[i]| >= 1
    ensures |ds| == |runs|
    ensures forall i :: 0 <= i < |runs| ==> ds[i] == runs[i][0]
  {
    if |runs| == 0 then [] else DownloadLines(runs[..|runs| - 1]) + [runs[|runs| - 1][0]]
  }

  /** The runs fetch exactly what the later revisions' download batch fetches
      with `force` set, for games named by their raw keys: every icon, in order. */
  lemma {:induction false} DownloadsAreForcedBatch(games: GameMap, order: seq<string>, runs: seq<seq<Command>>, icons: set<string>)
    requires forall i :: 0 <= i < |order| ==> order[i] in games
    requires |runs| == |order|
    requires forall i :: 0 <= i < |order| ==>
               runs[i] == [DownloadIcon(games[order[i]].iconFileName, order[i]), CreateShortcut(games[order[i]].title, order[i])]
    ensures DownloadLines(runs) == IconDownloads(RawGames(games, order), icons, true)
  {
    var gs := RawGames(games, order);
    ForcedDownloadsAll(gs, icons);
    var ds := DownloadLines(runs);
    DownloadLinesAt(runs);
    forall i | 0 <= i < |order| ensures ds[i] == IconDownloads(gs, icons, true)[i] {
      assert runs[i][0] == DownloadIcon(gs[i].iconFileName, gs[i].fileName);
    }
  }

  lemma {:induction false} DownloadLinesAt(runs: seq<seq<Command>>)
    requires forall i :: 0 <= i < |runs| ==> |runs[i]| >= 1
    ensures |DownloadLines(runs)| == |runs|
    ensures forall i :: 0 <= i < |runs| ==> DownloadLines(runs)[i] == runs[i][0]
  {
    if |runs| > 0 {
      DownloadLinesAt(runs[..|runs| - 1]);
    }
  }

  /** The layout half of the first revision's `createStartMenu`: tile `i` carries
      the title stored under `order[i]`, so every stored game has a tile. */
  method LayOutEarly(cfg: Config, games: GameMap, order: seq<string>) returns (g: Group)
    requires ValidFlags(cfg) && Enumerates(order, games)
    ensures g.name == "" && |g.tiles| == |order|
    ensures forall i :: 0 <= i < |order| ==> g.tiles[i] == TileAt(cfg, i, games[order[i]].title)
    ensures Covers(g.tiles, games)
  {
    var gs := RawGames(games, order);
    g := PackSingleGroup(cfg, TitleList(gs));
    forall i | 0 <= i < |order| ensures g.tiles[i] == TileAt(cfg, i, games[order[i]].title) {
      assert TitleList(gs)[i] == gs[i].title;
    }
    forall k | k in games ensures exists i :: 0 <= i < |g.tiles| && g.tiles[i].link == games[k].title {
      var i :| 0 <= i < |order| && order[i] == k;
      assert g.tiles[i].link == games[k].title;
    }
  }

  /** `createStartMenu` of the first revision, for one iteration order of the
      map: tile `i`, the files and run `i` all belong to the game at `order[i]`,
      and tile `i`'s link and run `i`'s shortcut carry the same title (the folders
      are not modelled). */
  method CreateStartMenuEarly(cfg: Config, games: GameMap, order: seq<string>)
    returns (g: Group, files: seq<FileWrite>, runs: seq<seq<Command>>)
    requires ValidFlags(cfg) && Enumerates(order, games)
    ensures g.name == "" && |g.tiles| == |runs| == |order| && |files| == 2 * |order|
    ensures forall i :: 0 <= i < |order| ==>
              && g.tiles[i].link == games[order[i]].title
              && |runs[i]| == 2 && runs[i][1] == CreateShortcut(g.tiles[i].link, order[i])
              && files[2 * i] == LaunchScript(order[i], order[i])
    ensures Covers(g.tiles, games)
  {
    g := LayOutEarly(cfg, games, order);
    files, runs := PerGameRuns(games, order);
    forall i | 0 <= i < |order|
      ensures && g.tiles[i].link == games[order[i]].title
              && |runs[i]| == 2 && runs[i][1] == CreateShortcut(g.tiles[i].link, order[i])
    {
      var e := games[order[i]];
      assert runs[i] == [DownloadIcon(e.iconFileName, order[i]), CreateShortcut(e.title, order[i])];
      assert g.tiles[i] == TileAt(cfg, i, e.title);
    }
  }
}
