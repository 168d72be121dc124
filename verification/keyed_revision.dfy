/** The revision in `src/main.go`, which keeps games in a map keyed by release key:
    its title extraction (`strings.Split`, not `SplitN`), the accept loop with
    overwrite-by-key, the count ceilings, and a layout loop that checks for a full
    group after placing a tile rather than before. */
module KeyedRevision {
  import opened Wrappers
  import opened Text
  import opened Sanitizer
  import opened Games
  import opened Catalog
  import opened Layout
  import opened Shortcuts

  /** The inner map of one game: its `iconFileName` and `title` entries. */
  datatype Entry = Entry(iconFileName: string, title: string)

  /** The games by release key. */
  type GameMap = map<string, Entry>

  datatype KeyedCatalog = KeyedCatalog(games: GameMap, warnTooMany: bool)

  /** The title as this revision computes it: the field between the first and the
      second colon, filtered. `None` is the panic on a title without a colon. */
  function ExtractTitle(title: string, a: AllowList): (r: Option<string>)
    ensures r.None? <==> ':' !in title
    ensures r.Some? ==> AllAllowed(a, r.value) && ':' !in r.value
  {
    match SecondField(title, ':')
    case None => None
    case Some(field) => Some(Filter(a, field))
  }

  /** With a second colon, only the text between the first two survives. */
  lemma ExtractTitleStopsAtSecondColon(pre: string, mid: string, tail: string, a: AllowList)
    requires ':' !in pre && ':' !in mid
    ensures ExtractTitle(pre + [':'] + mid + [':'] + tail, a) == Some(Filter(a, mid))
  {
    SecondFieldOfTwoSeparators(pre, mid, tail, ':');
  }

  /** The canonical `Sanitize` keeps the text after the second colon as well; only
      the colon itself is filtered out. */
  lemma SanitizeKeepsTextAfterSecondColon(g: Game, pre: string, mid: string, tail: string, a: AllowList)
    requires ':' !in pre && ':' !in mid && g.title == pre + [':'] + mid + [':'] + tail
    ensures Sanitize(g, a).Some? && Sanitize(g, a).value.title == Filter(a, mid) + Filter(a, tail)
  {
    var rest := mid + [':'] + tail;
    assert g.title == pre + ":" + rest;
    SanitizedTitleAfterFirstColon(g, a, pre, rest);
    FilterDropsColon(a, mid, tail);
  }

  /** The filter drops a colon between two texts and keeps both. */
  lemma FilterDropsColon(a: AllowList, s: string, t: string)
    ensures Filter(a, s + [':'] + t) == Filter(a, s) + Filter(a, t)
  {
    FilterConcat(a, s + [':'], t);
    FilterConcat(a, s, [':']);
    FilterColon(a);
  }

  lemma FilterColon(a: AllowList)
    ensures Filter(a, [':']) == []
  {
    assert !Allowed(a, ':');
    assert [':'][1..] == [];
  }

  /** The two revisions disagree on a title with two colons whose middle and end
      pass the filter unchanged: this one keeps the middle only, the canonical one
      keeps both. */
  lemma SplitDisagrees(g: Game, pre: string, mid: string, tail: string, a: AllowList)
    requires ':' !in pre && ':' !in mid && g.title == pre + [':'] + mid + [':'] + tail
    requires Filter(a, mid) == mid && Filter(a, tail) == tail
    ensures ExtractTitle(g.title, a) == Some(mid)
    ensures Sanitize(g, a).Some? && Sanitize(g, a).value.title == mid + tail
  {
    ExtractTitleStopsAtSecondColon(pre, mid, tail, a);
    SanitizeKeepsTextAfterSecondColon(g, pre, mid, tail, a);
  }

  /** A subtitle after a second colon is lost: "S:A: B" becomes "A" here, where
      the canonical revision yields "A B". */
  lemma SplitLosesSubtitle(g: Game)
    requires g.title == "S:A: B"
    ensures ExtractTitle(g.title, Wide) == Some("A")
    ensures Sanitize(g, Wide).Some? && Sanitize(g, Wide).value.title == "A B"
  {
    KeptUnchanged(Wide, "A");
    KeptUnchanged(Wide, " B");
    assert g.title == "S" + [':'] + "A" + [':'] + " B";
    SplitDisagrees(g, "S", "A", " B", Wide);
  }

  /** Letters and spaces pass either list unchanged. */
  lemma KeptUnchanged(a: AllowList, s: string)
    requires forall i :: 0 <= i < |s| ==> s[i] == ' ' || 'A' <= s[i] <= 'Z' || 'a' <= s[i] <= 'z'
    ensures Filter(a, s) == s
  {
    FilterFixedPoints(a, s);
  }

  // ---- the accept loop ----

  /** The titles stored in the map. */
  function TitlesOf(m: GameMap): set<string> {
    set k | k in m :: m[k].title
  }

  /** No two keys share a title. */
  predicate DistinctEntryTitles(m: GameMap) {
    forall k1, k2 :: k1 in m && k2 in m && k1 != k2 ==> m[k1].title != m[k2].title
  }

  /** The release keys of the rows. */
  function RowKeys(rows: seq<Row>): set<string> {
    set i | 0 <= i < |rows| :: rows[i].releaseKey
  }

  /** One accepted row: skipped when its title is already stored, otherwise its key
      is set (added, or overwritten when the key is already there) to the
      normalised icon and the title. */
  function Admit(acc: GameMap, row: Row, t: string): GameMap {
    if t in TitlesOf(acc) then acc
    else acc[row.releaseKey := Entry(NormalizeIcon(row.iconFileName), t)]
  }

  /** The loop over the rows from `acc` on. `None` is the panic of the first title
      without a colon. */
  function CollectFrom(acc: GameMap, rows: seq<Row>, a: AllowList): (r: Option<GameMap>)
    ensures r.None? <==> exists i :: 0 <= i < |rows| && ':' !in rows[i].title
    decreases |rows|
  {
    if |rows| == 0 then Some(acc)
    else
      match ExtractTitle(rows[0].title, a)
      case None => None
      case Some(t) =>
        MissingColonCons(rows);
        CollectFrom(Admit(acc, rows[0], t), rows[1..], a)
  }

  lemma CollectStep(acc: GameMap, rows: seq<Row>, a: AllowList)
    requires |rows| > 0 && ExtractTitle(rows[0].title, a).Some?
    ensures CollectFrom(acc, rows, a) == CollectFrom(Admit(acc, rows[0], ExtractTitle(rows[0].title, a).value), rows[1..], a)
  {
  }

  /** Admitting a row keeps titles distinct, whether its key is new or
      overwritten. */
  lemma AdmitKeepsDistinct(acc: GameMap, row: Row, t: string)
    requires DistinctEntryTitles(acc)
    ensures DistinctEntryTitles(Admit(acc, row, t))
  {
    if t !in TitlesOf(acc) {
      var k := row.releaseKey;
      var m := Admit(acc, row, t);
      forall k1, k2 | k1 in m && k2 in m && k1 != k2 ensures m[k1].title != m[k2].title {
        if k1 != k && k2 != k {
          assert m[k1] == acc[k1] && m[k2] == acc[k2];
        } else if k1 == k {
          assert acc[k2].title in TitlesOf(acc);
        } else {
          assert acc[k1].title in TitlesOf(acc);
        }
      }
    }
  }

  /** Titles stay distinct through the whole loop. */
  lemma {:induction false} CollectKeepsDistinct(acc: GameMap, rows: seq<Row>, a: AllowList)
    requires DistinctEntryTitles(acc) && CollectFrom(acc, rows, a).Some?
    ensures DistinctEntryTitles(CollectFrom(acc, rows, a).value)
    decreases |rows|
  {
    if |rows| > 0 {
      var t := ExtractTitle(rows[0].title, a).value;
      CollectStep(acc, rows, a);
      AdmitKeepsDistinct(acc, rows[0], t);
      CollectKeepsDistinct(Admit(acc, rows[0], t), rows[1..], a);
    }
  }

  lemma RowKeysCons(rows: seq<Row>)
    requires |rows| > 0
    ensures RowKeys(rows) == {rows[0].releaseKey} + RowKeys(rows[1..])
  {
    forall x | x in RowKeys(rows) ensures x in {rows[0].releaseKey} + RowKeys(rows[1..]) {
      var i :| 0 <= i < |rows| && rows[i].releaseKey == x;
      if i > 0 {
        assert rows[1..][i - 1] == rows[i];
      }
    }
    forall x | x in RowKeys(rows[1..]) ensures x in RowKeys(rows) {
      var i :| 0 <= i < |rows[1..]| && rows[1..][i].releaseKey == x;
      assert rows[i + 1] == rows[1..][i];
    }
  }

  /** No key is ever removed, and every key added is some row's release key. */
  lemma {:induction false} CollectKeys(acc: GameMap, rows: seq<Row>, a: AllowList)
    requires CollectFrom(acc, rows, a).Some?
    ensures acc.Keys <= CollectFrom(acc, rows, a).value.Keys <= acc.Keys + RowKeys(rows)
    decreases |rows|
  {
    if |rows| > 0 {
      var t := ExtractTitle(rows[0].title, a).value;
      var acc' := Admit(acc, rows[0], t);
      RowKeysCons(rows);
      CollectStep(acc, rows, a);
      assert acc.Keys <= acc'.Keys <= acc.Keys + {rows[0].releaseKey};
      CollectKeys(acc', rows[1..], a);
    }
  }

  /** Every stored title passes the filter's allow-list. */
  lemma {:induction false} CollectTitlesAllowed(acc: GameMap, rows: seq<Row>, a: AllowList)
    requires forall k :: k in acc ==> AllAllowed(a, acc[k].title)
    requires CollectFrom(acc, rows, a).Some?
    ensures forall k :: k in CollectFrom(acc, rows, a).value ==> AllAllowed(a, CollectFrom(acc, rows, a).value[k].title)
    decreases |rows|
  {
    if |rows| > 0 {
      var t := ExtractTitle(rows[0].title, a).value;
      var acc' := Admit(acc, rows[0], t);
      CollectStep(acc, rows, a);
      AdmitKeepsAllowed(acc, rows[0], t, a);
      CollectTitlesAllowed(acc', rows[1..], a);
    }
  }

  lemma AdmitKeepsAllowed(acc: GameMap, row: Row, t: string, a: AllowList)
    requires forall k :: k in acc ==> AllAllowed(a, acc[k].title)
    requires AllAllowed(a, t)
    ensures var m := Admit(acc, row, t);
            forall k :: k in m ==> AllAllowed(a, m[k].title)
  {
  }

  /** The accept loop from an empty map. */
  function Collect(rows: seq<Row>, a: AllowList): (r: Option<GameMap>)
    ensures r.None? <==> exists i :: 0 <= i < |rows| && ':' !in rows[i].title
    ensures r.Some? ==> DistinctEntryTitles(r.value)
    ensures r.Some? ==> r.value.Keys <= RowKeys(rows)
    ensures r.Some? ==> (|r.value| == 0 <==> |rows| == 0)
    ensures r.Some? ==> forall k :: k in r.value ==> AllAllowed(a, r.value[k].title)
  {
    var r := CollectFrom(map[], rows, a);
    if r.Some? then
      CollectTitlesAllowed(map[], rows, a);
      CollectKeepsDistinct(map[], rows, a);
      CollectKeys(map[], rows, a);
      CollectKeepsFirstKey(rows, a);
      r
    else r
  }

  /** From an empty map, the first row's key is always stored. */
  lemma CollectKeepsFirstKey(rows: seq<Row>, a: AllowList)
    requires CollectFrom(map[], rows, a).Some?
    ensures |rows| > 0 ==> rows[0].releaseKey in CollectFrom(map[], rows, a).value
  {
    if |rows| > 0 {
      var t := ExtractTitle(rows[0].title, a).value;
      var acc := Admit(map[], rows[0], t);
      assert TitlesOf(map[]) == {};
      assert rows[0].releaseKey in acc;
      CollectStep(map[], rows, a);
      CollectKeys(acc, rows[1..], a);
    }
  }

  lemma TitlesOfSingleton(k: string, e: Entry)
    ensures TitlesOf(map[k := e]) == {e.title}
  {
    assert map[k := e][k] == e;
  }

  /** Two rows through the loop are two admissions. */
  lemma CollectTwo(r1: Row, r2: Row, a: AllowList)
    requires ExtractTitle(r1.title, a).Some? && ExtractTitle(r2.title, a).Some?
    ensures Collect([r1, r2], a)
            == Some(Admit(Admit(map[], r1, ExtractTitle(r1.title, a).value), r2, ExtractTitle(r2.title, a).value))
  {
    var rows := [r1, r2];
    var m1 := Admit(map[], r1, ExtractTitle(r1.title, a).value);
    CollectStep(map[], rows, a);
    assert rows[1..] == [r2];
    CollectStep(m1, [r2], a);
    assert [r2][1..] == [];
  }

  /** A row admitted into an empty map is its only entry. */
  lemma AdmitIntoEmpty(row: Row, t: string)
    ensures Admit(map[], row, t) == map[row.releaseKey := Entry(NormalizeIcon(row.iconFileName), t)]
  {
    assert TitlesOf(map[]) == {};
  }

  /** The first row with a title wins the title: a later row with the same
      extracted title is skipped, whatever its key. */
  lemma FirstTitleWins(r1: Row, r2: Row, a: AllowList)
    requires ExtractTitle(r1.title, a).Some? && ExtractTitle(r2.title, a) == ExtractTitle(r1.title, a)
    ensures Collect([r1, r2], a) == Some(map[r1.releaseKey := Entry(NormalizeIcon(r1.iconFileName), ExtractTitle(r1.title, a).value)])
  {
    var e := Entry(NormalizeIcon(r1.iconFileName), ExtractTitle(r1.title, a).value);
    CollectTwo(r1, r2, a);
    AdmitIntoEmpty(r1, e.title);
    TitlesOfSingleton(r1.releaseKey, e);
  }

  /** A row whose title differs from the single stored one, under the same key,
      replaces that entry. */
  lemma AdmitOverwrites(k: string, e: Entry, row: Row, t: string)
    requires row.releaseKey == k && t != e.title
    ensures Admit(map[k := e], row, t) == map[k := Entry(NormalizeIcon(row.iconFileName), t)]
  {
    TitlesOfSingleton(k, e);
  }

  /** A repeated key with a new title replaces the stored entry: the earlier
      title is no longer among the games. */
  lemma RepeatedKeyOverwrites(r1: Row, r2: Row, a: AllowList)
    requires r1.releaseKey == r2.releaseKey
    requires ExtractTitle(r1.title, a).Some? && ExtractTitle(r2.title, a).Some?
    requires ExtractTitle(r1.title, a) != ExtractTitle(r2.title, a)
    ensures Collect([r1, r2], a) == Some(map[r2.releaseKey := Entry(NormalizeIcon(r2.iconFileName), ExtractTitle(r2.title, a).value)])
    ensures ExtractTitle(r1.title, a).value !in TitlesOf(Collect([r1, r2], a).value)
  {
    var e1 := Entry(NormalizeIcon(r1.iconFileName), ExtractTitle(r1.title, a).value);
    var e2 := Entry(NormalizeIcon(r2.iconFileName), ExtractTitle(r2.title, a).value);
    CollectTwo(r1, r2, a);
    AdmitIntoEmpty(r1, e1.title);
    AdmitOverwrites(r1.releaseKey, e1, r2, e2.title);
    TitlesOfSingleton(r2.releaseKey, e2);
  }

  /** With a single colon, the whole rest of the title is kept, filtered. */
  lemma ExtractTitleAfterOnlyColon(pre: string, t: string, a: AllowList)
    requires ':' !in pre && ':' !in t
    ensures ExtractTitle(pre + ":" + t, a) == Some(Filter(a, t))
  {
    IndexOfAfterPrefix(pre, ':', t);
    assert (pre + ":" + t)[|pre| + 1..] == t;
  }

  // ---- listGames ----

  /** `listGames` of this revision: dispatch, the accept loop, then the same
      ceilings as the canonical revision, counted in map entries. */
  function ListGamesKeyed(tagName: string, db: Query -> Option<seq<Row>>): (r: Result<KeyedCatalog, Fatal>)
    ensures r == Failure(QueryFailed) <==> db(SelectQuery(tagName)).None?
    ensures r == Failure(TitleWithoutColon) <==>
              db(SelectQuery(tagName)).Some? && exists i :: 0 <= i < |db(SelectQuery(tagName)).value| && ':' !in db(SelectQuery(tagName)).value[i].title
    ensures r == Failure(NoGamesFound) <==> db(SelectQuery(tagName)) == Some([])
    ensures (r.Failure? && r.error.TooManyTiles?) <==>
              && db(SelectQuery(tagName)).Some?
              && Collect(db(SelectQuery(tagName)).value, Wide).Some?
              && |Collect(db(SelectQuery(tagName)).value, Wide).value| > HardLimit
    ensures r.Success? ==>
              && r.value.games == Collect(db(SelectQuery(tagName)).value, Wide).value
              && DistinctEntryTitles(r.value.games)
              && 1 <= |r.value.games| <= HardLimit
              && (r.value.warnTooMany <==> |r.value.games| > SoftLimit)
  {
    match db(SelectQuery(tagName))
    case None => Failure(QueryFailed)
    case Some(rows) =>
      match Collect(rows, Wide)
      case None => Failure(TitleWithoutColon)
      case Some(games) =>
        if |games| == 0 then Failure(NoGamesFound)
        else if |games| > HardLimit then Failure(TooManyTiles(|games|))
        else Success(KeyedCatalog(games, |games| > SoftLimit))
  }

  // ---- createStartMenu ----

  /** The group sizes this revision produces for a positive capacity: a group is
      closed as soon as it is full, so all groups but the last are full and the
      last never is. */
  predicate AfterFull(cfg: Config, ts: seq<string>, doc: seq<Group>)
    requires |doc| >= 1
  {
    var c := Capacity(cfg);
    c >= 1 ==>
      && |doc[|doc| - 1].tiles| < c
      && (|doc| - 1) * c + |doc[|doc| - 1].tiles| == |ts|
      && (forall g :: 0 <= g < |doc| - 1 ==> |doc[g].tiles| == c)
  }

  /** The group sizes for a capacity of zero or less: one tile per group and an
      empty group at the end. */
  predicate AfterSingles(cfg: Config, ts: seq<string>, doc: seq<Group>)
    requires |doc| >= 1
  {
    Capacity(cfg) <= 0 ==>
      && |doc| == |ts| + 1
      && doc[|doc| - 1].tiles == []
      && (forall g :: 0 <= g < |doc| - 1 ==> |doc[g].tiles| == 1)
  }

  predicate LaidAfter(cfg: Config, name: string, ts: seq<string>, doc: seq<Group>)
    requires ValidFlags(cfg)
  {
    LaidTiles(cfg, name, ts, doc) && AfterFull(cfg, ts, doc) && AfterSingles(cfg, ts, doc)
  }

  /** One turn of this revision's loop: place the tile in the last group, then open
      a new group if the count has reached the capacity. */
  function PlaceThenCheck(cfg: Config, name: string, doc: seq<Group>, title: string): (d: seq<Group>)
    requires ValidFlags(cfg) && |doc| >= 1
    ensures |d| >= 1
  {
    var last := doc[|doc| - 1];
    var placed := doc[..|doc| - 1] + [Group(last.name, last.tiles + [TileAt(cfg, |last.tiles|, title)])];
    if |last.tiles| + 1 >= Capacity(cfg) then placed + [Group(name, [])] else placed
  }

  lemma PlaceThenCheckAppendsAtSlot(cfg: Config, name: string, ts: seq<string>, doc: seq<Group>, title: string)
    requires ValidFlags(cfg) && LaidAfter(cfg, name, ts, doc)
    ensures Flatten(PlaceThenCheck(cfg, name, doc, title)) == Flatten(doc) + [TileAt(cfg, Slot(cfg, |ts|), title)]
  {
    var c := Capacity(cfg);
    var last := doc[|doc| - 1];
    var t := TileAt(cfg, |last.tiles|, title);
    var placed := doc[..|doc| - 1] + [Group(last.name, last.tiles + [t])];
    FlattenAddTile(doc, t);
    if |last.tiles| + 1 >= c {
      FlattenAddGroup(placed, Group(name, []));
      assert Flatten(placed) + [] == Flatten(placed);
    }
    if c >= 1 {
      DivModUnique(|ts|, c, |doc| - 1, |last.tiles|);
    }
  }

  lemma PlaceThenCheckKeepsTiles(cfg: Config, name: string, ts: seq<string>, doc: seq<Group>, title: string)
    requires ValidFlags(cfg) && LaidAfter(cfg, name, ts, doc)
    ensures LaidTiles(cfg, name, ts + [title], PlaceThenCheck(cfg, name, doc, title))
  {
    var d := PlaceThenCheck(cfg, name, doc, title);
    var ts' := ts + [title];
    PlaceThenCheckAppendsAtSlot(cfg, name, ts, doc, title);
    PlaceThenCheckKeepsNames(cfg, name, doc, title);
    forall k | 0 <= k < |ts'|
      ensures Flatten(d)[k] == TileAt(cfg, Slot(cfg, k), ts'[k])
    {
      if k < |ts| {
        assert Flatten(d)[k] == Flatten(doc)[k];
      }
    }
  }

  lemma PlaceThenCheckKeepsNames(cfg: Config, name: string, doc: seq<Group>, title: string)
    requires ValidFlags(cfg) && |doc| >= 1
    requires forall g :: 0 <= g < |doc| ==> doc[g].name == name
    ensures var d := PlaceThenCheck(cfg, name, doc, title);
            forall g :: 0 <= g < |d| ==> d[g].name == name
  {
    var last := doc[|doc| - 1];
    var placed := doc[..|doc| - 1] + [Group(last.name, last.tiles + [TileAt(cfg, |last.tiles|, title)])];
    assert forall g :: 0 <= g < |placed| ==> placed[g].name == name;
  }

  lemma PlaceThenCheckKeepsSizes(cfg: Config, name: string, ts: seq<string>, doc: seq<Group>, title: string)
    requires ValidFlags(cfg) && LaidAfter(cfg, name, ts, doc)
    ensures AfterFull(cfg, ts + [title], PlaceThenCheck(cfg, name, doc, title))
    ensures AfterSingles(cfg, ts + [title], PlaceThenCheck(cfg, name, doc, title))
  {
    var c := Capacity(cfg);
    assert |doc| * c == (|doc| - 1) * c + c;
  }

  lemma PlaceThenCheckKeepsShape(cfg: Config, name: string, ts: seq<string>, doc: seq<Group>, title: string)
    requires ValidFlags(cfg) && LaidAfter(cfg, name, ts, doc)
    ensures LaidAfter(cfg, name, ts + [title], PlaceThenCheck(cfg, name, doc, title))
  {
    PlaceThenCheckKeepsTiles(cfg, name, ts, doc, title);
    PlaceThenCheckKeepsSizes(cfg, name, ts, doc, title);
  }

  /** This revision's layout loop (placement first, overflow check second). */
  method PackAfterPlacement(cfg: Config, groupName: string, titles: seq<string>) returns (doc: seq<Group>)
    requires ValidFlags(cfg)
    ensures |doc| >= 1
    ensures forall g :: 0 <= g < |doc| ==> doc[g].name == groupName
    ensures |Flatten(doc)| == |titles|
    ensures forall k :: 0 <= k < |titles| ==> Flatten(doc)[k] == TileAt(cfg, Slot(cfg, k), titles[k])
    ensures Capacity(cfg) >= 1 ==>
              && |doc| == 1 + |titles| / Capacity(cfg)
              && |doc[|doc| - 1].tiles| == |titles| % Capacity(cfg)
              && forall g :: 0 <= g < |doc| - 1 ==> |doc[g].tiles| == Capacity(cfg)
    ensures Capacity(cfg) >= 1 ==> (doc[|doc| - 1].tiles == [] <==> |titles| % Capacity(cfg) == 0)
    ensures Capacity(cfg) <= 0 ==> |doc| == |titles| + 1 && doc[|doc| - 1].tiles == []
  {
    doc := [Group(groupName, [])];
    assert doc[..0] == [];
    assert LaidTiles(cfg, groupName, titles[..0], doc);
    assert AfterFull(cfg, titles[..0], doc);
    assert AfterSingles(cfg, titles[..0], doc);
    var i := 0;
    while i < |titles|
      invariant 0 <= i <= |titles|
      invariant LaidAfter(cfg, groupName, titles[..i], doc)
    {
      PlaceThenCheckKeepsShape(cfg, groupName, titles[..i], doc, titles[i]);
      assert titles[..i] + [titles[i]] == titles[..i + 1];
      doc := PlaceThenCheck(cfg, groupName, doc, titles[i]);
      i := i + 1;
    }
    assert titles[..i] == titles;
    var c := Capacity(cfg);
    if c >= 1 {
      DivModUnique(|titles|, c, |doc| - 1, |doc[|doc| - 1].tiles|);
    }
  }

  /** Twenty-one games fill one group of capacity 21 exactly, and this revision
      still opens a second, empty group after them. */
  method TrailingEmptyGroupExample() returns (doc: seq<Group>)
    ensures |doc| == 2 && doc[0].tiles != [] && doc[1].tiles == []
  {
    var titles := seq(21, i => "Game");
    doc := PackAfterPlacement(Config(3, 7, 2), "", titles);
    assert Capacity(Config(3, 7, 2)) == 21;
    assert |Flatten(doc)| == 21;
    assert |Flatten(doc[..|doc| - 1])| == 21 by {
      assert Flatten(doc) == Flatten(doc[..|doc| - 1]) + doc[|doc| - 1].tiles;
    }
  }

  /** The games in map-iteration order, as the canonical `Game` records this loop
      effectively builds: the file name is the filtered key. */
  function KeyedGames(games: GameMap, order: seq<string>): (r: seq<Game>)
    requires forall i :: 0 <= i < |order| ==> order[i] in games
    ensures |r| == |order|
  {
    seq(|order|, i requires 0 <= i < |order| =>
      Game(Filter(Wide, order[i]), games[order[i]].title, order[i], games[order[i]].iconFileName))
  }

  /** Every stored game's title is the link of some tile. */
  predicate Covers(tiles: seq<Tile>, games: GameMap) {
    forall k :: k in games ==> exists i :: 0 <= i < |tiles| && tiles[i].link == games[k].title
  }

  /** `order` is one iteration order of the map: every key exactly once. */
  predicate Enumerates(order: seq<string>, games: GameMap) {
    && (forall k :: k in games ==> k in order)
    && (forall i :: 0 <= i < |order| ==> order[i] in games)
    && (forall i, j :: 0 <= i < j < |order| ==> order[i] != order[j])
  }

  /** The layout half of this revision's `createStartMenu`: tile `i` links to the
      title stored under `order[i]`, so every stored game has a tile. */
  method LayOutKeyed(cfg: Config, groupName: string, games: GameMap, order: seq<string>)
    returns (doc: seq<Group>)
    requires ValidFlags(cfg) && Enumerates(order, games)
    ensures |doc| >= 1 && |Flatten(doc)| == |order|
    ensures forall i :: 0 <= i < |order| ==> Flatten(doc)[i].link == games[order[i]].title
    ensures Covers(Flatten(doc), games)
    ensures Capacity(cfg) >= 1 ==> (doc[|doc| - 1].tiles == [] <==> |order| % Capacity(cfg) == 0)
  {
    var gs := KeyedGames(games, order);
    doc := PackAfterPlacement(cfg, groupName, TitleList(gs));
    forall i | 0 <= i < |order| ensures Flatten(doc)[i].link == games[order[i]].title {
      assert TitleList(gs)[i] == gs[i].title;
    }
    forall k | k in games ensures exists i :: 0 <= i < |Flatten(doc)| && Flatten(doc)[i].link == games[k].title {
      var i :| 0 <= i < |order| && order[i] == k;
      assert Flatten(doc)[i].link == games[k].title;
    }
  }

  /** The file and PowerShell half: the launch script is named by the filtered key
      and launches the raw key, shortcut `i` carries the title stored under
      `order[i]`, and a download is planned iff the icon is missing or `force` is
      set. */
  method PlanKeyed(games: GameMap, order: seq<string>, icons: set<string>, force: bool, hideName: bool)
    returns (p: Plan)
    requires forall i :: 0 <= i < |order| ==> order[i] in games
    ensures |p.shortcuts| == |order| && |p.files| == 2 * |order|
    ensures forall i :: 0 <= i < |order| ==>
              && p.shortcuts[i] == CreateShortcut(games[order[i]].title, Filter(Wide, order[i]))
              && p.files[2 * i] == LaunchScript(Filter(Wide, order[i]), order[i])
    ensures DownloadsFor(p.downloads, games, order, icons, force)
  {
    var gs := KeyedGames(games, order);
    p := PlanShortcuts(gs, icons, force, hideName);
    KeyedDownloads(games, order, icons, force);
  }

  /** `createStartMenu` of this revision, for one iteration order of the map:
      tile `i` and shortcut `i` belong to the game at `order[i]`, under the same
      title. */
  method CreateStartMenuKeyed(cfg: Config, groupName: string, games: GameMap, order: seq<string>,
                              icons: set<string>, force: bool, hideName: bool)
    returns (doc: seq<Group>, p: Plan)
    requires ValidFlags(cfg) && Enumerates(order, games)
    ensures |doc| >= 1 && |Flatten(doc)| == |p.shortcuts| == |order|
    ensures forall i :: 0 <= i < |order| ==>
              p.shortcuts[i] == CreateShortcut(Flatten(doc)[i].link, Filter(Wide, order[i]))
    ensures Covers(Flatten(doc), games)
    ensures DownloadsFor(p.downloads, games, order, icons, force)
  {
    doc := LayOutKeyed(cfg, groupName, games, order);
    p := PlanKeyed(games, order, icons, force, hideName);
  }

  /** `ds` holds one download per key in `order` whose filtered name has no icon
      (or every key, with `force`), fetching that game's icon under that name. */
  ghost predicate DownloadsFor(ds: seq<Command>, games: GameMap, order: seq<string>, icons: set<string>, force: bool)
    requires forall i :: 0 <= i < |order| ==> order[i] in games
  {
    forall c :: c in ds <==>
      exists i :: 0 <= i < |order| && (Filter(Wide, order[i]) !in icons || force)
                  && c == DownloadIcon(games[order[i]].iconFileName, Filter(Wide, order[i]))
  }

  /** The download batch of the map-keyed loop, in the map's own terms. */
  lemma KeyedDownloads(games: GameMap, order: seq<string>, icons: set<string>, force: bool)
    requires forall i :: 0 <= i < |order| ==> order[i] in games
    ensures DownloadsFor(IconDownloads(KeyedGames(games, order), icons, force), games, order, icons, force)
  {
    var gs := KeyedGames(games, order);
    IconDownloadsMembers(gs, icons, force);
    forall i | 0 <= i < |order|
      ensures NeedsIcon(gs[i], icons, force) <==> (Filter(Wide, order[i]) !in icons || force)
      ensures DownloadIcon(gs[i].iconFileName, gs[i].fileName) == DownloadIcon(games[order[i]].iconFileName, Filter(Wide, order[i]))
    {
    }
  }
}
