/** `listGames` of the canonical revision, from the moment the query has returned
    its rows: the selector dispatch, per-row normalisation, first-seen-wins
    deduplication by title, the sort by title and the count ceilings. */
module Catalog {
  import opened Wrappers
  import opened Text
  import opened Sanitizer
  import opened Games

  /** One result row of a game query: release key, icon resource file name, title. */
  datatype Row = Row(releaseKey: string, iconFileName: string, title: string)

  /** The three queries a selector can choose. */
  datatype Query = InstalledGames | AllGames | TaggedGames(tag: string)

  /** Why `listGames` ends the program. */
  datatype Fatal = QueryFailed | TitleWithoutColon | NoGamesFound | TooManyTiles(count: nat)

  /** The accepted games, and whether the "too many tiles" warning was logged. */
  datatype Catalog = Catalog(games: seq<Game>, warnTooMany: bool)

  /** Above this many games a warning is logged. */
  const SoftLimit := 80
  /** Above this many games the program stops. */
  const HardLimit := 150

  /** The selector is compared exactly (case-sensitive) with two reserved words;
      anything else is a tag name. */
  function SelectQuery(tagName: string): (q: Query)
    ensures q == InstalledGames <==> tagName == "INSTALLED"
    ensures q == AllGames <==> tagName == "ALL"
    ensures q.TaggedGames? <==> tagName != "INSTALLED" && tagName != "ALL"
    ensures q.TaggedGames? ==> q.tag == tagName
  {
    if tagName == "INSTALLED" then InstalledGames
    else if tagName == "ALL" then AllGames
    else TaggedGames(tagName)
  }

  /** `rows.Scan` into a fresh `Game`: `FileName` is still empty. */
  function Scan(row: Row): Game {
    Game("", row.title, row.releaseKey, row.iconFileName)
  }

  /** Every row sanitized with the wide allow-list; `None` when some title has
      no colon (the panic of the first such row). */
  function SanitizeRows(rows: seq<Row>): (r: Option<seq<Game>>)
    ensures r.None? <==> exists i :: 0 <= i < |rows| && ':' !in rows[i].title
    ensures r.Some? ==>
              |r.value| == |rows|
              && forall i :: 0 <= i < |rows| ==> Sanitize(Scan(rows[i]), Wide) == Some(r.value[i])
  {
    if |rows| == 0 then Some([])
    else
      var rest := SanitizeRows(rows[1..]);
      match Sanitize(Scan(rows[0]), Wide)
      case None => None
      case Some(g) =>
        if rest.None? then None
        else
          assert forall i :: 1 <= i < |rows| ==> rows[i] == rows[1..][i - 1];
          Some([g] + rest.value)
  }

  /** Some row lacks a colon iff the first does or some later one does. */
  lemma MissingColonCons(rows: seq<Row>)
    requires |rows| > 0
    ensures (exists i :: 0 <= i < |rows| && ':' !in rows[i].title) <==>
            (':' !in rows[0].title || exists i :: 0 <= i < |rows[1..]| && ':' !in rows[1..][i].title)
  {
    if exists i :: 0 <= i < |rows| && ':' !in rows[i].title {
      var i :| 0 <= i < |rows| && ':' !in rows[i].title;
      if i > 0 {
        assert rows[1..][i - 1] == rows[i];
      }
    }
    if exists i :: 0 <= i < |rows[1..]| && ':' !in rows[1..][i].title {
      var i :| 0 <= i < |rows[1..]| && ':' !in rows[1..][i].title;
      assert rows[i + 1] == rows[1..][i];
    }
  }

  // ---- titles ----

  function Titles(s: seq<Game>): set<string> {
    set i | 0 <= i < |s| :: s[i].title
  }

  predicate TitleIn(t: string, s: seq<Game>) {
    exists i :: 0 <= i < |s| && s[i].title == t
  }

  predicate DistinctTitles(s: seq<Game>) {
    forall i, j :: 0 <= i < j < |s| ==> s[i].title != s[j].title
  }

  lemma TitlesSnoc(s: seq<Game>, g: Game)
    ensures Titles(s + [g]) == Titles(s) + {g.title}
  {
    var t := s + [g];
    assert forall i :: 0 <= i < |s| ==> t[i] == s[i];
    assert t[|s|] == g;
  }

  lemma TitlesCons(g: Game, s: seq<Game>)
    ensures Titles([g] + s) == {g.title} + Titles(s)
  {
    var t := [g] + s;
    assert forall i :: 0 <= i < |s| ==> t[i + 1] == s[i];
    assert t[0] == g;
    forall x | x in Titles(t) ensures x in {g.title} + Titles(s) {
      var i :| 0 <= i < |t| && t[i].title == x;
      if i > 0 {
        assert s[i - 1].title == x;
      }
    }
  }

  /** A list with pairwise distinct titles has as many titles as entries. */
  lemma {:induction false} DistinctTitlesCount(s: seq<Game>)
    requires DistinctTitles(s)
    ensures |Titles(s)| == |s|
    decreases |s|
  {
    if |s| > 0 {
      var init := s[..|s| - 1];
      assert s == init + [s[|s| - 1]];
      TitlesSnoc(init, s[|s| - 1]);
      DistinctTitlesCount(init);
      assert s[|s| - 1].title !in Titles(init);
    }
  }

  // ---- first seen wins ----

  /** The loop of `listGames`: a game is appended unless `ExistsIn` finds its
      title among the games accepted so far. */
  function AcceptFrom(accepted: seq<Game>, rest: seq<Game>): (r: seq<Game>)
    decreases |rest|
  {
    if |rest| == 0 then accepted
    else if ExistsIn(rest[0], accepted) then AcceptFrom(accepted, rest[1..])
    else AcceptFrom(accepted + [rest[0]], rest[1..])
  }

  function Accept(games: seq<Game>): seq<Game> {
    AcceptFrom([], games)
  }

  /** The row at index `i` carries a title no earlier row carries. */
  predicate FirstOfTitle(s: seq<Game>, i: int)
    requires 0 <= i < |s|
  {
    forall j :: 0 <= j < i ==> s[j].title != s[i].title
  }

  /** Reference definition: keep a row iff no earlier ROW (accepted or not) has its
      title, without looking at what was accepted. */
  function FirstSeen(s: seq<Game>): seq<Game>
  {
    if |s| == 0 then []
    else if TitleIn(s[|s| - 1].title, s[..|s| - 1]) then FirstSeen(s[..|s| - 1])
    else FirstSeen(s[..|s| - 1]) + [s[|s| - 1]]
  }

  /** The reference keeps every title once. */
  lemma {:induction false} FirstSeenTitles(s: seq<Game>)
    ensures DistinctTitles(FirstSeen(s))
    ensures Titles(FirstSeen(s)) == Titles(s)
    decreases |s|
  {
    if |s| > 0 {
      var init, last := s[..|s| - 1], s[|s| - 1];
      assert s == init + [last];
      FirstSeenTitles(init);
      TitlesSnoc(init, last);
      if !TitleIn(last.title, init) {
        TitlesSnoc(FirstSeen(init), last);
        assert last.title !in Titles(init);
      }
    }
  }

  /** A row survives iff it is the first with its title: the first seen wins and
      every later row with the same title is dropped. */
  lemma {:induction false} FirstSeenKeepsFirstOfEachTitle(s: seq<Game>)
    ensures forall g :: g in FirstSeen(s) <==> exists i :: 0 <= i < |s| && s[i] == g && FirstOfTitle(s, i)
    decreases |s|
  {
    if |s| > 0 {
      var n := |s| - 1;
      var init, last := s[..n], s[n];
      FirstSeenKeepsFirstOfEachTitle(init);
      assert forall i :: 0 <= i < n ==> (FirstOfTitle(s, i) <==> FirstOfTitle(init, i));
      assert FirstOfTitle(s, n) <==> !TitleIn(last.title, init);
      forall g | g in FirstSeen(s)
        ensures exists i :: 0 <= i < |s| && s[i] == g && FirstOfTitle(s, i)
      {
        if g in FirstSeen(init) {
          var i :| 0 <= i < n && init[i] == g && FirstOfTitle(init, i);
          assert s[i] == g && FirstOfTitle(s, i);
        } else {
          assert g == last && FirstOfTitle(s, n);
        }
      }
      forall g | exists i :: 0 <= i < |s| && s[i] == g && FirstOfTitle(s, i)
        ensures g in FirstSeen(s)
      {
        var i :| 0 <= i < |s| && s[i] == g && FirstOfTitle(s, i);
        if i < n {
          assert init[i] == g && FirstOfTitle(init, i);
        }
      }
    }
  }

  /** The loop over accepted games computes the reference: checking the accepted
      list is the same as checking all earlier rows. */
  lemma {:induction false} AcceptFromFirstSeen(p: seq<Game>, q: seq<Game>)
    ensures AcceptFrom(FirstSeen(p), q) == FirstSeen(p + q)
    decreases |q|
  {
    if |q| == 0 {
      assert p + q == p;
    } else {
      var x := q[0];
      FirstSeenTitles(p);
      assert (p + [x])[..|p|] == p && (p + [x])[|p|] == x;
      assert ExistsIn(x, FirstSeen(p)) <==> x.title in Titles(FirstSeen(p));
      assert TitleIn(x.title, p) <==> x.title in Titles(p);
      assert FirstSeen(p + [x]) == if ExistsIn(x, FirstSeen(p)) then FirstSeen(p) else FirstSeen(p) + [x];
      AcceptFromFirstSeen(p + [x], q[1..]);
      assert (p + [x]) + q[1..] == p + q;
    }
  }

  lemma AcceptIsFirstSeen(s: seq<Game>)
    ensures Accept(s) == FirstSeen(s)
  {
    AcceptFromFirstSeen([], s);
    assert [] + s == s;
  }

  // ---- sort by title ----

  /** Strictly ascending by title in Go's bytewise string order. */
  predicate SortedByTitle(s: seq<Game>) {
    forall i, j :: 0 <= i < j < |s| ==> Less(s[i].title, s[j].title)
  }

  /** A game below every title of a sorted list can head it. */
  lemma ConsSorted(x: Game, r: seq<Game>)
    requires SortedByTitle(r)
    requires forall j :: 0 <= j < |r| ==> Less(x.title, r[j].title)
    ensures SortedByTitle([x] + r)
  {
    var s := [x] + r;
    forall i, j | 0 <= i < j < |s| ensures Less(s[i].title, s[j].title) {
      assert s[j] == r[j - 1];
      if i > 0 {
        assert s[i] == r[i - 1];
      }
    }
  }

  /** A bound on the titles of `s` and on `g` bounds every title of a permutation
      of `s` plus `g`. */
  lemma BelowPermutation(x: Game, g: Game, s: seq<Game>, r: seq<Game>)
    requires Less(x.title, g.title)
    requires forall j :: 0 <= j < |s| ==> Less(x.title, s[j].title)
    requires multiset(r) == multiset(s) + multiset{g}
    ensures forall j :: 0 <= j < |r| ==> Less(x.title, r[j].title)
  {
    forall j | 0 <= j < |r| ensures Less(x.title, r[j].title) {
      assert r[j] in multiset(r);
      if r[j] != g {
        assert r[j] in multiset(s);
        var k :| 0 <= k < |s| && s[k] == r[j];
      }
    }
  }

  function InsertByTitle(g: Game, s: seq<Game>): (r: seq<Game>)
    requires SortedByTitle(s) && !TitleIn(g.title, s)
    ensures SortedByTitle(r)
    ensures multiset(r) == multiset(s) + multiset{g}
  {
    if |s| == 0 then [g]
    else if Less(g.title, s[0].title) then
      assert forall j :: 0 <= j < |s| ==> Less(g.title, s[j].title) by {
        forall j | 0 < j < |s| ensures Less(g.title, s[j].title) {
          LessTransitive(g.title, s[0].title, s[j].title);
        }
      }
      ConsSorted(g, s);
      [g] + s
    else
      assert s[0].title != g.title;
      LessTotal(g.title, s[0].title);
      assert s == [s[0]] + s[1..];
      var r' := InsertByTitle(g, s[1..]);
      BelowPermutation(s[0], g, s[1..], r');
      ConsSorted(s[0], r');
      [s[0]] + r'
  }

  /** Go's `sort.Slice` by title; any sort gives this result, see
      `SortedPermutationUnique`. */
  function SortByTitle(s: seq<Game>): (r: seq<Game>)
    requires DistinctTitles(s)
    ensures SortedByTitle(r)
    ensures multiset(r) == multiset(s)
  {
    if |s| == 0 then []
    else
      assert DistinctTitles(s[1..]);
      var rest := SortByTitle(s[1..]);
      HeadTitleNotInPermutedTail(s, rest);
      assert s == [s[0]] + s[1..];
      InsertByTitle(s[0], rest)
  }

  lemma HeadTitleNotInPermutedTail(s: seq<Game>, rest: seq<Game>)
    requires |s| > 0 && DistinctTitles(s) && multiset(rest) == multiset(s[1..])
    ensures !TitleIn(s[0].title, rest)
  {
    forall i | 0 <= i < |rest| ensures rest[i].title != s[0].title {
      assert rest[i] in multiset(s[1..]);
      var j :| 0 <= j < |s[1..]| && s[1..][j] == rest[i];
      assert s[j + 1] == rest[i];
    }
  }

  /** Two sorted permutations of each other agree on length and head. */
  lemma SortedHeadsEqual(a: seq<Game>, b: seq<Game>)
    requires SortedByTitle(a) && SortedByTitle(b) && multiset(a) == multiset(b) && |a| > 0
    ensures |b| == |a| && a[0] == b[0]
  {
    assert |multiset(a)| == |a| && |multiset(b)| == |b|;
    assert a[0] in multiset(b);
    assert b[0] in multiset(a);
    var j :| 0 <= j < |b| && b[j] == a[0];
    var k :| 0 <= k < |a| && a[k] == b[0];
    LessAsymmetric(a[0].title, b[0].title);
    assert j == 0 || k == 0;
  }

  /** With distinct titles there is exactly one strictly sorted order, so the
      unstable sort of the source is deterministic. */
  lemma {:induction false} SortedPermutationUnique(a: seq<Game>, b: seq<Game>)
    requires SortedByTitle(a) && SortedByTitle(b) && multiset(a) == multiset(b)
    ensures a == b
    decreases |a|
  {
    if |a| > 0 {
      SortedHeadsEqual(a, b);
      assert a == [a[0]] + a[1..] && b == [b[0]] + b[1..];
      assert multiset(a[1..]) == multiset(a) - multiset{a[0]};
      assert multiset(b[1..]) == multiset(b) - multiset{b[0]};
      SortedPermutationUnique(a[1..], b[1..]);
    } else {
      assert |multiset(b)| == |b|;
    }
  }

  // ---- the whole of listGames after the query ----

  /** `listGames`: dispatch, normalise, drop later duplicates, sort, check the count. */
  function ListGames(tagName: string, db: Query -> Option<seq<Row>>): (r: Result<Catalog, Fatal>)
    ensures r == Failure(QueryFailed) <==> db(SelectQuery(tagName)).None?
    ensures r == Failure(TitleWithoutColon) <==>
              db(SelectQuery(tagName)).Some? && SanitizeRows(db(SelectQuery(tagName)).value).None?
    ensures r == Failure(NoGamesFound) <==> db(SelectQuery(tagName)) == Some([])
    ensures (r.Failure? && r.error.TooManyTiles?) <==>
              && db(SelectQuery(tagName)).Some?
              && SanitizeRows(db(SelectQuery(tagName)).value).Some?
              && |Titles(SanitizeRows(db(SelectQuery(tagName)).value).value)| > HardLimit
    ensures r.Success? ==>
              var games := SanitizeRows(db(SelectQuery(tagName)).value).value;
              && SortedByTitle(r.value.games)
              && DistinctTitles(r.value.games)
              && Titles(r.value.games) == Titles(games)
              && multiset(r.value.games) == multiset(FirstSeen(games))
              && 1 <= |r.value.games| <= HardLimit
              && (r.value.warnTooMany <==> |r.value.games| > SoftLimit)
  {
    match db(SelectQuery(tagName))
    case None => Failure(QueryFailed)
    case Some(rows) =>
      match SanitizeRows(rows)
      case None => Failure(TitleWithoutColon)
      case Some(games) =>
        AcceptIsFirstSeen(games);
        FirstSeenTitles(games);
        var accepted := Accept(games);
        DistinctTitlesCount(accepted);
        var sorted := SortByTitle(accepted);
        assert |sorted| == |accepted| by {
          assert |multiset(sorted)| == |sorted| && |multiset(accepted)| == |accepted|;
        }
        SortedDistinct(sorted);
        SameMultisetSameTitles(sorted, accepted);
        assert |Titles(games)| == 0 <==> rows == [] by {
          if |rows| > 0 {
            assert games[0].title in Titles(games);
          }
        }
        var n := |sorted|;
        if n == 0 then Failure(NoGamesFound)
        else if n > HardLimit then Failure(TooManyTiles(n))
        else Success(Catalog(sorted, n > SoftLimit))
  }

  lemma SortedDistinct(s: seq<Game>)
    requires SortedByTitle(s)
    ensures DistinctTitles(s)
  {
    forall i, j | 0 <= i < j < |s| ensures s[i].title != s[j].title {
      LessIrreflexive(s[i].title);
    }
  }

  lemma SameMultisetSameTitles(a: seq<Game>, b: seq<Game>)
    requires multiset(a) == multiset(b)
    ensures Titles(a) == Titles(b)
  {
    forall t | t in Titles(a) ensures t in Titles(b) {
      var i :| 0 <= i < |a| && a[i].title == t;
      assert a[i] in multiset(b);
      var j :| 0 <= j < |b| && b[j] == a[i];
    }
    forall t | t in Titles(b) ensures t in Titles(a) {
      var i :| 0 <= i < |b| && b[i].title == t;
      assert b[i] in multiset(a);
      var j :| 0 <= j < |a| && a[j] == b[i];
    }
  }
}
