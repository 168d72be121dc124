/** One game as the tile generator sees it, and its normalisation (`Game`,
    `Sanitize`, `ExistsIn`; identical in the two revisions that have a `Game` type,
    except that one passes the allow-list in and the other uses a package-level one). */
module Games {
  import opened Wrappers
  import opened Text
  import opened Sanitizer

  /** `FileName` is derived from `ReleaseKey`; the other three come from a query row. */
  datatype Game = Game(fileName: string, title: string, releaseKey: string, iconFileName: string)

  /** The store lists icons in the `.webp` format; they are cached locally as `.png`. */
  function NormalizeIcon(name: string): string {
    ReplaceAll(name, ".webp", ".png")
  }

  /** `Game.Sanitize`: `None` is the panic on a title without a colon. */
  function Sanitize(g: Game, a: AllowList): (r: Option<Game>)
    ensures r.None? <==> ':' !in g.title
    ensures r.Some? ==> r.value.releaseKey == g.releaseKey
    ensures r.Some? ==> r.value.fileName == Filter(a, g.releaseKey)
    ensures r.Some? ==> AllAllowed(a, r.value.title) && ':' !in r.value.title
    ensures r.Some? ==> r.value.iconFileName == NormalizeIcon(g.iconFileName)
  {
    match AfterFirst(g.title, ':')
    case None => None
    case Some(rest) =>
      Some(Game(Filter(a, g.releaseKey), Filter(a, rest), g.releaseKey, NormalizeIcon(g.iconFileName)))
  }

  /** The title is the filtered text after the FIRST colon; later colons are dropped
      by the filter and the text between and after them is kept. */
  lemma SanitizedTitleAfterFirstColon(g: Game, a: AllowList, pre: string, rest: string)
    requires ':' !in pre && g.title == pre + ":" + rest
    ensures Sanitize(g, a).Some?
    ensures Sanitize(g, a).value.title == Filter(a, rest)
  {
    IndexOfAfterPrefix(pre, ':', rest);
    assert g.title[|pre| + 1..] == rest;
  }

  /** `ExistsIn`: true iff some listed game has the same title, found by a scan
      that stops at the first match. */
  function ExistsIn(g: Game, games: seq<Game>): (found: bool)
    ensures found <==> exists i :: 0 <= i < |games| && games[i].title == g.title
  {
    if |games| == 0 then false
    else if g.title == games[0].title then true
    else ExistsIn(g, games[1..])
  }

  /** Only titles are compared: two games with different release keys, file names or
      icons collide as soon as their titles agree. */
  lemma ExistsInComparesTitlesOnly(g: Game, h: Game, games: seq<Game>)
    requires g.title == h.title
    ensures ExistsIn(g, games) == ExistsIn(h, games)
    ensures ExistsIn(g, games + [h])
  {
    assert (games + [h])[|games|] == h;
  }

  // ---- the `.webp` to `.png` rewrite ----

  /** A rewritten name only starts with a character other than '.' where the
      original did, and the rest is rewritten independently. */
  lemma NormalizeIconHead(t: string)
    requires |NormalizeIcon(t)| > 0 && NormalizeIcon(t)[0] != '.'
    ensures |t| > 0 && t[0] == NormalizeIcon(t)[0]
    ensures NormalizeIcon(t)[1..] == NormalizeIcon(t[1..])
  {
    if |t| < 5 {
      assert NormalizeIcon(t[1..]) == t[1..];
    }
  }

  /** A '.'-free prefix of the rewritten name is a prefix of the original. */
  lemma {:induction false} NormalizeIconPrefix(t: string, w: string)
    requires '.' !in w && |w| <= |NormalizeIcon(t)| && NormalizeIcon(t)[..|w|] == w
    ensures |w| <= |t| && t[..|w|] == w
    decreases |w|
  {
    if |w| > 0 {
      assert NormalizeIcon(t)[0] == w[0];
      NormalizeIconHead(t);
      assert NormalizeIcon(t[1..])[..|w| - 1] == w[1..];
      NormalizeIconPrefix(t[1..], w[1..]);
      assert t == [t[0]] + t[1..];
    }
  }

  /** An occurrence of ".webp" after an inserted ".png" lies wholly in the rest. */
  lemma OccurrenceAfterPng(rest: string, i: int)
    requires OccursAt(".png" + rest, ".webp", i)
    ensures i >= 4 && OccursAt(rest, ".webp", i - 4)
  {
    var r := ".png" + rest;
    assert r[i..i + 5][0] == r[i] && r[i..i + 5][1] == r[i + 1];
    assert r[i..i + 5] == rest[i - 4..i + 1];
  }

  /** An occurrence at the very start of a name whose first character was kept
      was already an occurrence at the start of the original name. */
  lemma OccurrenceAtKeptHead(s: string)
    requires |s| >= 5 && OccursAt([s[0]] + NormalizeIcon(s[1..]), ".webp", 0)
    ensures s[..5] == ".webp"
  {
    var rest := NormalizeIcon(s[1..]);
    var r := [s[0]] + rest;
    assert r[..5] == ".webp";
    assert rest[..4] == r[1..5];
    assert ".webp"[1..5] == "webp";
    NormalizeIconPrefix(s[1..], "webp");
    assert s[..5] == [s[0]] + s[1..][..4];
  }

  /** No ".webp" survives the rewrite, whatever the name. */
  lemma {:induction false} NormalizeIconRemovesWebp(s: string)
    ensures !Contains(NormalizeIcon(s), ".webp")
    decreases |s|
  {
    var r := NormalizeIcon(s);
    if |s| >= 5 && s[..5] == ".webp" {
      var rest := NormalizeIcon(s[5..]);
      assert r == ".png" + rest;
      forall i | 0 <= i <= |r| ensures !OccursAt(r, ".webp", i) {
        if OccursAt(r, ".webp", i) {
          OccurrenceAfterPng(rest, i);
          NormalizeIconRemovesWebp(s[5..]);
          assert false;
        }
      }
    } else if |s| >= 5 {
      var rest := NormalizeIcon(s[1..]);
      assert r == [s[0]] + rest;
      forall i | 0 <= i <= |r| ensures !OccursAt(r, ".webp", i) {
        if OccursAt(r, ".webp", i) {
          if i == 0 {
            OccurrenceAtKeptHead(s);
            assert false;
          } else {
            assert r[i..i + 5] == rest[i - 1..i + 4];
            assert OccursAt(rest, ".webp", i - 1);
            NormalizeIconRemovesWebp(s[1..]);
            assert false;
          }
        }
      }
    }
  }

  /** A name without ".webp" is returned unchanged. */
  lemma NormalizeIconKeepsOtherNames(s: string)
    requires !Contains(s, ".webp")
    ensures NormalizeIcon(s) == s
  {
    ReplaceAllWithoutPattern(s, ".webp", ".png");
  }

  /** The usual case: a trailing ".webp" becomes ".png". */
  lemma {:induction false} NormalizeIconWebpSuffix(x: string)
    ensures NormalizeIcon(x + ".webp") == NormalizeIcon(x) + ".png"
    decreases |x|
  {
    var s := x + ".webp";
    if |x| == 0 {
      assert s[5..] == [];
    } else if |x| < 5 {
      // The '.' of the suffix sits inside the first five characters but not first.
      assert s[..5][|x|] == '.';
      assert s[..5] != ".webp";
      assert s[1..] == x[1..] + ".webp";
      NormalizeIconWebpSuffix(x[1..]);
      assert NormalizeIcon(x[1..]) == x[1..];
      assert x == [x[0]] + x[1..];
    } else {
      assert x[..5] == s[..5];
      assert s[1..] == x[1..] + ".webp";
      assert s[5..] == x[5..] + ".webp";
      if x[..5] == ".webp" {
        NormalizeIconWebpSuffix(x[5..]);
      } else {
        NormalizeIconWebpSuffix(x[1..]);
      }
    }
  }
}
