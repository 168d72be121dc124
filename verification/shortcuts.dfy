/** The side of `createStartMenu` that is not the layout: the two files written per
    game, the icon downloads and shortcut creations batched into PowerShell runs. */
module Shortcuts {
  import opened Games
  import opened Layout

  /** The two files written for a game, named by its file name: the launch script
      (`<fileName>.bat`, running the game by release key) and the tile manifest
      (`<fileName>.VisualElementsManifest.xml`, showing the name or not). */
  datatype FileWrite =
    | LaunchScript(fileName: string, releaseKey: string)
    | Manifest(fileName: string, nameOnLogo: string)

  /** One line of a PowerShell batch: fetch the store icon into
      `VisualElements\MediumIcon<fileName>.png`, or create `<title>.lnk` pointing at
      `<fileName>.bat`. */
  datatype Command =
    | DownloadIcon(iconFileName: string, fileName: string)
    | CreateShortcut(title: string, fileName: string)

  /** What the loop produces: the files in write order and the two batches. */
  datatype Plan = Plan(files: seq<FileWrite>, downloads: seq<Command>, shortcuts: seq<Command>)

  /** The manifest attribute: "off" when names are hidden, "on" otherwise. */
  function NameOnLogo(hideName: bool): string {
    if hideName then "off" else "on"
  }

  /** `icons` holds the file names whose cached icon exists; an icon is fetched when
      it is missing or when `force` is set. */
  predicate NeedsIcon(g: Game, icons: set<string>, force: bool) {
    g.fileName !in icons || force
  }

  /** Reference definition of the download batch: one download per game that needs
      its icon, in game order. */
  function IconDownloads(games: seq<Game>, icons: set<string>, force: bool): (r: seq<Command>)
    ensures |r| <= |games|
    ensures forall c :: c in r ==> c.DownloadIcon?
  {
    if |games| == 0 then []
    else
      var g := games[|games| - 1];
      IconDownloads(games[..|games| - 1], icons, force)
        + (if NeedsIcon(g, icons, force) then [DownloadIcon(g.iconFileName, g.fileName)] else [])
  }

  /** A download is planned for a game iff it needs its icon. */
  lemma {:induction false} IconDownloadsMembers(games: seq<Game>, icons: set<string>, force: bool)
    ensures forall c :: c in IconDownloads(games, icons, force) <==>
              exists i :: 0 <= i < |games| && NeedsIcon(games[i], icons, force)
                            && c == DownloadIcon(games[i].iconFileName, games[i].fileName)
  {
    if |games| > 0 {
      var init := games[..|games| - 1];
      var g := games[|games| - 1];
      IconDownloadsMembers(init, icons, force);
      forall c ensures c in IconDownloads(games, icons, force) <==>
                 exists i :: 0 <= i < |games| && NeedsIcon(games[i], icons, force)
                               && c == DownloadIcon(games[i].iconFileName, games[i].fileName)
      {
        if c in IconDownloads(init, icons, force) {
          var i :| 0 <= i < |init| && NeedsIcon(init[i], icons, force)
                   && c == DownloadIcon(init[i].iconFileName, init[i].fileName);
          assert games[i] == init[i];
        }
        if exists i :: 0 <= i < |games| && NeedsIcon(games[i], icons, force)
                         && c == DownloadIcon(games[i].iconFileName, games[i].fileName) {
          var i :| 0 <= i < |games| && NeedsIcon(games[i], icons, force)
                   && c == DownloadIcon(games[i].iconFileName, games[i].fileName);
          if i < |init| {
            assert init[i] == games[i];
          }
        }
      }
    }
  }

  /** With `force`, every game's icon is fetched, in game order. */
  lemma {:induction false} ForcedDownloadsAll(games: seq<Game>, icons: set<string>)
    ensures var r := IconDownloads(games, icons, true);
            |r| == |games| && forall i :: 0 <= i < |games| ==> r[i] == DownloadIcon(games[i].iconFileName, games[i].fileName)
  {
    if |games| > 0 {
      ForcedDownloadsAll(games[..|games| - 1], icons);
    }
  }

  /** The file names whose icons a download batch fetches. */
  function Fetched(downloads: seq<Command>): set<string> {
    set c | c in downloads :: c.fileName
  }

  /** Without `force`, nothing is fetched when every icon is present. */
  lemma {:induction false} NothingMissing(games: seq<Game>, icons: set<string>)
    requires forall i :: 0 <= i < |games| ==> games[i].fileName in icons
    ensures IconDownloads(games, icons, false) == []
  {
    if |games| > 0 {
      NothingMissing(games[..|games| - 1], icons);
    }
  }

  /** After the downloads have run, a second run without `force` fetches nothing. */
  lemma RerunFetchesNothing(games: seq<Game>, icons: set<string>, force: bool)
    ensures IconDownloads(games, icons + Fetched(IconDownloads(games, icons, force)), false) == []
  {
    var icons' := icons + Fetched(IconDownloads(games, icons, force));
    IconDownloadsMembers(games, icons, force);
    forall i | 0 <= i < |games| ensures games[i].fileName in icons' {
      if games[i].fileName !in icons {
        assert DownloadIcon(games[i].iconFileName, games[i].fileName) in IconDownloads(games, icons, force);
      }
    }
    NothingMissing(games, icons');
  }

  /** The two files of game `i` sit at positions `2i` and `2i+1`. */
  ghost predicate FilesFor(files: seq<FileWrite>, games: seq<Game>, n: nat, hideName: bool)
    requires n <= |games| && |files| == 2 * n
  {
    forall j :: 0 <= j < n ==>
      && files[2 * j] == LaunchScript(games[j].fileName, games[j].releaseKey)
      && files[2 * j + 1] == Manifest(games[j].fileName, NameOnLogo(hideName))
  }

  lemma FilesForStep(files: seq<FileWrite>, games: seq<Game>, n: nat, hideName: bool)
    requires n < |games| && |files| == 2 * n && FilesFor(files, games, n, hideName)
    ensures FilesFor(files + [LaunchScript(games[n].fileName, games[n].releaseKey), Manifest(games[n].fileName, NameOnLogo(hideName))], games, n + 1, hideName)
  {
    var files' := files + [LaunchScript(games[n].fileName, games[n].releaseKey), Manifest(games[n].fileName, NameOnLogo(hideName))];
    forall j | 0 <= j < n + 1
      ensures && files'[2 * j] == LaunchScript(games[j].fileName, games[j].releaseKey)
              && files'[2 * j + 1] == Manifest(games[j].fileName, NameOnLogo(hideName))
    {
      if j < n {
        assert files'[2 * j] == files[2 * j] && files'[2 * j + 1] == files[2 * j + 1];
      }
    }
  }

  lemma DownloadsStep(games: seq<Game>, n: nat, icons: set<string>, force: bool)
    requires n < |games|
    ensures IconDownloads(games[..n + 1], icons, force)
            == IconDownloads(games[..n], icons, force)
               + (if NeedsIcon(games[n], icons, force) then [DownloadIcon(games[n].iconFileName, games[n].fileName)] else [])
  {
    assert games[..n + 1][..n] == games[..n];
  }

  /** `createStartMenu`'s per-game loop, without the layout: the two files, a
      download when the icon is needed, and one shortcut per game. */
  method PlanShortcuts(games: seq<Game>, icons: set<string>, force: bool, hideName: bool) returns (p: Plan)
    ensures |p.files| == 2 * |games|
    ensures forall i :: 0 <= i < |games| ==>
              && p.files[2 * i] == LaunchScript(games[i].fileName, games[i].releaseKey)
              && p.files[2 * i + 1] == Manifest(games[i].fileName, NameOnLogo(hideName))
    ensures p.downloads == IconDownloads(games, icons, force)
    ensures |p.shortcuts| == |games|
    ensures forall i :: 0 <= i < |games| ==> p.shortcuts[i] == CreateShortcut(games[i].title, games[i].fileName)
  {
    var files: seq<FileWrite> := [];
    var downloads: seq<Command> := [];
    var shortcuts: seq<Command> := [];
    var i := 0;
    while i < |games|
      invariant 0 <= i <= |games|
      invariant |files| == 2 * i && FilesFor(files, games, i, hideName)
      invariant downloads == IconDownloads(games[..i], icons, force)
      invariant |shortcuts| == i
      invariant forall j :: 0 <= j < i ==> shortcuts[j] == CreateShortcut(games[j].title, games[j].fileName)
    {
      var g := games[i];
      FilesForStep(files, games, i, hideName);
      files := files + [LaunchScript(g.fileName, g.releaseKey), Manifest(g.fileName, NameOnLogo(hideName))];
      DownloadsStep(games, i, icons, force);
      if NeedsIcon(g, icons, force) {
        downloads := downloads + [DownloadIcon(g.iconFileName, g.fileName)];
      }
      shortcuts := shortcuts + [CreateShortcut(g.title, g.fileName)];
      i := i + 1;
    }
    assert games[..i] == games;
    p := Plan(files, downloads, shortcuts);
  }

  /** The PowerShell runs, in order: the download batch only when it has a line,
      then the shortcut batch, always. */
  function Invocations(p: Plan): (runs: seq<seq<Command>>)
    ensures 1 <= |runs| <= 2
    ensures runs[|runs| - 1] == p.shortcuts
    ensures |runs| == 2 <==> |p.downloads| > 0
    ensures |runs| == 2 ==> runs[0] == p.downloads
  {
    (if |p.downloads| > 0 then [p.downloads] else []) + [p.shortcuts]
  }

  /** The titles of the games, in order: the links of the layout's tiles. */
  function TitleList(games: seq<Game>): (ts: seq<string>)
    ensures |ts| == |games|
    ensures forall i :: 0 <= i < |games| ==> ts[i] == games[i].title
  {
    seq(|games|, i requires 0 <= i < |games| => games[i].title)
  }

  /** `createStartMenu` as a whole: tile `i`'s link and shortcut `i` carry game
      `i`'s title. The folders are not modelled: the link's folder is fixed, the
      shortcut's is the start-folder flag. */
  method CreateStartMenu(cfg: Config, groupName: string, games: seq<Game>, icons: set<string>, force: bool, hideName: bool)
    returns (doc: seq<Group>, p: Plan)
    requires ValidFlags(cfg)
    ensures |Flatten(doc)| == |p.shortcuts| == |games|
    ensures forall i :: 0 <= i < |games| ==>
              && Flatten(doc)[i].link == games[i].title
              && p.shortcuts[i] == CreateShortcut(Flatten(doc)[i].link, games[i].fileName)
    ensures Capacity(cfg) >= 1 && |games| > 0 ==>
              |doc| == (|games| + Capacity(cfg) - 1) / Capacity(cfg)
    ensures p.downloads == IconDownloads(games, icons, force)
  {
    doc := Pack(cfg, groupName, TitleList(games));
    p := PlanShortcuts(games, icons, force, hideName);
  }
}
