/** The application links generator: it parses `name=url=active` lines
    into link records, splits the records by their active flag, and lays
    the records out as link tiles on a start page.

    The page is modelled abstractly: a sequence of tiles (name, shown
    URL, clickable or not) or the "no applications" placeholder, the two
    counts the page reports, and the timestamp of its footer. */
module AppLinks {
  import opened PyStr
  import opened Collections

  /** One application entry of the properties file. */
  datatype AppLink = AppLink(name: string, url: string, active: bool)

  /** One tile of the page. A clickable tile is an active application:
      clicking it calls openApp(url, name). */
  datatype Block = Block(name: string, url: string, clickable: bool)

  /** The content of the page's grid: the tiles, or the placeholder
      message when there is no application at all. */
  datatype Grid = Links(blocks: seq<Block>) | NoApps

  /** The generated page: its grid, the two counts it logs, and the
      "last updated" timestamp of its footer. */
  datatype Page = Page(grid: Grid, activeCount: nat, inactiveCount: nat, lastUpdated: string)

  const Separator := '='
  const CommentMarker := '#'
  const StaticReport := "/static_report.html"
  const StaticReportRelative := "./static_report.html"

  // ---------------------------------------------------------------------
  // Parsing one line

  /** A line that is neither blank nor a comment once stripped. */
  predicate IsSignificant(line: string) {
    var t := Strip(line);
    t != [] && t[0] != CommentMarker
  }

  /** `active.lower() == 'true'`: the flag is set exactly by the four
      letters t, r, u, e in any mix of cases, and by nothing else. */
  function IsTrueFlag(field: string): (b: bool)
    ensures b <==> && |field| == 4
                   && (field[0] == 't' || field[0] == 'T') && (field[1] == 'r' || field[1] == 'R')
                   && (field[2] == 'u' || field[2] == 'U') && (field[3] == 'e' || field[3] == 'E')
  {
    var lowered := Lower(field);
    assert lowered == "true" <==> |field| == 4 && forall i :: 0 <= i < 4 ==> lowered[i] == "true"[i];
    Lower(field) == "true"
  }

  /** The body of the parsing loop for one line. */
  function ParseLine(line: string): Option<AppLink> {
    var t := Strip(line);
    if t == [] || t[0] == CommentMarker then None
    else
      var parts := Split(t, Separator);
      if |parts| != 3 then None
      else
        var name, url, active := parts[0], parts[1], parts[2];
        Some(AppLink(Strip(name), Strip(url), IsTrueFlag(active)))
  }

  /** A line yields a record exactly when, once stripped, it is neither
      blank nor a comment and holds exactly two separators; every other
      line is skipped. */
  lemma ParseLineAccepts(line: string)
    ensures ParseLine(line).Some? <==> IsSignificant(line) && Count(Strip(line), Separator) == 2
  {
  }

  /** A significant line `name=url=flag` gives the record whose name and
      URL are the first two fields trimmed, and whose flag comes from the
      third field as it stands (only the end of the whole line is
      trimmed, so leading blanks in the third field are kept). */
  lemma ParseLineFields(line: string, name: string, url: string, flag: string)
    requires Separator !in name && Separator !in url && Separator !in flag
    requires Strip(line) == name + [Separator] + url + [Separator] + flag
    requires name == [] || name[0] != CommentMarker
    ensures ParseLine(line) == Some(AppLink(Strip(name), Strip(url), IsTrueFlag(flag)))
  {
    SplitFields(name, url, flag);
    var t := Strip(line);
    assert t != [] && t[0] != CommentMarker by {
      if name == [] {
        assert t[0] == Separator;
      } else {
        assert t[0] == name[0];
      }
    }
  }

  lemma SplitFields(name: string, url: string, flag: string)
    requires Separator !in name && Separator !in url && Separator !in flag
    ensures Split(name + [Separator] + url + [Separator] + flag, Separator) == [name, url, flag]
  {
    var fields := [name, url, flag];
    assert Join(fields[2..], Separator) == flag;
    assert Join(fields[1..], Separator) == url + [Separator] + flag;
    assert Join(fields, Separator) == name + [Separator] + url + [Separator] + flag;
    SplitJoin(fields, Separator);
  }

  /** The spellings of the flag: `true` in any case is active; a blank
      before it, another word, or nothing at all is inactive. */
  lemma FlagSpellings()
    ensures IsTrueFlag("true") && IsTrueFlag("True") && IsTrueFlag("TRUE")
    ensures !IsTrueFlag(" true") && !IsTrueFlag("yes") && !IsTrueFlag("")
  {
  }

  /** A line of whitespace only, a line feed included, is skipped. */
  lemma BlankLineSkipped(line: string)
    requires AllSpace(line)
    ensures ParseLine(line) == None
  {
    assert line == line + [] + [];
    StripPadded(line, [], []);
  }

  /** A line whose first non-blank character is `#` is skipped, whatever
      follows: a commented-out entry stays out. */
  lemma CommentLineSkipped(indent: string, rest: string)
    requires AllSpace(indent)
    ensures ParseLine(indent + [CommentMarker] + rest) == None
  {
    var body := [CommentMarker] + rest;
    assert indent + [CommentMarker] + rest == indent + body;
    StripLeftSpaces(indent, body);
    assert StripLeft(body) == body by {
      assert body[0] == CommentMarker;
    }
    var t := Strip(indent + body);
    assert t == StripRight(body);
    assert !IsSpace(body[0]);
    assert t != [];
    assert t[0] == CommentMarker;
  }

  // ---------------------------------------------------------------------
  // Parsing a file

  /** The records of all lines, in line order: what the parsing loop
      leaves in the generator's list. */
  function ParseAll(lines: seq<string>): seq<AppLink> {
    Collect(ParseLine, lines)
  }

  /** There is one record per line that yields one, and the k-th record
      comes from the k-th such line (Positions lists exactly the lines
      that yield a record, in increasing order): the count is the number
      of accepted lines and the input order is kept. */
  lemma ParseAllOrigins(lines: seq<string>)
    ensures |ParseAll(lines)| == |Positions(ParseLine, lines)|
    ensures forall k :: 0 <= k < |Positions(ParseLine, lines)| ==>
      ParseLine(lines[Positions(ParseLine, lines)[k]]) == Some(ParseAll(lines)[k])
  {
    CollectAtPositions(ParseLine, lines);
  }

  /** Parsing works line by line: the records of two consecutive pieces
      of a file are the records of the first followed by those of the
      second. */
  lemma ParseAllAppend(a: seq<string>, b: seq<string>)
    ensures ParseAll(a + b) == ParseAll(a) + ParseAll(b)
  {
    CollectAppend(ParseLine, a, b);
  }

  /** A blank, comment or malformed line contributes nothing, and the
      lines after it are still parsed. */
  lemma SkippedLine(before: seq<string>, line: string, after: seq<string>)
    requires ParseLine(line).None?
    ensures ParseAll(before + [line] + after) == ParseAll(before) + ParseAll(after)
  {
    CollectSkips(ParseLine, before, line, after);
  }

  // ---------------------------------------------------------------------
  // Splitting by status

  /** The records whose flag equals `active`, in their original order:
      the two list comprehensions of the renderer. */
  function WithStatus(apps: seq<AppLink>, active: bool): (r: seq<AppLink>)
    ensures |r| <= |apps|
    ensures forall k :: 0 <= k < |r| ==> r[k].active == active
  {
    if apps == [] then []
    else
      var n := |apps| - 1;
      var init := WithStatus(apps[..n], active);
      if apps[n].active == active then init + [apps[n]] else init
  }

  /** `s` is `t` with some elements deleted: the elements of `s` occur
      in `t` in the same relative order. */
  ghost predicate IsSubsequence<T>(s: seq<T>, t: seq<T>) {
    if s == [] then true
    else if t == [] then false
    else if s[|s| - 1] == t[|t| - 1] then IsSubsequence(s[..|s| - 1], t[..|t| - 1])
    else IsSubsequence(s, t[..|t| - 1])
  }

  /** Every record lands in exactly one of the two lists. */
  lemma {:induction false} PartitionExact(apps: seq<AppLink>)
    ensures |WithStatus(apps, true)| + |WithStatus(apps, false)| == |apps|
    ensures multiset(WithStatus(apps, true)) + multiset(WithStatus(apps, false)) == multiset(apps)
  {
    if apps != [] {
      var n := |apps| - 1;
      PartitionExact(apps[..n]);
      assert apps == apps[..n] + [apps[n]];
    }
  }

  /** Each of the two lists keeps the original relative order. */
  lemma {:induction false} KeepsOrder(apps: seq<AppLink>, active: bool)
    ensures IsSubsequence(WithStatus(apps, active), apps)
  {
    if apps != [] {
      var n := |apps| - 1;
      var r := WithStatus(apps, active);
      KeepsOrder(apps[..n], active);
      if apps[n].active == active {
        assert r[..|r| - 1] == WithStatus(apps[..n], active);
      } else if r != [] {
        assert r[|r| - 1] != apps[n];
      }
    }
  }

  /** The split distributes over concatenation of record lists. */
  lemma {:induction false} WithStatusAppend(a: seq<AppLink>, b: seq<AppLink>, active: bool)
    ensures WithStatus(a + b, active) == WithStatus(a, active) + WithStatus(b, active)
  {
    if b == [] {
      assert a + b == a;
    } else {
      var n := |b| - 1;
      WithStatusAppend(a, b[..n], active);
      assert (a + b)[..|a + b| - 1] == a + b[..n];
      assert (a + b)[|a + b| - 1] == b[n];
    }
  }

  // ---------------------------------------------------------------------
  // Rendering

  /** The one URL the renderer corrects: the absolute path of the static
      report becomes relative. Every other URL is shown as it is, and no
      tile ever shows the absolute path. */
  function RewriteUrl(url: string): (r: string)
    ensures r != url <==> url == StaticReport
    ensures url == StaticReport ==> r == StaticReportRelative
    ensures r != StaticReport
  {
    if url == StaticReport then StaticReportRelative else url
  }

  lemma RewriteUrlIdempotent(url: string)
    ensures RewriteUrl(RewriteUrl(url)) == RewriteUrl(url)
  {
  }

  /** The tiles of one group of records, in order, built by appending
      one tile per record. */
  function BlocksOf(apps: seq<AppLink>, clickable: bool): (r: seq<Block>)
    ensures |r| == |apps|
  {
    if apps == [] then []
    else
      var n := |apps| - 1;
      BlocksOf(apps[..n], clickable) + [Block(apps[n].name, RewriteUrl(apps[n].url), clickable)]
  }

  /** The k-th tile of a group shows the k-th record's name and its
      rewritten URL. */
  lemma {:induction false} BlocksOfAt(apps: seq<AppLink>, clickable: bool, k: nat)
    requires k < |apps|
    ensures BlocksOf(apps, clickable)[k] == Block(apps[k].name, RewriteUrl(apps[k].url), clickable)
  {
    var n := |apps| - 1;
    if k < n {
      BlocksOfAt(apps[..n], clickable, k);
    }
  }

  /** The page for an active and an inactive list: the active tiles
      first and then the inactive ones, or the placeholder when both
      lists are empty. */
  function Template(activeApps: seq<AppLink>, inactiveApps: seq<AppLink>, timestamp: string): Page {
    var grid :=
      if activeApps != [] || inactiveApps != [] then Links(BlocksOf(activeApps, true) + BlocksOf(inactiveApps, false))
      else NoApps;
    Page(grid, |activeApps|, |inactiveApps|, timestamp)
  }

  /** The page for a list of records. */
  function Render(apps: seq<AppLink>, timestamp: string): Page {
    Template(WithStatus(apps, true), WithStatus(apps, false), timestamp)
  }

  /** Layout of the page for given lists: one tile per record, the
      active ones first and clickable, the inactive ones after and not
      clickable, each with its record's name and rewritten URL. */
  lemma TemplateLayout(activeApps: seq<AppLink>, inactiveApps: seq<AppLink>, timestamp: string)
    ensures Template(activeApps, inactiveApps, timestamp).grid.NoApps? <==> activeApps == [] && inactiveApps == []
    ensures Template(activeApps, inactiveApps, timestamp).grid.Links? ==>
      var bs := Template(activeApps, inactiveApps, timestamp).grid.blocks;
      && |bs| == |activeApps| + |inactiveApps|
      && (forall i :: 0 <= i < |activeApps| ==>
            bs[i] == Block(activeApps[i].name, RewriteUrl(activeApps[i].url), true))
      && (forall j :: 0 <= j < |inactiveApps| ==>
            bs[|activeApps| + j] == Block(inactiveApps[j].name, RewriteUrl(inactiveApps[j].url), false))
  {
    var page := Template(activeApps, inactiveApps, timestamp);
    if page.grid.Links? {
      var bs := page.grid.blocks;
      forall i | 0 <= i < |activeApps|
        ensures bs[i] == Block(activeApps[i].name, RewriteUrl(activeApps[i].url), true)
      {
        BlocksOfAt(activeApps, true, i);
      }
      forall j | 0 <= j < |inactiveApps|
        ensures bs[|activeApps| + j] == Block(inactiveApps[j].name, RewriteUrl(inactiveApps[j].url), false)
      {
        BlocksOfAt(inactiveApps, false, j);
      }
    }
  }

  /** In the page for given lists, the clickable tiles are exactly the
      first |activeApps| ones. */
  lemma TemplateClickable(activeApps: seq<AppLink>, inactiveApps: seq<AppLink>, timestamp: string)
    ensures Template(activeApps, inactiveApps, timestamp).grid.Links? ==>
      var bs := Template(activeApps, inactiveApps, timestamp).grid.blocks;
      forall i :: 0 <= i < |bs| ==> (bs[i].clickable <==> i < |activeApps|)
  {
    var page := Template(activeApps, inactiveApps, timestamp);
    if page.grid.Links? {
      var bs := page.grid.blocks;
      assert bs == BlocksOf(activeApps, true) + BlocksOf(inactiveApps, false);
      forall i | 0 <= i < |bs|
        ensures bs[i].clickable <==> i < |activeApps|
      {
        if i < |activeApps| {
          BlocksOfAt(activeApps, true, i);
        } else {
          BlocksOfAt(inactiveApps, false, i - |activeApps|);
        }
      }
    }
  }

  /** The page for a list of records shows the placeholder exactly when
      there is no record; otherwise it has one tile per record, and a
      tile is clickable exactly when it lies among the first
      (number of active records) tiles, so all active tiles come first. */
  lemma RenderLayout(apps: seq<AppLink>, timestamp: string)
    ensures Render(apps, timestamp).grid.NoApps? <==> apps == []
    ensures Render(apps, timestamp).activeCount + Render(apps, timestamp).inactiveCount == |apps|
    ensures Render(apps, timestamp).grid.Links? ==>
      var bs := Render(apps, timestamp).grid.blocks;
      && |bs| == |apps|
      && forall i :: 0 <= i < |bs| ==> (bs[i].clickable <==> i < |WithStatus(apps, true)|)
  {
    PartitionExact(apps);
    TemplateClickable(WithStatus(apps, true), WithStatus(apps, false), timestamp);
  }

  /** The worked case: an active record and an inactive record pointing
      at the static report. Whichever of the two is listed first, the
      active tile comes first and is the only clickable one, and the
      inactive tile shows the relative path. */
  lemma RenderExample(inactive: AppLink, active: AppLink, timestamp: string)
    requires !inactive.active && inactive.url == StaticReport && active.active
    ensures Render([inactive, active], timestamp)
      == Page(Links([Block(active.name, RewriteUrl(active.url), true), Block(inactive.name, StaticReportRelative, false)]),
              1, 1, timestamp)
    ensures Render([active, inactive], timestamp) == Render([inactive, active], timestamp)
  {
    var apps := [inactive, active];
    assert WithStatus(apps, true) == [active] && WithStatus(apps, false) == [inactive] by {
      assert apps == [inactive] + [active];
      WithStatusAppend([inactive], [active], true);
      WithStatusAppend([inactive], [active], false);
      assert [active][..0] == [] && [inactive][..0] == [];
    }
    assert WithStatus([active, inactive], true) == [active] && WithStatus([active, inactive], false) == [inactive] by {
      assert [active, inactive] == [active] + [inactive];
      WithStatusAppend([active], [inactive], true);
      WithStatusAppend([active], [inactive], false);
      assert [active][..0] == [] && [inactive][..0] == [];
    }
    var tiles := [Block(active.name, RewriteUrl(active.url), true), Block(inactive.name, StaticReportRelative, false)];
    assert BlocksOf([active], true) + BlocksOf([inactive], false) == tiles by {
      assert [active][..0] == [] && [inactive][..0] == [];
    }
  }

  // ---------------------------------------------------------------------
  // The generator

  class AppLinksGenerator {
    var propertiesFile: string
    var outputFile: string
    /** The records of the last successful load, in file order. */
    var apps: seq<AppLink>

    constructor (propertiesFile: string, outputFile: string)
      ensures this.propertiesFile == propertiesFile && this.outputFile == outputFile
      ensures apps == []
    {
      this.propertiesFile := propertiesFile;
      this.outputFile := outputFile;
      apps := [];
    }

    /** Loads the records from the lines of the properties file, or
        fails when the file is missing or unreadable (`contents` is
        None), leaving the records untouched. On success the records are
        rebuilt from nothing, so loading the same lines again yields the
        same records rather than a doubled list. */
    method LoadProperties(contents: Option<seq<string>>) returns (ok: bool)
      modifies this`apps
      ensures ok <==> contents.Some?
      ensures ok ==> apps == ParseAll(contents.value)
      ensures !ok ==> apps == old(apps)
    {
      if contents.None? {
        return false;
      }
      var lines := contents.value;
      apps := [];
      for n := 0 to |lines|
        invariant apps == ParseAll(lines[..n])
      {
        CollectStep(ParseLine, lines, n);
        var line := Strip(lines[n]);
        if line == [] || line[0] == CommentMarker {
          assert ParseLine(lines[n]) == None;
          continue;
        }
        var parts := Split(line, Separator);
        if |parts| != 3 {
          assert ParseLine(lines[n]) == None;
          continue;
        }
        var name, url, active := parts[0], parts[1], parts[2];
        var activeBool := Lower(active) == "true";
        assert ParseLine(lines[n]) == Some(AppLink(Strip(name), Strip(url), activeBool));
        apps := apps + [AppLink(Strip(name), Strip(url), activeBool)];
      }
      assert lines[..|lines|] == lines;
      return true;
    }

    /** Splits the loaded records by status and lays them out. */
    method GenerateHtml(timestamp: string) returns (page: Page)
      ensures page == Render(apps, timestamp)
    {
      var activeApps := WithStatus(apps, true);
      var inactiveApps := WithStatus(apps, false);
      page := HtmlTemplate(activeApps, inactiveApps, timestamp);
    }

    /** Builds the tiles with two loops, the active list first, and
        chooses between the tiles and the placeholder. */
    method HtmlTemplate(activeApps: seq<AppLink>, inactiveApps: seq<AppLink>, timestamp: string) returns (page: Page)
      ensures page == Template(activeApps, inactiveApps, timestamp)
    {
      var links: seq<Block> := [];
      for i := 0 to |activeApps|
        invariant links == BlocksOf(activeApps[..i], true)
      {
        assert activeApps[..i + 1][..i] == activeApps[..i];
        var app := activeApps[i];
        var url := app.url;
        if url == StaticReport {
          url := StaticReportRelative;
        }
        links := links + [Block(app.name, url, true)];
      }
      assert activeApps[..|activeApps|] == activeApps;
      for j := 0 to |inactiveApps|
        invariant links == BlocksOf(activeApps, true) + BlocksOf(inactiveApps[..j], false)
      {
        assert inactiveApps[..j + 1][..j] == inactiveApps[..j];
        var app := inactiveApps[j];
        var url := app.url;
        if url == StaticReport {
          url := StaticReportRelative;
        }
        links := links + [Block(app.name, url, false)];
      }
      assert inactiveApps[..|inactiveApps|] == inactiveApps;
      var grid := if activeApps != [] || inactiveApps != [] then Links(links) else NoApps;
      page := Page(grid, |activeApps|, |inactiveApps|, timestamp);
    }
  }
}
