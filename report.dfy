/** The Markdown report `writeOutputFile` builds from the reconciled description file:
    a title, a section per missing touchpoint and a rule after them, then a section per
    present touchpoint with one `file:line` line per location. */
module Report {
  import opened Text
  import opened Scanner
  import opened Reconciler
  import opened Markdown

  const Title: string := "Touchpoints"
  const NoDescription: string := "(No description.)"
  const MissingPrefix: string := "[Missing] "

  /** What `addTouchpoint(name, description)` adds: the name as a subheading, then the
      description in italics, or a placeholder when it is empty. */
  function TouchpointLines(name: string, description: string): seq<Line> {
    [Line([Subheading(name)]),
     Line([ItalicsPhrase(if |description| > 0 then description else NoDescription)])]
  }

  /** `location['file'] + ":" + str(location['line'])`. */
  function LocationText(location: Location): string {
    location.file + ":" + Decimal(location.line)
  }

  /** A line per location, each followed by an empty line. */
  function LocationLines(locations: seq<Location>): seq<Line> {
    if locations == [] then []
    else
      LocationLines(locations[..|locations| - 1])
      + [Line([MonospacePhrase(LocationText(locations[|locations| - 1]))]), Line([])]
  }

  /** The list comprehension `missingTouchpoints`: the missing entries, in file order. */
  function MissingTouchpoints(d: Descriptions): seq<Entry> {
    if d == [] then []
    else
      MissingTouchpoints(d[..|d| - 1])
      + if d[|d| - 1].touchpoint.Missing? then [d[|d| - 1]] else []
  }

  /** `missingTouchpoints` keeps exactly the missing entries: each of them and only them,
      so it is empty exactly when no entry is missing. */
  lemma {:induction false} MissingTouchpointsFacts(d: Descriptions)
    ensures forall e :: e in MissingTouchpoints(d) <==> e in d && e.touchpoint.Missing?
    ensures |MissingTouchpoints(d)| > 0 <==> exists i :: 0 <= i < |d| && d[i].touchpoint.Missing?
  {
    if d != [] {
      var init, last := d[..|d| - 1], d[|d| - 1];
      MissingTouchpointsFacts(init);
      assert d == init + [last];
      if exists i :: 0 <= i < |d| && d[i].touchpoint.Missing? {
        var i :| 0 <= i < |d| && d[i].touchpoint.Missing?;
        if i < |init| {
          assert init[i] == d[i];
        }
      }
    }
  }

  /** The sections of the missing entries, each titled with the missing prefix. */
  function MissingLines(missing: seq<Entry>): seq<Line> {
    if missing == [] then []
    else
      var e := missing[|missing| - 1];
      MissingLines(missing[..|missing| - 1])
      + TouchpointLines(MissingPrefix + e.name, e.touchpoint.description)
  }

  /** The section of one entry in the second part of the report: for a present entry its
      title, its description, an empty line, then its locations; nothing for a missing one. */
  function PresentSection(e: Entry): seq<Line> {
    match e.touchpoint
    case Missing(_) => []
    case Present(description, locations) =>
      TouchpointLines(e.name, description) + [Line([])] + LocationLines(locations)
  }

  /** The sections of the entries, in file order. */
  function PresentLines(d: Descriptions): seq<Line> {
    if d == [] then [] else PresentLines(d[..|d| - 1]) + PresentSection(d[|d| - 1])
  }

  /** The lines of the report: the title, then the missing sections and the rule when
      there is a missing entry, then the present sections. */
  function ReportLines(d: Descriptions): seq<Line> {
    [Line([Heading(Title)])] + MissingPart(d) + PresentLines(d)
  }

  /** The missing sections followed by a rule, or nothing when no entry is missing. */
  function MissingPart(d: Descriptions): seq<Line> {
    var missing := MissingTouchpoints(d);
    if |missing| > 0 then MissingLines(missing) + [Line([HorizontalRule])] else []
  }

  // ---------------------------------------------------------------------------
  // writeOutputFile
  // ---------------------------------------------------------------------------

  /** The inner function `addTouchpoint`. */
  method AddTouchpoint(builder: MarkdownBuilder, name: string, description: string)
    modifies builder
    ensures builder.lines == old(builder.lines) + TouchpointLines(name, description)
  {
    builder.AddLine(Line([Subheading(name)]));
    builder.AddLine(Line([ItalicsPhrase(if |description| > 0 then description else NoDescription)]));
  }

  /** The innermost loop of `writeOutputFile`: each location and an empty line. */
  method AddLocations(builder: MarkdownBuilder, locations: seq<Location>)
    modifies builder
    ensures builder.lines == old(builder.lines) + LocationLines(locations)
  {
    ghost var before := builder.lines;
    for j := 0 to |locations|
      invariant builder.lines == before + LocationLines(locations[..j])
    {
      var location := locations[j];
      builder.AddLine(Line([MonospacePhrase(location.file + ":" + Decimal(location.line))]));
      builder.AddLine(Line([]));
      assert locations[..j + 1][..j] == locations[..j];
    }
    assert locations[..|locations|] == locations;
  }

  /** The first loop of `writeOutputFile`: a section per missing entry. */
  method AddMissing(builder: MarkdownBuilder, missing: seq<Entry>)
    modifies builder
    ensures builder.lines == old(builder.lines) + MissingLines(missing)
  {
    ghost var before := builder.lines;
    for i := 0 to |missing|
      invariant builder.lines == before + MissingLines(missing[..i])
    {
      var touchpoint := missing[i];
      AddTouchpoint(builder, MissingPrefix + touchpoint.name, touchpoint.touchpoint.description);
      assert missing[..i + 1][..i] == missing[..i];
      AppendAssociative(before, MissingLines(missing[..i]),
        TouchpointLines(MissingPrefix + touchpoint.name, touchpoint.touchpoint.description));
    }
    assert missing[..|missing|] == missing;
  }

  /** The body of the second loop of `writeOutputFile`, for one entry. */
  method AddSection(builder: MarkdownBuilder, entry: Entry)
    modifies builder
    ensures builder.lines == old(builder.lines) + PresentSection(entry)
  {
    if entry.touchpoint.Present? {
      ghost var before := builder.lines;
      AddTouchpoint(builder, entry.name, entry.touchpoint.description);
      builder.AddLine(Line([]));
      AddLocations(builder, entry.touchpoint.locations);
      assert builder.lines == before + (TouchpointLines(entry.name, entry.touchpoint.description)
        + [Line([])] + LocationLines(entry.touchpoint.locations));
    }
  }

  /** The second loop of `writeOutputFile`: a section per present entry. */
  method AddPresent(builder: MarkdownBuilder, descriptions: Descriptions)
    modifies builder
    ensures builder.lines == old(builder.lines) + PresentLines(descriptions)
  {
    ghost var before := builder.lines;
    for i := 0 to |descriptions|
      invariant builder.lines == before + PresentLines(descriptions[..i])
    {
      AddSection(builder, descriptions[i]);
      assert descriptions[..i + 1][..i] == descriptions[..i];
      AppendAssociative(before, PresentLines(descriptions[..i]), PresentSection(descriptions[i]));
    }
    assert descriptions[..|descriptions|] == descriptions;
  }

  /** `writeOutputFile(descriptions, outputFile)` up to the text handed to `write`. */
  method WriteReport(descriptions: Descriptions) returns (report: string)
    ensures report == Render(ReportLines(descriptions))
  {
    var builder := new MarkdownBuilder();
    builder.AddLine(Line([Heading(Title)]));
    var missingTouchpoints := MissingTouchpoints(descriptions);
    if |missingTouchpoints| > 0 {
      AddMissing(builder, missingTouchpoints);
      builder.AddLine(Line([HorizontalRule]));
    }
    assert builder.lines == [Line([Heading(Title)])] + MissingPart(descriptions);
    AddPresent(builder, descriptions);
    report := builder.ToText();
  }

  // ---------------------------------------------------------------------------
  // What the report shows
  // ---------------------------------------------------------------------------

  /** The title line: the title, a line of as many '=' as it has characters, and the
      line break that ends the line. */
  lemma TitleLineText()
    ensures Render([Line([Heading(Title)])]) == Title + "\n" + Underline(|Title|) + "\n\n"
  {
    var first := Line([Heading(Title)]);
    assert [first][..0] == [];
    assert Joined([Heading(Title)]) == PhraseText(Heading(Title));
  }

  /** The report begins with its title line. */
  lemma ReportStartsWithTitle(d: Descriptions)
    ensures Title + "\n" + Underline(|Title|) + "\n\n" <= Render(ReportLines(d))
  {
    var first, rest := Line([Heading(Title)]), MissingPart(d) + PresentLines(d);
    AppendAssociative([first], MissingPart(d), PresentLines(d));
    assert ReportLines(d) == [first] + rest;
    RenderAppend([first], rest);
    TitleLineText();
  }

  /** A touchpoint's section shows its name and its description, or the placeholder when
      the description is empty. */
  lemma PlaceholderShown(name: string, description: string)
    ensures Render(TouchpointLines(name, description))
      == "## " + name + "\n"
         + ("_" + (if |description| > 0 then description else NoDescription) + "_" + "\n")
  {
    var shown := if |description| > 0 then description else NoDescription;
    var l0, l1 := Line([Subheading(name)]), Line([ItalicsPhrase(shown)]);
    assert TouchpointLines(name, description) == [l0] + [l1];
    RenderAppend([l0], [l1]);
    RenderSingle(l0);
    RenderSingle(l1);
    JoinedSingle(Subheading(name));
    JoinedSingle(ItalicsPhrase(shown));
  }

  /** The text of a location line reads back as the file, a colon and the line number. */
  lemma LocationTextReadBack(location: Location)
    ensures var t := LocationText(location); var k := |location.file|;
      |t| > k + 1 && t[..k] == location.file && t[k] == ':'
      && (forall i :: k < i < |t| ==> IsDigit(t[i]))
      && DecimalValue(t[k + 1..]) == location.line
  {
    var t := LocationText(location);
    var k := |location.file|;
    assert t[k + 1..] == Decimal(location.line);
    DecimalRoundTrip(location.line);
  }

  /** The text a line shows in one kind of phrase: a title for a line holding one
      subheading, a code for a line holding one monospace phrase. */
  function TitleOf(line: Line): seq<string> {
    if |line.phrases| == 1 && line.phrases[0].Subheading? then [line.phrases[0].phrase] else []
  }

  function CodeOf(line: Line): seq<string> {
    if |line.phrases| == 1 && line.phrases[0].MonospacePhrase? then [line.phrases[0].phrase] else []
  }

  /** What `pick` finds in each line, in order. */
  function Picked(lines: seq<Line>, pick: Line -> seq<string>): seq<string> {
    if lines == [] then [] else Picked(lines[..|lines| - 1], pick) + pick(lines[|lines| - 1])
  }

  lemma {:induction false} PickedAppend(a: seq<Line>, b: seq<Line>, pick: Line -> seq<string>)
    ensures Picked(a + b, pick) == Picked(a, pick) + Picked(b, pick)
  {
    if b != [] {
      assert (a + b)[..|a + b| - 1] == a + b[..|b| - 1];
      PickedAppend(a, b[..|b| - 1], pick);
    } else {
      assert a + b == a;
    }
  }

  /** The titles of the missing sections: each missing name after the prefix. */
  function MissingTitles(d: Descriptions): seq<string> {
    if d == [] then []
    else
      MissingTitles(d[..|d| - 1])
      + if d[|d| - 1].touchpoint.Missing? then [MissingPrefix + d[|d| - 1].name] else []
  }

  /** The names of the present entries. */
  function PresentNames(d: Descriptions): seq<string> {
    if d == [] then []
    else PresentNames(d[..|d| - 1]) + if d[|d| - 1].touchpoint.Present? then [d[|d| - 1].name] else []
  }

  /** The text of each location, in order. */
  function LocationTexts(locations: seq<Location>): (r: seq<string>)
    ensures |r| == |locations|
  {
    if locations == [] then []
    else LocationTexts(locations[..|locations| - 1]) + [LocationText(locations[|locations| - 1])]
  }

  /** The location texts of the present entries, entry after entry. */
  function PresentCodes(d: Descriptions): seq<string> {
    if d == [] then []
    else
      PresentCodes(d[..|d| - 1])
      + match d[|d| - 1].touchpoint
        case Missing(_) => []
        case Present(_, locations) => LocationTexts(locations)
  }

  lemma TouchpointLinesShow(name: string, description: string)
    ensures Picked(TouchpointLines(name, description), TitleOf) == [name]
    ensures Picked(TouchpointLines(name, description), CodeOf) == []
  {
    var lines := TouchpointLines(name, description);
    assert lines == [lines[0]] + [lines[1]];
    PickedAppend([lines[0]], [lines[1]], TitleOf);
    PickedAppend([lines[0]], [lines[1]], CodeOf);
  }

  lemma {:induction false} LocationLinesShow(locations: seq<Location>)
    ensures Picked(LocationLines(locations), TitleOf) == []
    ensures Picked(LocationLines(locations), CodeOf) == LocationTexts(locations)
  {
    if locations != [] {
      var init := locations[..|locations| - 1];
      var last := [Line([MonospacePhrase(LocationText(locations[|locations| - 1]))]), Line([])];
      LocationLinesShow(init);
      assert last == [last[0]] + [last[1]];
      PickedAppend([last[0]], [last[1]], TitleOf);
      PickedAppend([last[0]], [last[1]], CodeOf);
      PickedAppend(LocationLines(init), last, TitleOf);
      PickedAppend(LocationLines(init), last, CodeOf);
    }
  }

  lemma {:induction false} MissingLinesShow(d: Descriptions)
    ensures Picked(MissingLines(MissingTouchpoints(d)), TitleOf) == MissingTitles(d)
    ensures Picked(MissingLines(MissingTouchpoints(d)), CodeOf) == []
  {
    if d != [] {
      var init, e := d[..|d| - 1], d[|d| - 1];
      var ms := MissingTouchpoints(init);
      MissingLinesShow(init);
      if e.touchpoint.Missing? {
        assert MissingTouchpoints(d) == ms + [e];
        assert MissingTitles(d) == MissingTitles(init) + [MissingPrefix + e.name];
        assert (ms + [e])[..|ms|] == ms;
        var section := TouchpointLines(MissingPrefix + e.name, e.touchpoint.description);
        assert MissingLines(ms + [e]) == MissingLines(ms) + section;
        TouchpointLinesShow(MissingPrefix + e.name, e.touchpoint.description);
        PickedAppend(MissingLines(ms), section, TitleOf);
        PickedAppend(MissingLines(ms), section, CodeOf);
      } else {
        assert MissingTouchpoints(d) == ms;
        assert MissingTitles(d) == MissingTitles(init);
      }
    }
  }

  /** The first part shows the missing titles and no code. */
  lemma MissingPartShows(d: Descriptions)
    ensures Picked(MissingPart(d), TitleOf) == MissingTitles(d)
    ensures Picked(MissingPart(d), CodeOf) == []
  {
    var missing := MissingTouchpoints(d);
    MissingLinesShow(d);
    if |missing| > 0 {
      PickedAppend(MissingLines(missing), [Line([HorizontalRule])], TitleOf);
      PickedAppend(MissingLines(missing), [Line([HorizontalRule])], CodeOf);
    } else {
      assert MissingLines(missing) == [];
    }
  }

  /** One entry's section in the second part shows its name and its locations when it
      is present, and nothing when it is missing. */
  lemma PresentSectionShows(e: Entry)
    ensures Picked(PresentSection(e), TitleOf) == if e.touchpoint.Present? then [e.name] else []
    ensures Picked(PresentSection(e), CodeOf)
      == if e.touchpoint.Present? then LocationTexts(e.touchpoint.locations) else []
  {
    if e.touchpoint.Present? {
      var description, locations := e.touchpoint.description, e.touchpoint.locations;
      var head := TouchpointLines(e.name, description) + [Line([])];
      assert PresentSection(e) == head + LocationLines(locations);
      TouchpointLinesShow(e.name, description);
      LocationLinesShow(locations);
      PickedAppend(TouchpointLines(e.name, description), [Line([])], TitleOf);
      PickedAppend(TouchpointLines(e.name, description), [Line([])], CodeOf);
      PickedAppend(head, LocationLines(locations), TitleOf);
      PickedAppend(head, LocationLines(locations), CodeOf);
    }
  }

  lemma {:induction false} PresentLinesShow(d: Descriptions)
    ensures Picked(PresentLines(d), TitleOf) == PresentNames(d)
    ensures Picked(PresentLines(d), CodeOf) == PresentCodes(d)
  {
    if d != [] {
      var init, e := d[..|d| - 1], d[|d| - 1];
      PresentLinesShow(init);
      PresentSectionShows(e);
      assert PresentLines(d) == PresentLines(init) + PresentSection(e);
      PickedAppend(PresentLines(init), PresentSection(e), TitleOf);
      PickedAppend(PresentLines(init), PresentSection(e), CodeOf);
    }
  }

  lemma TitleLineShows()
    ensures Picked([Line([Heading(Title)])], TitleOf) == []
    ensures Picked([Line([Heading(Title)])], CodeOf) == []
  {
    assert [Line([Heading(Title)])][..0] == [];
  }

  /** The report's section titles are the missing names, prefixed, in file order, then
      the present names in file order; its code lines are the locations of the present
      entries, entry after entry, each in the order it was found. */
  lemma ReportShows(d: Descriptions)
    ensures Picked(ReportLines(d), TitleOf) == MissingTitles(d) + PresentNames(d)
    ensures Picked(ReportLines(d), CodeOf) == PresentCodes(d)
  {
    var title, missing, present := [Line([Heading(Title)])], MissingPart(d), PresentLines(d);
    assert ReportLines(d) == (title + missing) + present;
    TitleLineShows();
    MissingPartShows(d);
    PresentLinesShow(d);
    PickedAppend(title, missing, TitleOf);
    PickedAppend(title + missing, present, TitleOf);
    assert Picked(title + missing, TitleOf) == MissingTitles(d);
    PickedAppend(title, missing, CodeOf);
    PickedAppend(title + missing, present, CodeOf);
    assert Picked(title + missing, CodeOf) == [];
  }

  // ---------------------------------------------------------------------------
  // The rule between the two parts
  // ---------------------------------------------------------------------------

  lemma {:induction false} LocationLinesNoRule(locations: seq<Location>)
    ensures Line([HorizontalRule]) !in LocationLines(locations)
  {
    if locations != [] {
      LocationLinesNoRule(locations[..|locations| - 1]);
    }
  }

  lemma {:induction false} MissingLinesNoRule(missing: seq<Entry>)
    ensures Line([HorizontalRule]) !in MissingLines(missing)
  {
    if missing != [] {
      MissingLinesNoRule(missing[..|missing| - 1]);
    }
  }

  lemma {:induction false} PresentLinesNoRule(d: Descriptions)
    ensures Line([HorizontalRule]) !in PresentLines(d)
  {
    if d != [] {
      PresentLinesNoRule(d[..|d| - 1]);
      var e := d[|d| - 1];
      if e.touchpoint.Present? {
        LocationLinesNoRule(e.touchpoint.locations);
        assert PresentSection(e) == TouchpointLines(e.name, e.touchpoint.description) + [Line([])]
          + LocationLines(e.touchpoint.locations);
      }
    }
  }

  /** The report has a horizontal rule exactly when some entry is missing. */
  lemma ReportRuleIffMissing(d: Descriptions)
    ensures Line([HorizontalRule]) in ReportLines(d)
      <==> exists i :: 0 <= i < |d| && d[i].touchpoint.Missing?
  {
    MissingTouchpointsFacts(d);
    MissingLinesNoRule(MissingTouchpoints(d));
    PresentLinesNoRule(d);
    assert ReportLines(d) == [Line([Heading(Title)])] + MissingPart(d) + PresentLines(d);
  }

  // ---------------------------------------------------------------------------
  // The report of a reconciled description file
  // ---------------------------------------------------------------------------

  /** Each name after the missing prefix. */
  function Prefixed(names: seq<string>): seq<string> {
    seq(|names|, i requires 0 <= i < |names| => MissingPrefix + names[i])
  }

  lemma {:induction false} ShownAppend(a: Descriptions, b: Descriptions)
    ensures MissingTitles(a + b) == MissingTitles(a) + MissingTitles(b)
    ensures PresentNames(a + b) == PresentNames(a) + PresentNames(b)
  {
    if b != [] {
      assert (a + b)[..|a + b| - 1] == a + b[..|b| - 1];
      ShownAppend(a, b[..|b| - 1]);
    } else {
      assert a + b == a;
    }
  }

  lemma {:induction false} MissingEntriesShown(prior: Prior, names: seq<string>)
    requires forall n :: n in names ==> n in prior
    ensures MissingTitles(MissingEntries(prior, names)) == Prefixed(names)
    ensures PresentNames(MissingEntries(prior, names)) == []
  {
    if names != [] {
      var init := names[..|names| - 1];
      MissingEntriesShown(prior, init);
      var d := MissingEntries(prior, names);
      assert d[..|d| - 1] == MissingEntries(prior, init);
      assert Prefixed(names) == Prefixed(init) + [MissingPrefix + names[|names| - 1]];
    }
  }

  lemma {:induction false} PresentEntriesShown(prior: Prior, scan: Index, names: seq<string>)
    ensures MissingTitles(PresentEntries(prior, scan, names)) == []
    ensures PresentNames(PresentEntries(prior, scan, names)) == names
  {
    if names != [] {
      var init := names[..|names| - 1];
      PresentEntriesShown(prior, scan, init);
      var d := PresentEntries(prior, scan, names);
      assert d[..|d| - 1] == PresentEntries(prior, scan, init);
      assert names == init + [names[|names| - 1]];
    }
  }

  /** The report of a reconciled file titles the described names that were not found,
      in ascending order and after the missing prefix, then the names that were found,
      in ascending order. */
  lemma ReconciledReportTitles(prior: Prior, scan: Index)
    ensures Picked(ReportLines(Reconciled(prior, scan)), TitleOf)
      == Prefixed(SortedNames(prior.Keys - scan.Keys)) + SortedNames(scan.Keys)
  {
    var missing, found := SortedNames(prior.Keys - scan.Keys), SortedNames(scan.Keys);
    var a, b := MissingEntries(prior, missing), PresentEntries(prior, scan, found);
    assert Reconciled(prior, scan) == a + b;
    ReportShows(a + b);
    ShownAppend(a, b);
    MissingEntriesShown(prior, missing);
    PresentEntriesShown(prior, scan, found);
    assert MissingTitles(b) == [] && PresentNames(a) == [];
    assert MissingTitles(a + b) == Prefixed(missing) by {
      assert MissingTitles(a) + [] == MissingTitles(a);
    }
    assert PresentNames(a + b) == found by {
      assert [] + PresentNames(b) == PresentNames(b);
    }
    assert ReportLines(Reconciled(prior, scan)) == ReportLines(a + b);
  }
}
