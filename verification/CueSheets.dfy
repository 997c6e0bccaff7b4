/** What a cue sheet means, told from its lines: a header, FILE, and one section for each TRACK line.
    Of several lines of one kind in the same part the last counts. */
module CueSheets {
  import opened Common
  import opened Cue

  /** A TRACK line and the lines up to the next one. */
  datatype Section = Section(number: int, lines: seq<Line>)

  function TitleIn(line: Line): Option<string> {
    if line.Title? then Some(line.name) else None
  }

  function PerformerIn(line: Line): Option<string> {
    if line.Performer? then Some(line.name) else None
  }

  /** INDEX 01 is where the track starts; other indexes do not count. */
  function StartIn(line: Line): Option<real> {
    if line.Index? && line.n == 1 then Some(line.start) else None
  }

  /** What the last line says that says anything. */
  function Last<T>(lines: seq<Line>, f: Line -> Option<T>): Option<T> {
    if lines == [] then None
    else if f(lines[|lines| - 1]).Some? then f(lines[|lines| - 1])
    else Last(lines[..|lines| - 1], f)
  }

  function Or<T>(a: Option<T>, b: T): T {
    if a.Some? then a.value else b
  }

  /** The lines of a part: none of them ends it. */
  predicate InHeader(lines: seq<Line>) {
    forall i :: 0 <= i < |lines| ==> !lines[i].Blank? && !lines[i].File?
  }

  predicate InSection(lines: seq<Line>) {
    InHeader(lines) && forall i :: 0 <= i < |lines| ==> !lines[i].TrackLine?
  }

  predicate AreSections(sections: seq<Section>) {
    forall i :: 0 <= i < |sections| ==> InSection(sections[i].lines)
  }

  function SectionLines(sections: seq<Section>): seq<Line> {
    if sections == [] then []
    else [TrackLine(sections[0].number)] + (sections[0].lines + SectionLines(sections[1..]))
  }

  /** The track that a section describes, without its duration. */
  function TrackOf(s: Section, album: string, albumArtist: string): Track {
    Track(s.number, Last(s.lines, TitleIn), Or(Last(s.lines, PerformerIn), albumArtist), album, albumArtist,
          Or(Last(s.lines, StartIn), 0.0), 0.0)
  }

  function TracksOf(sections: seq<Section>, album: string, albumArtist: string): (r: seq<Track>)
    ensures |r| == |sections| && forall i :: 0 <= i < |r| ==> r[i] == TrackOf(sections[i], album, albumArtist)
  {
    if sections == [] then []
    else [TrackOf(sections[0], album, albumArtist)] + TracksOf(sections[1..], album, albumArtist)
  }

  // ---------------------------------------------------------------- one section

  lemma {:induction false} LastCons<T>(line: Line, lines: seq<Line>, f: Line -> Option<T>)
    ensures Last([line] + lines, f) == if Last(lines, f).Some? then Last(lines, f) else f(line)
    decreases |lines|
  {
    var all := [line] + lines;
    if lines == [] {
      assert all[..0] == [];
    } else {
      assert all[..|all| - 1] == [line] + lines[..|lines| - 1];
      LastCons(line, lines[..|lines| - 1], f);
    }
  }

  /** The track `t` as the lines leave it. */
  function Left(t: Track, lines: seq<Line>): Track {
    t.(title := if Last(lines, TitleIn).Some? then Last(lines, TitleIn) else t.title,
       artist := Or(Last(lines, PerformerIn), t.artist),
       start := Or(Last(lines, StartIn), t.start))
  }

  lemma {:induction false} LeftCons(t: Track, line: Line, lines: seq<Line>)
    ensures Left(t, [line] + lines) == Left(Described(t, line), lines)
  {
    LastCons(line, lines, TitleIn);
    LastCons(line, lines, PerformerIn);
    LastCons(line, lines, StartIn);
  }

  /** What follows a section is the end or a TRACK line. */
  predicate AtTrack(rest: seq<Line>) {
    rest == [] || rest[0].TrackLine?
  }

  lemma {:induction false} OneSection(t: Track, lines: seq<Line>, rest: seq<Line>, album: string, albumArtist: string)
    requires InSection(lines) && AtTrack(rest)
    ensures Sections(Some(t), lines + rest, album, albumArtist)
         == [Left(t, lines)] + Sections(None, rest, album, albumArtist)
    decreases |lines|
  {
    if lines == [] {
      assert lines + rest == rest;
      assert [] + Sections(None, rest, album, albumArtist) == Sections(None, rest, album, albumArtist);
    } else {
      assert (lines + rest)[1..] == lines[1..] + rest;
      assert lines == [lines[0]] + lines[1..];
      LeftCons(t, lines[0], lines[1..]);
      OneSection(Described(t, lines[0]), lines[1..], rest, album, albumArtist);
    }
  }

  // ---------------------------------------------------------------- the whole sheet

  lemma NewLeft(s: Section, album: string, albumArtist: string)
    ensures Left(NewTrack(s.number, album, albumArtist), s.lines) == TrackOf(s, album, albumArtist)
  {
  }

  lemma {:induction false} SectionFirst(s: Section, rest: seq<Line>, album: string, albumArtist: string)
    requires InSection(s.lines) && AtTrack(rest)
    ensures Sections(None, [TrackLine(s.number)] + (s.lines + rest), album, albumArtist)
         == [TrackOf(s, album, albumArtist)] + Sections(None, rest, album, albumArtist)
  {
    var next := NewTrack(s.number, album, albumArtist);
    OneSection(next, s.lines, rest, album, albumArtist);
    NewLeft(s, album, albumArtist);
    var body := [TrackLine(s.number)] + (s.lines + rest);
    assert body[1..] == s.lines + rest;
    var more := Sections(Some(next), s.lines + rest, album, albumArtist);
    assert [] + more == more;
  }

  lemma {:induction false} AllSections(sections: seq<Section>, album: string, albumArtist: string)
    requires AreSections(sections)
    ensures AtTrack(SectionLines(sections))
    ensures Sections(None, SectionLines(sections), album, albumArtist) == TracksOf(sections, album, albumArtist)
    decreases |sections|
  {
    if sections != [] {
      AllSections(sections[1..], album, albumArtist);
      SectionFirst(sections[0], SectionLines(sections[1..]), album, albumArtist);
    }
  }

  /** Lines between FILE and the first TRACK describe no track. */
  lemma {:induction false} LeadIgnored(lead: seq<Line>, rest: seq<Line>, album: string, albumArtist: string)
    requires InSection(lead)
    ensures Sections(None, lead + rest, album, albumArtist) == Sections(None, rest, album, albumArtist)
    decreases |lead|
  {
    if lead == [] {
      assert lead + rest == rest;
    } else {
      assert (lead + rest)[1..] == lead[1..] + rest;
      LeadIgnored(lead[1..], rest, album, albumArtist);
    }
  }

  /** An empty line or another FILE ends the body, and so does the end of the sheet. */
  predicate AtEnd(rest: seq<Line>) {
    rest == [] || rest[0].Blank? || rest[0].File?
  }

  lemma {:induction false} BodyOf(lines: seq<Line>, rest: seq<Line>)
    requires InHeader(lines) && AtEnd(rest)
    ensures Body(lines + rest) == lines
    decreases |lines|
  {
    if lines == [] {
      assert lines + rest == rest;
    } else {
      assert (lines + rest)[1..] == lines[1..] + rest;
      BodyOf(lines[1..], rest);
    }
  }

  lemma {:induction false} SectionLinesInHeader(sections: seq<Section>)
    requires AreSections(sections)
    ensures InHeader(SectionLines(sections))
    decreases |sections|
  {
    if sections != [] {
      SectionLinesInHeader(sections[1..]);
    }
  }

  lemma {:induction false} HeaderRead(header: seq<Line>, rest: seq<Line>, album: string, albumArtist: string)
    requires InHeader(header)
    ensures Batch(header + rest, album, albumArtist)
         == Batch(rest, Or(Last(header, TitleIn), album), Or(Last(header, PerformerIn), albumArtist))
    ensures Wellformed(header + rest) == Wellformed(rest)
    decreases |header|
  {
    if header == [] {
      assert header + rest == rest;
    } else {
      var line, more := header[0], header[1..];
      assert header == [line] + more && (header + rest)[1..] == more + rest;
      LastCons(line, more, TitleIn);
      LastCons(line, more, PerformerIn);
      HeaderRead(more, rest, if line.Title? then line.name else album,
                 if line.Performer? then line.name else albumArtist);
    }
  }

  /** A sheet: the header, FILE, lines before the first TRACK, the sections, and what ends it. */
  function Sheet(
      header: seq<Line>, outcome: FileOutcome, lead: seq<Line>, sections: seq<Section>, rest: seq<Line>): seq<Line>
  {
    header + ([File(outcome)] + ((lead + SectionLines(sections)) + rest))
  }

  lemma {:induction false} FileRead(
      duration: real, lead: seq<Line>, sections: seq<Section>, rest: seq<Line>, album: string, albumArtist: string)
    requires InSection(lead) && AreSections(sections) && AtEnd(rest)
    ensures Batch([File(Opened(duration))] + ((lead + SectionLines(sections)) + rest), album, albumArtist)
         == (Timed(TracksOf(sections, album, albumArtist), duration), true)
  {
    var body := lead + SectionLines(sections);
    SectionLinesInHeader(sections);
    BodyOf(body, rest);
    assert ([File(Opened(duration))] + (body + rest))[1..] == body + rest;
    LeadIgnored(lead, SectionLines(sections), album, albumArtist);
    AllSections(sections, album, albumArtist);
  }

  /** What is added for a sheet whose file is opened: a track for each section, with the number of its
      TRACK line, the title and the artist of its last TITLE and PERFORMER lines, by default no title
      and the artist of the album, with album and album artist from the header, from its INDEX 01, or
      the beginning, to that of the next section, or the end of the file. */
  lemma {:induction false} SheetMeaning(
      header: seq<Line>, duration: real, lead: seq<Line>, sections: seq<Section>, rest: seq<Line>)
    requires InHeader(header) && InSection(lead) && AreSections(sections) && AtEnd(rest)
    ensures var (added, result) := Batch(Sheet(header, Opened(duration), lead, sections, rest), "", "");
      && result && |added| == |sections|
      && forall i :: 0 <= i < |sections| ==>
        var lines, artist := sections[i].lines, Or(Last(header, PerformerIn), "");
        && added[i].number == sections[i].number
        && added[i].title == Last(lines, TitleIn)
        && added[i].artist == Or(Last(lines, PerformerIn), artist)
        && added[i].album == Or(Last(header, TitleIn), "") && added[i].albumArtist == artist
        && added[i].start == Or(Last(lines, StartIn), 0.0)
        && added[i].start + added[i].duration
           == if i + 1 < |sections| then Or(Last(sections[i + 1].lines, StartIn), 0.0) else duration
  {
    HeaderRead(header, [File(Opened(duration))] + ((lead + SectionLines(sections)) + rest), "", "");
    FileRead(duration, lead, sections, rest, Or(Last(header, TitleIn), ""), Or(Last(header, PerformerIn), ""));
  }

  /** When the file is not opened nothing is added, and reading fails only if it does not exist. */
  lemma {:induction false} NotOpened(
      header: seq<Line>, outcome: FileOutcome, lead: seq<Line>, sections: seq<Section>, rest: seq<Line>)
    requires InHeader(header) && !outcome.Opened?
    ensures Batch(Sheet(header, outcome, lead, sections, rest), "", "") == ([], outcome != Missing)
  {
    HeaderRead(header, [File(outcome)] + ((lead + SectionLines(sections)) + rest), "", "");
  }

  lemma {:induction false} LeadIndexes(lead: seq<Line>, rest: seq<Line>)
    requires InSection(lead) && AtTrack(rest)
    ensures IndexesFollow(lead + rest) <==> Last(lead, StartIn).None?
    decreases |lead|
  {
    if lead == [] {
      assert lead + rest == rest;
    } else {
      assert (lead + rest)[1..] == lead[1..] + rest && lead == [lead[0]] + lead[1..];
      LastCons(lead[0], lead[1..], StartIn);
      LeadIndexes(lead[1..], rest);
    }
  }

  /** And the sheets that dereference null are those with an INDEX 01 before the first TRACK. */
  lemma {:induction false} SheetCrashes(
      header: seq<Line>, duration: real, lead: seq<Line>, sections: seq<Section>, rest: seq<Line>)
    requires InHeader(header) && InSection(lead) && AreSections(sections) && AtEnd(rest)
    ensures Wellformed(Sheet(header, Opened(duration), lead, sections, rest)) <==> Last(lead, StartIn).None?
  {
    var body, file := lead + SectionLines(sections), File(Opened(duration));
    HeaderRead(header, [file] + (body + rest), "", "");
    assert ([file] + (body + rest))[1..] == body + rest;
    SectionLinesInHeader(sections);
    BodyOf(body, rest);
    AllSections(sections, "", "");
    LeadIndexes(lead, SectionLines(sections));
  }

  // ---------------------------------------------------------------- every sheet is one

  lemma {:induction false} SplitHeader(lines: seq<Line>) returns (header: seq<Line>, rest: seq<Line>)
    ensures lines == header + rest && InHeader(header) && AtEnd(rest)
    decreases |lines|
  {
    if AtEnd(lines) {
      header, rest := [], lines;
    } else {
      header, rest := SplitHeader(lines[1..]);
      assert lines == [lines[0]] + (header + rest);
      header := [lines[0]] + header;
    }
  }

  lemma {:induction false} SplitSections(body: seq<Line>) returns (lead: seq<Line>, sections: seq<Section>)
    requires InHeader(body)
    ensures body == lead + SectionLines(sections) && InSection(lead) && AreSections(sections)
    decreases |body|
  {
    if body == [] {
      lead, sections := [], [];
    } else {
      lead, sections := SplitSections(body[1..]);
      assert body == [body[0]] + (lead + SectionLines(sections));
      if body[0].TrackLine? {
        var first := Section(body[0].number, lead);
        assert ([first] + sections)[1..] == sections;
        lead, sections := [], [first] + sections;
        assert body == [] + SectionLines(sections);
      } else {
        lead := [body[0]] + lead;
      }
    }
  }

  /** Lines in which FILE comes before the first empty line are a sheet of this form; others add
      nothing. */
  lemma {:induction false} EverySheet(lines: seq<Line>)
    returns (header: seq<Line>, outcome: Option<FileOutcome>, lead: seq<Line>, sections: seq<Section>, rest: seq<Line>)
    ensures InHeader(header) && InSection(lead) && AreSections(sections) && AtEnd(rest)
    ensures outcome.Some? ==> lines == Sheet(header, outcome.value, lead, sections, rest)
    ensures outcome.None? ==> Batch(lines, "", "") == ([], true) && Wellformed(lines)
  {
    outcome, lead, sections := None, [], [];
    header, rest := SplitHeader(lines);
    if rest != [] && rest[0].File? {
      var tail := rest[1..];
      assert rest == [rest[0]] + tail;
      outcome := Some(rest[0].outcome);
      var body;
      body, rest := SplitHeader(tail);
      lead, sections := SplitSections(body);
    } else {
      HeaderRead(header, rest, "", "");
    }
  }
}
