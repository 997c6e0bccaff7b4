/** What the names of the interface mean: which column of which table a query compares or sorts by
    for each of them, and how. */
module QueryNames {
  import opened Common
  import opened Like
  import opened QueryFilters
  import opened QueryIds
  import opened QueryOrder
  import opened QueryResults
  import opened QuerySort

  const IDS := ["trackid", "artistid", "albumid"]
  const TEXTS := ["title", "artist", "album", "all", "search"]
  const EXACT := ["track", "duration", "tracks"]
  const PATHS := ["directory", "directoryprefix"]

  // ---------------------------------------------------------------- the thirteen names

  lemma NameLengths(f: nat)
    requires 1 <= f < ALL
    ensures |FieldName(f)| == [0, 7, 8, 7, 5, 6, 5, 5, 8, 6, 9, 15][f]
  {
  }

  lemma NameStarts(f: nat)
    requires 1 <= f < ALL
    ensures FieldName(f)[..2] == ["", "tr", "ar", "al", "ti", "ar", "al", "tr", "du", "tr", "di", "di"][f]
  {
  }

  lemma NamesDiffer(f: nat, g: nat)
    requires 1 <= f < g < ALL
    ensures FieldName(f) != FieldName(g)
  {
    NameLengths(f);
    NameLengths(g);
    NameStarts(f);
    NameStarts(g);
  }

  lemma {:induction false} FindsName(f: nat, i: nat)
    requires 1 <= i <= f < ALL
    ensures FieldFrom(FieldName(f), i) == f
    decreases f - i
  {
    if i < f {
      NamesDiffer(i, f);
      FindsName(f, i + 1);
    }
  }

  lemma {:induction false} FindsAll(name: string, i: nat)
    requires (name == "all" || name == "search") && 1 <= i <= ALL
    ensures FieldFrom(name, i) == ALL
    decreases ALL - i
  {
    if i < ALL {
      NameLengths(i);
      NameStarts(i);
      assert name == "search" ==> name[..2] == "se";
      FindsAll(name, i + 1);
    }
  }

  /** Each name of the interface is its field, and there are no others. */
  lemma NamesKnown(name: string)
    ensures FieldOf(name) != 0 <==> name in IDS + TEXTS + EXACT + PATHS
    ensures FieldOf("trackid") == 1 && FieldOf("artistid") == 2 && FieldOf("albumid") == 3
    ensures FieldOf("title") == 4 && FieldOf("artist") == 5 && FieldOf("album") == 6
    ensures FieldOf("track") == 7 && FieldOf("duration") == 8 && FieldOf("tracks") == 9
    ensures FieldOf("directory") == 10 && FieldOf("directoryprefix") == 11
    ensures FieldOf("all") == 12 && FieldOf("search") == 12
  {
    forall f | 1 <= f < ALL { FindsName(f, 1); }
    FindsAll("all", 1);
    FindsAll("search", 1);
    assert FieldName(1) == "trackid" && FieldName(2) == "artistid" && FieldName(3) == "albumid";
    assert FieldName(4) == "title" && FieldName(5) == "artist" && FieldName(6) == "album";
    assert FieldName(7) == "track" && FieldName(8) == "duration" && FieldName(9) == "tracks";
    assert FieldName(10) == "directory" && FieldName(11) == "directoryprefix";
  }

  // ---------------------------------------------------------------- the columns of the three queries

  /** Tracks: ids, names, numbers and the path; a search looks at title, artist and album together. */
  lemma TrackColumns()
    ensures ColumnOf(TRACKS, "trackid") == Some("tracks.rowid")
    ensures ColumnOf(TRACKS, "artistid") == Some("tracks.artistid")
    ensures ColumnOf(TRACKS, "albumid") == Some("tracks.albumid")
    ensures ColumnOf(TRACKS, "title") == Some("tracks.title")
    ensures ColumnOf(TRACKS, "artist") == Some("tracks.artist")
    ensures ColumnOf(TRACKS, "album") == Some("tracks.album")
    ensures ColumnOf(TRACKS, "track") == Some("tracks.track")
    ensures ColumnOf(TRACKS, "duration") == Some("tracks.duration")
    ensures ColumnOf(TRACKS, "directory") == ColumnOf(TRACKS, "directoryprefix") == Some("tracks.file")
    ensures ColumnOf(TRACKS, "all") == ColumnOf(TRACKS, "search") == Some(
      "(COALESCE(tracks.title, '') ||" + " COALESCE(tracks.artist, '') ||" + " COALESCE(tracks.album, ''))")
    ensures ColumnOf(TRACKS, "tracks") == None
  {
    NamesKnown("");
  }

  /** Artists: the id and the name; no other name of the interface has a column. */
  lemma ArtistColumns(name: string)
    ensures ColumnOf(ARTISTS, "artistid") == Some("artists.rowid")
    ensures ColumnOf(ARTISTS, "artist") == Some("artists.name")
    ensures ColumnOf(ARTISTS, "all") == ColumnOf(ARTISTS, "search") == Some("(COALESCE(artists.name, ''))")
    ensures name !in ["artistid", "artist", "all", "search"] ==> ColumnOf(ARTISTS, name) == None
  {
    NamesKnown(name);
  }

  /** Albums: the id, the name and the number of tracks. */
  lemma AlbumColumns(name: string)
    ensures ColumnOf(ALBUMS, "albumid") == Some("albums.rowid")
    ensures ColumnOf(ALBUMS, "album") == Some("albums.name")
    ensures ColumnOf(ALBUMS, "tracks") == Some("albums.tracks")
    ensures ColumnOf(ALBUMS, "all") == ColumnOf(ALBUMS, "search") == Some("(COALESCE(albums.name, ''))")
    ensures name !in ["albumid", "album", "tracks", "all", "search"] ==> ColumnOf(ALBUMS, name) == None
  {
    NamesKnown(name);
  }

  // ---------------------------------------------------------------- what a filter asks

  /** What a client asks of a value with one argument that is not a list of ids. */
  ghost predicate Asks(root: string, name: string, text: string, value: string) {
    if name in TEXTS then Contains(value, text)
    else if name == "directory" then DirectlyBelow(value, root + text)
    else if name == "directoryprefix" then HasPrefix(value, root + text)
    else SameFolded(value, text)
  }

  /** For every name that has a column, and text without wildcards, the filter asks of this column
      what the name says: the text names and searches that it contains the text, the two names of
      paths that it is below them, the others that it is the text, all without regard to case. */
  lemma NameAsks(root: string, maps: Format, name: string, text: string, row: Row)
    requires ColumnOf(maps, name).Some? && name !in IDS && Plain(root) && Plain(text)
    ensures Satisfies(root, maps, FieldOf(name), FilterText(FieldOf(name), text), row) <==>
      var v := AsText(Column(row, ColumnOf(maps, name).value)); v.Some? && Asks(root, name, text, v.value)
  {
    NamesKnown(name);
    FilterAsks(root, maps, FieldOf(name), text, row);
  }

  /** And the names of ids ask that the column is one of the ids of the list. */
  lemma {:induction false} IdsAsk(root: string, maps: Format, name: string, ids: seq<nat>, row: Row)
    requires ColumnOf(maps, name).Some? && name in IDS
    ensures Satisfies(root, maps, FieldOf(name), FilterText(FieldOf(name), JoinGroups(Decimals(ids))), row) <==>
      var v := Column(row, ColumnOf(maps, name).value); v.Integer? && v.n in ids
  {
    NamesKnown(name);
    IdsRoundTrip(FieldOf(name), ids, Column(row, ColumnOf(maps, name).value));
  }
}
