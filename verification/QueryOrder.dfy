/** How a database reads the ORDER BY text of src/query.c: terms with commas between them, each a
    column, its collation and ASC or DESC.  Anything else is a syntax error. */
module QueryOrder {
  import opened Common
  import opened QueryFilters
  import opened QuerySort

  /** A column and whether it sorts descending. */
  type Term = (string, bool)

  /** One term, of which `col` has been read, and the text behind it. */
  function ReadTerm(col: string, s: string): (r: Option<(Term, string)>)
    ensures r.Some? ==> |r.value.1| < |s|
    decreases |s|
  {
    if s == "" then None
    else if " COLLATE NOCASE ASC" <= s then Some(((col, false), s[19..]))
    else if " COLLATE NOCASE DESC" <= s then Some(((col, true), s[20..]))
    else ReadTerm(col + [s[0]], s[1..])
  }

  function ReadTerms(s: string): Option<seq<Term>>
    decreases |s|
  {
    var t := ReadTerm("", s);
    if t.None? then None
    else if t.value.1 == "" then Some([t.value.0])
    else if !(", " <= t.value.1) then None
    else
      var more := ReadTerms(t.value.1[2..]);
      if more.None? then None else Some([t.value.0] + more.value)
  }

  /** Without any text there is no ORDER BY clause. */
  function ReadOrder(s: string): Option<seq<Term>> {
    if s == "" then Some([]) else ReadTerms(s)
  }

  // ---------------------------------------------------------------- what can be read back

  /** The collation does not begin inside the column. */
  predicate Sortable(col: string) {
    forall i :: 0 <= i < |col| ==> ClearAt(col, i)
  }

  predicate ClearAt(col: string, i: nat)
    requires i < |col|
  {
    col[i] == ' ' ==> i + 1 < |col| && (col[i + 1] == 'C' ==> i + 3 < |col| && col[i + 3] != 'L')
  }

  lemma SortableTail(col: string)
    requires Sortable(col) && col != ""
    ensures Sortable(col[1..])
  {
    forall i | 0 <= i < |col| - 1
      ensures ClearAt(col[1..], i)
    {
      assert ClearAt(col, i + 1);
    }
  }

  predicate SortableColumns(maps: Format) {
    forall f :: 0 <= f < FIELDS && Mapped(maps, f) ==> Sortable(maps[f].value)
  }

  function Collation(descending: bool): string {
    if descending then " COLLATE NOCASE DESC" else " COLLATE NOCASE ASC"
  }

  lemma CharAt(s: string, what: string, k: nat)
    requires k < |what|
    ensures what <= s ==> k < |s| && s[k] == what[k]
  {
    if what <= s {
      assert s[..|what|][k] == s[k];
    }
  }

  lemma StartsCollation(s: string, what: string)
    requires what == " COLLATE NOCASE ASC" || what == " COLLATE NOCASE DESC"
    ensures what <= s ==> |s| > 3 && s[0] == ' ' && s[1] == 'C' && s[3] == 'L'
  {
    CharAt(s, what, 0);
    CharAt(s, what, 1);
    CharAt(s, what, 3);
  }

  lemma OneCollation(s: string)
    ensures " COLLATE NOCASE ASC" <= s || " COLLATE NOCASE DESC" <= s ==>
      |s| > 3 && s[0] == ' ' && s[1] == 'C' && s[3] == 'L'
  {
    StartsCollation(s, " COLLATE NOCASE ASC");
    StartsCollation(s, " COLLATE NOCASE DESC");
  }

  lemma Behind(a: string, b: string)
    ensures a <= a + b && (a + b)[|a|..] == b
  {
  }

  lemma {:induction false} ReadsCollation(col: string, descending: bool, rest: string)
    ensures ReadTerm(col, Collation(descending) + rest) == Some(((col, descending), rest))
  {
    var s := Collation(descending) + rest;
    Behind(Collation(descending), rest);
    CharAt(s, " COLLATE NOCASE ASC", 16);
    assert s[16] == Collation(descending)[16];
  }

  lemma {:induction false} ReadsColumn(done: string, todo: string, s: string)
    requires Sortable(todo)
    ensures ReadTerm(done, todo + s) == ReadTerm(done + todo, s)
    decreases |todo|
  {
    if todo == "" {
      assert todo + s == s && done + todo == done;
    } else {
      OneCollation(todo + s);
      SortableTail(todo);
      assert ClearAt(todo, 0);
      assert (todo + s)[1..] == todo[1..] + s;
      ReadsColumn(done + [todo[0]], todo[1..], s);
      assert done + [todo[0]] + todo[1..] == done + todo;
    }
  }

  /** The column and the direction of a rule. */
  function TermOf(maps: Format, r: Rule): Term
    requires Mapped(maps, r.0)
  {
    (maps[r.0].value, r.1)
  }

  lemma {:induction false} ReadsRuleText(maps: Format, r: Rule, rest: string)
    requires SortableColumns(maps) && Mapped(maps, r.0)
    ensures ReadTerm("", RuleText(maps, r) + rest) == Some((TermOf(maps, r), rest))
  {
    var col := maps[r.0].value;
    assert RuleText(maps, r) + rest == col + (Collation(r.1) + rest);
    ReadsColumn("", col, Collation(r.1) + rest);
    assert "" + col == col;
    ReadsCollation(col, r.1, rest);
  }

  lemma {:induction false} ReadsLastTerm(maps: Format, r: Rule)
    requires SortableColumns(maps) && Mapped(maps, r.0)
    ensures ReadTerms(RuleText(maps, r)) == Some([TermOf(maps, r)])
  {
    ReadsRuleText(maps, r, "");
    assert RuleText(maps, r) + "" == RuleText(maps, r);
  }

  // ---------------------------------------------------------------- one rule more

  lemma Longer(s: string, more: string, what: string)
    requires |what| <= |s|
    ensures what <= s + more <==> what <= s
  {
    assert (s + more)[..|what|] == s[..|what|];
  }

  lemma {:induction false} TermIsLong(col: string, s: string)
    requires ReadTerm(col, s).Some?
    ensures |s| >= 19 && (" COLLATE NOCASE ASC" <= s || |s| >= 20)
    decreases |s|
  {
    if !(" COLLATE NOCASE ASC" <= s) && !(" COLLATE NOCASE DESC" <= s) {
      TermIsLong(col + [s[0]], s[1..]);
    }
  }

  /** A term that is read is read in the same way with more text behind it. */
  lemma {:induction false} TermStable(col: string, s: string, more: string)
    requires ReadTerm(col, s).Some?
    ensures ReadTerm(col, s + more) == Some((ReadTerm(col, s).value.0, ReadTerm(col, s).value.1 + more))
    decreases |s|
  {
    TermIsLong(col, s);
    Longer(s, more, " COLLATE NOCASE ASC");
    if " COLLATE NOCASE ASC" <= s {
      assert (s + more)[19..] == s[19..] + more;
    } else {
      Longer(s, more, " COLLATE NOCASE DESC");
      if " COLLATE NOCASE DESC" <= s {
        assert (s + more)[20..] == s[20..] + more;
      } else {
        assert (s + more)[1..] == s[1..] + more;
        TermStable(col + [s[0]], s[1..], more);
      }
    }
  }

  lemma {:induction false} FirstTerm(s: string, t: Term, text: string, more: seq<Term>)
    requires ReadTerm("", s) == Some((t, ", " + text)) && ReadTerms(text) == Some(more)
    ensures ReadTerms(s) == Some([t] + more)
  {
    Behind(", ", text);
  }

  /** A list that is read is one term, or a term, a comma and a list. */
  lemma {:induction false} TermsCases(s: string)
    requires ReadTerms(s).Some?
    ensures ReadTerm("", s).Some?
    ensures var (t, rest) := ReadTerm("", s).value;
      if rest == "" then ReadTerms(s) == Some([t])
      else
        && ", " <= rest && rest == ", " + rest[2..] && ReadTerms(rest[2..]).Some?
        && ReadTerms(s) == Some([t] + ReadTerms(rest[2..]).value)
  {
  }

  /** Two lists with a comma between them are read as one. */
  lemma {:induction false} TermsJoin(s: string, more: string, last: seq<Term>, all: seq<Term>)
    requires ReadTerms(s) == Some(all) && ReadTerms(more) == Some(last)
    ensures ReadTerms(s + (", " + more)) == Some(all + last)
    decreases |s|
  {
    TermsCases(s);
    var (t, rest) := ReadTerm("", s).value;
    TermStable("", s, ", " + more);
    if rest == "" {
      assert rest + (", " + more) == ", " + more;
      FirstTerm(s + (", " + more), t, more, last);
    } else {
      var text, terms := rest[2..], ReadTerms(rest[2..]).value;
      TermsJoin(text, more, last, terms);
      CommaFirst(rest, text, more);
      FirstTerm(s + (", " + more), t, text + (", " + more), terms + last);
      Regroup([t], terms, last);
    }
  }

  lemma CommaFirst(rest: string, text: string, more: string)
    requires rest == ", " + text
    ensures rest + (", " + more) == ", " + (text + (", " + more))
  {
  }

  lemma Regroup(a: seq<Term>, b: seq<Term>, c: seq<Term>)
    ensures a + (b + c) == a + b + c
  {
  }

  /** query_sort puts one term behind all others, or none if the query has no such column. */
  lemma {:induction false} AddsTerm(order: string, maps: Format, r: Rule)
    requires SortableColumns(maps) && ReadOrder(order).Some?
    ensures ReadOrder(AddRule(order, maps, r))
         == Some(ReadOrder(order).value + if Mapped(maps, r.0) then [TermOf(maps, r)] else [])
  {
    var terms := ReadOrder(order).value;
    if !Mapped(maps, r.0) {
      assert terms + [] == terms;
    } else {
      ReadsLastTerm(maps, r);
      if order == "" {
        assert [] + [TermOf(maps, r)] == [TermOf(maps, r)];
        assert order + RuleText(maps, r) == RuleText(maps, r);
      } else {
        TermsJoin(order, RuleText(maps, r), [TermOf(maps, r)], terms);
        assert order + ", " + RuleText(maps, r) == order + (", " + RuleText(maps, r));
      }
    }
  }

  // ---------------------------------------------------------------- what a client asks for

  /** The column that a name of the interface stands for in one kind of query. */
  function ColumnOf(maps: Format, name: string): Option<string> {
    if FieldOf(name) == 0 then None else maps[FieldOf(name)]
  }

  predicate Known(rules: seq<NamedRule>) {
    forall i :: 0 <= i < |rules| ==> FieldOf(rules[i].0) != 0
  }

  /** The column and the direction of one rule; nothing for a name that the query has no column for. */
  function AskedTerm(maps: Format, r: NamedRule): seq<Term> {
    var col := ColumnOf(maps, r.0);
    if col.None? then [] else [(col.value, r.1)]
  }

  /** The same for a list, in order. */
  function AskedTerms(maps: Format, rules: seq<NamedRule>): seq<Term> {
    if rules == [] then [] else AskedTerm(maps, rules[0]) + AskedTerms(maps, rules[1..])
  }

  lemma {:induction false} AddsFirst(order: string, maps: Format, rules: seq<NamedRule>)
    requires SortableColumns(maps) && ReadOrder(order).Some? && Known(rules) && rules != []
    ensures var added := AddRule(order, maps, Fields(rules)[0]);
      && ReadOrder(added) == Some(ReadOrder(order).value + AskedTerm(maps, rules[0]))
      && AddRules(order, maps, Fields(rules)) == AddRules(added, maps, Fields(rules[1..]))
  {
    AddsTerm(order, maps, Fields(rules)[0]);
    assert Fields(rules)[1..] == Fields(rules[1..]);
  }

  lemma {:induction false} AddsTerms(order: string, maps: Format, rules: seq<NamedRule>, terms: seq<Term>)
    requires SortableColumns(maps) && ReadOrder(order) == Some(terms) && Known(rules)
    ensures ReadOrder(AddRules(order, maps, Fields(rules))) == Some(terms + AskedTerms(maps, rules))
    decreases |rules|
  {
    if rules == [] {
      assert terms + [] == terms;
    } else {
      var first := AskedTerm(maps, rules[0]);
      AddsFirst(order, maps, rules);
      AddsTerms(AddRule(order, maps, Fields(rules)[0]), maps, rules[1..], terms + first);
      Regroup(terms, first, AskedTerms(maps, rules[1..]));
    }
  }

  /** After any list of terms, and then any sort argument written the documented way, a database reads
      in the ORDER BY text these terms and the columns of the names it has columns for, in order:
      descending where the client has put the sign, ascending elsewhere. */
  lemma {:induction false} SortMeaning(order: string, maps: Format, rules: seq<NamedRule>)
    requires SortableColumns(maps) && ReadOrder(order).Some? && Known(rules)
    ensures ParseSort(SortSource(rules)).1
    ensures ReadOrder(AddRules(order, maps, ParseSort(SortSource(rules)).0))
         == Some(ReadOrder(order).value + AskedTerms(maps, rules))
  {
    ReadsSort(rules);
    AddsTerms(order, maps, rules, ReadOrder(order).value);
  }

  // ---------------------------------------------------------------- the three formats

  lemma SortableConcat(a: string, b: string)
    requires Sortable(a) && Sortable(b)
    ensures Sortable(a + b)
  {
    forall i | 0 <= i < |a + b|
      ensures ClearAt(a + b, i)
    {
      assert if i < |a| then ClearAt(a, i) else ClearAt(b, i - |a|);
    }
  }

  lemma TitleSortable()
    ensures Sortable("(COALESCE(tracks.title, '') ||")
  {
  }

  lemma ArtistSortable()
    ensures Sortable(" COALESCE(tracks.artist, '') ||")
  {
  }

  lemma AlbumSortable()
    ensures Sortable(" COALESCE(tracks.album, ''))")
  {
  }

  lemma SearchSortable()
    ensures Sortable(TRACKS_SEARCH)
  {
    TitleSortable();
    ArtistSortable();
    AlbumSortable();
    var title, artist := "(COALESCE(tracks.title, '') ||", " COALESCE(tracks.artist, '') ||";
    SortableConcat(title, artist);
    SortableConcat(title + artist, " COALESCE(tracks.album, ''))");
  }

  lemma TrackIdsSortable()
    ensures Sortable("tracks.rowid") && Sortable("tracks.artistid") && Sortable("tracks.albumid")
  {
  }

  lemma TrackNamesSortable()
    ensures Sortable("tracks.title") && Sortable("tracks.artist") && Sortable("tracks.album")
  {
  }

  lemma TrackDataSortable()
    ensures Sortable("tracks.track") && Sortable("tracks.duration") && Sortable("tracks.file")
  {
  }

  lemma ArtistNamesSortable()
    ensures Sortable("artists.rowid") && Sortable("artists.name") && Sortable("(COALESCE(artists.name, ''))")
  {
  }

  lemma AlbumNamesSortable()
    ensures Sortable("albums.rowid") && Sortable("albums.name") && Sortable("albums.tracks")
    ensures Sortable("(COALESCE(albums.name, ''))")
  {
  }

  /** Every column of the three queries can be told from the collation behind it. */
  lemma FormatsSortable()
    ensures SortableColumns(TRACKS) && SortableColumns(ARTISTS) && SortableColumns(ALBUMS)
  {
    TrackIdsSortable();
    TrackNamesSortable();
    TrackDataSortable();
    SearchSortable();
    ArtistNamesSortable();
    AlbumNamesSortable();
  }
}
