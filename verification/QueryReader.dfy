/** How a database reads the WHERE text of src/query.c: a conjunction of conditions, each a column
    with LIKE, NOT LIKE or a parenthesised list.  Anything else is a syntax error. */
module QueryReader {
  import opened Common
  import opened QueryFilters

  /** Up to the closing parenthesis. */
  function ListLength(s: string): (n: nat)
    ensures n <= |s|
  {
    if s == "" || s[0] == ')' then 0 else 1 + ListLength(s[1..])
  }

  /** One condition, of which `col` has been read, and the text behind it. */
  function ReadExpr(col: string, s: string): (r: Option<(Expr, string)>)
    ensures r.Some? ==> |r.value.1| < |s|
    decreases |s|
  {
    if s == "" then None
    else if " LIKE ?" <= s then Some((Like(col), s[7..]))
    else if " NOT LIKE ?" <= s then Some((NotLike(col), s[11..]))
    else if " IN (" <= s then
      var n := ListLength(s[5..]);
      if n == |s[5..]| then None else Some((In(col, s[5..][..n]), s[5..][n + 1..]))
    else ReadExpr(col + [s[0]], s[1..])
  }

  function ReadExprs(s: string): Option<Where>
    decreases |s|
  {
    var e := ReadExpr("", s);
    if e.None? then None
    else if e.value.1 == "" then Some([e.value.0])
    else if !(" AND " <= e.value.1) then None
    else
      var more := ReadExprs(e.value.1[5..]);
      if more.None? then None else Some([e.value.0] + more.value)
  }

  function ReadWhere(s: string): Option<Where> {
    if s == "" then Some([]) else if "WHERE " <= s then ReadExprs(s[6..]) else None
  }

  // ---------------------------------------------------------------- what can be read back

  /** No operator begins inside the column: behind a space comes something else. */
  predicate Readable(col: string) {
    forall i :: 0 <= i < |col| && col[i] == ' ' ==> i + 1 < |col| && col[i + 1] !in "LNI"
  }

  predicate ReadableExpr(e: Expr) {
    Readable(e.col) && (e.In? ==> ')' !in e.ids)
  }

  predicate ReadableAll(w: Where) {
    forall i :: 0 <= i < |w| ==> ReadableExpr(w[i])
  }

  function Operator(e: Expr): string {
    match e
    case Like(_) => " LIKE ?"
    case NotLike(_) => " NOT LIKE ?"
    case In(_, ids) => " IN (" + ids + ")"
  }

  lemma OperatorText(e: Expr)
    ensures ExprText(e) == e.col + Operator(e)
  {
  }

  lemma Behind(a: string, b: string)
    ensures a <= a + b && (a + b)[|a|..] == b
  {
  }

  lemma {:induction false} ListLengthAt(ids: string, rest: string)
    requires ')' !in ids
    ensures ListLength(ids + ")" + rest) == |ids|
    decreases |ids|
  {
    var s := ids + ")" + rest;
    if ids != "" {
      assert s[1..] == ids[1..] + ")" + rest;
      ListLengthAt(ids[1..], rest);
    }
  }

  lemma ListAt(ids: string, rest: string)
    requires ')' !in ids
    ensures var s := ids + ")" + rest;
      ListLength(s) == |ids| < |s| && s[..|ids|] == ids && s[|ids| + 1..] == rest
  {
    ListLengthAt(ids, rest);
  }

  lemma SecondChar(s: string, what: string)
    requires |what| > 1
    ensures what <= s ==> |s| > 1 && s[0] == what[0] && s[1] == what[1]
  {
    if what <= s {
      assert s[..|what|][0] == s[0] && s[..|what|][1] == s[1];
    }
  }

  /** The operators differ in their second character. */
  lemma OneOperator(s: string)
    ensures " LIKE ?" <= s ==> |s| > 1 && s[0] == ' ' && s[1] == 'L'
    ensures " NOT LIKE ?" <= s ==> |s| > 1 && s[0] == ' ' && s[1] == 'N'
    ensures " IN (" <= s ==> |s| > 1 && s[0] == ' ' && s[1] == 'I'
  {
    SecondChar(s, " LIKE ?");
    SecondChar(s, " NOT LIKE ?");
    SecondChar(s, " IN (");
  }

  /** The operator, once the whole column has been read. */
  lemma {:induction false} ReadsOperator(e: Expr, rest: string)
    requires ReadableExpr(e)
    ensures ReadExpr(e.col, Operator(e) + rest) == Some((e, rest))
  {
    var s := Operator(e) + rest;
    match e
    case Like(_) => Behind(" LIKE ?", rest);
    case NotLike(_) =>
      Behind(" NOT LIKE ?", rest);
      OneOperator(s);
    case In(col, ids) =>
      InRegroup(ids, rest);
      Behind(" IN (", ids + ")" + rest);
      OneOperator(s);
      ListAt(ids, rest);
  }

  lemma InRegroup(ids: string, rest: string)
    ensures " IN (" + ids + ")" + rest == " IN (" + (ids + ")" + rest)
  {
  }

  /** The column character by character. */
  lemma {:induction false} ReadsColumn(done: string, todo: string, s: string)
    requires Readable(todo)
    ensures ReadExpr(done, todo + s) == ReadExpr(done + todo, s)
    decreases |todo|
  {
    if todo == "" {
      assert todo + s == s && done + todo == done;
    } else {
      OneOperator(todo + s);
      assert (todo + s)[1..] == todo[1..] + s;
      ReadsColumn(done + [todo[0]], todo[1..], s);
      assert done + [todo[0]] + todo[1..] == done + todo;
    }
  }

  lemma {:induction false} ReadsExpr(e: Expr, rest: string)
    requires ReadableExpr(e)
    ensures ReadExpr("", ExprText(e) + rest) == Some((e, rest))
  {
    OperatorText(e);
    assert e.col + Operator(e) + rest == e.col + (Operator(e) + rest);
    ReadsColumn("", e.col, Operator(e) + rest);
    assert "" + e.col == e.col;
    ReadsOperator(e, rest);
  }

  // ---------------------------------------------------------------- conjunctions

  /** The text of a conjunction, grouped the way it is read. */
  function ExprsText(w: Where): string
    requires w != []
  {
    if |w| == 1 then ExprText(w[0]) else ExprText(w[0]) + (" AND " + ExprsText(w[1..]))
  }

  lemma {:induction false} ExprsTextLast(w: Where, e: Expr)
    requires w != []
    ensures ExprsText(w + [e]) == ExprsText(w) + " AND " + ExprText(e)
    decreases |w|
  {
    assert (w + [e])[1..] == w[1..] + [e];
    if |w| > 1 {
      ExprsTextLast(w[1..], e);
    } else {
      assert w[1..] == [];
    }
  }

  lemma WhereRegroup(a: string, b: string)
    ensures "WHERE " + a + " AND " + b == "WHERE " + (a + " AND " + b)
  {
  }

  lemma {:induction false} AppendsOne(done: Where, e: Expr)
    ensures WhereText(done + [e]) == WhereText(done) + (if done == [] then "WHERE " else " AND ") + ExprText(e)
  {
    assert (done + [e])[..|done|] == done;
  }

  lemma WhereOne(e: Expr)
    ensures WhereText([e]) == "WHERE " + ExprsText([e])
  {
    AppendsOne([], e);
    assert [] + [e] == [e];
    assert "" + "WHERE " == "WHERE ";
  }

  lemma {:induction false} WhereMore(front: Where, e: Expr)
    requires front != [] && WhereText(front) == "WHERE " + ExprsText(front)
    ensures WhereText(front + [e]) == "WHERE " + ExprsText(front + [e])
  {
    AppendsOne(front, e);
    ExprsTextLast(front, e);
    WhereRegroup(ExprsText(front), ExprText(e));
  }

  lemma {:induction false} WhereIsExprs(w: Where)
    requires w != []
    ensures WhereText(w) == "WHERE " + ExprsText(w)
    decreases |w|
  {
    var front, e := w[..|w| - 1], w[|w| - 1];
    assert w == front + [e];
    if front == [] {
      WhereOne(e);
      assert w == [e];
    } else {
      WhereIsExprs(front);
      WhereMore(front, e);
    }
  }

  lemma ReadsLast(e: Expr)
    requires ReadableExpr(e)
    ensures ReadExprs(ExprText(e)) == Some([e])
  {
    ReadsExpr(e, "");
    assert ExprText(e) + "" == ExprText(e);
  }

  lemma {:induction false} ReadsAnd(e: Expr, text: string, more: Where)
    requires ReadableExpr(e) && ReadExprs(text) == Some(more)
    ensures ReadExprs(ExprText(e) + (" AND " + text)) == Some([e] + more)
  {
    ReadsExpr(e, " AND " + text);
    Behind(" AND ", text);
  }

  lemma {:induction false} ReadsExprs(w: Where)
    requires w != [] && ReadableAll(w)
    ensures ReadExprs(ExprsText(w)) == Some(w)
    decreases |w|
  {
    var e, more := w[0], w[1..];
    assert w == [e] + more;
    if more == [] {
      ReadsLast(e);
      assert w == [e];
    } else {
      ReadsExprs(more);
      ReadsAnd(e, ExprsText(more), more);
    }
  }

  lemma {:induction false} ReadsWhere(w: Where)
    requires ReadableAll(w)
    ensures ReadWhere(WhereText(w)) == Some(w)
  {
    if w != [] {
      WhereIsExprs(w);
      ReadsExprs(w);
      Behind("WHERE ", ExprsText(w));
    }
  }

  // ---------------------------------------------------------------- the three formats

  predicate ReadableColumns(maps: Format) {
    forall f :: 0 <= f < FIELDS && Mapped(maps, f) ==> Readable(maps[f].value)
  }

  lemma {:induction false} CompiledReadable(maps: Format, fs: Filters, f: nat)
    requires 1 <= f <= FIELDS && Stored(fs) && ReadableColumns(maps)
    ensures ReadableAll(Compiled(maps, fs, f))
    decreases FIELDS - f, fs
  {
    if f < FIELDS {
      CompiledReadable(maps, fs, f + 1);
      assert ReadableAll(FieldExprs(maps, fs, f)) by {
        if IsId(f) && Set(fs, f) {
          assert forall i :: 0 <= i < |fs[f].value| ==> IsIdChar(fs[f].value[i]);
        }
      }
    }
  }

  /** What the database reads in the text of build_filters is the conjunction it was built from,
      because id filters hold digits and commas only. */
  lemma {:induction false} ReadsCompiled(maps: Format, fs: Filters)
    requires Stored(fs) && ReadableColumns(maps)
    ensures ReadWhere(WhereText(Compiled(maps, fs, 1))) == Some(Compiled(maps, fs, 1))
  {
    CompiledReadable(maps, fs, 1);
    ReadsWhere(Compiled(maps, fs, 1));
  }

  lemma ReadableConcat(a: string, b: string)
    requires Readable(a) && Readable(b)
    ensures Readable(a + b)
  {
  }

  lemma TitleReadable()
    ensures Readable("(COALESCE(tracks.title, '') ||")
  {
  }

  lemma ArtistReadable()
    ensures Readable(" COALESCE(tracks.artist, '') ||")
  {
  }

  lemma AlbumReadable()
    ensures Readable(" COALESCE(tracks.album, ''))")
  {
  }

  lemma SearchReadable()
    ensures Readable(TRACKS_SEARCH)
  {
    TitleReadable();
    ArtistReadable();
    AlbumReadable();
    ReadableConcat("(COALESCE(tracks.title, '') ||", " COALESCE(tracks.artist, '') ||");
    var title, artist := "(COALESCE(tracks.title, '') ||", " COALESCE(tracks.artist, '') ||";
    ReadableConcat(title + artist, " COALESCE(tracks.album, ''))");
  }

  lemma TrackIdsReadable()
    ensures Readable("tracks.rowid") && Readable("tracks.artistid") && Readable("tracks.albumid")
  {
  }

  lemma TrackNamesReadable()
    ensures Readable("tracks.title") && Readable("tracks.artist") && Readable("tracks.album")
  {
  }

  lemma TrackDataReadable()
    ensures Readable("tracks.track") && Readable("tracks.duration") && Readable("tracks.file")
  {
  }

  lemma ArtistNamesReadable()
    ensures Readable("artists.rowid") && Readable("artists.name") && Readable("(COALESCE(artists.name, ''))")
  {
  }

  lemma AlbumNamesReadable()
    ensures Readable("albums.rowid") && Readable("albums.name") && Readable("albums.tracks")
    ensures Readable("(COALESCE(albums.name, ''))")
  {
  }

  lemma TracksReadable()
    ensures ReadableColumns(TRACKS)
  {
    TrackIdsReadable();
    TrackNamesReadable();
    TrackDataReadable();
    SearchReadable();
  }

  lemma ArtistsReadable()
    ensures ReadableColumns(ARTISTS)
  {
    ArtistNamesReadable();
  }

  lemma AlbumsReadable()
    ensures ReadableColumns(ALBUMS)
  {
    AlbumNamesReadable();
  }
}
