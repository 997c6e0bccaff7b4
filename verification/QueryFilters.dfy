/** The filter compiler of src/query.c: one pass writes the WHERE clause with placeholders, a
    separate pass binds values by position. */
module QueryFilters {
  import opened Common
  import opened Like
  import JsonParser
  import Json

  // ---------------------------------------------------------------- fields and formats

  const TITLE := 4
  const ARTIST := 5
  const DIRECTORY := 10
  const DIRECTORYPREFIX := 11
  const ALL := 12
  const FIELDS := 13

  predicate IsId(f: nat) {
    1 <= f <= 3
  }

  predicate IsLike(f: nat) {
    4 <= f <= 6 || f == ALL
  }

  /** The SQL expression each field stands for, in one kind of query. */
  type Format = maps: seq<Option<string>> | |maps| == FIELDS witness seq(FIELDS, _ => None)

  const TRACKS_SEARCH :=
    "(COALESCE(tracks.title, '') ||" + " COALESCE(tracks.artist, '') ||" + " COALESCE(tracks.album, ''))"

  const TRACKS: Format :=
    var maps: seq<Option<string>> := [
      None, Some("tracks.rowid"), Some("tracks.artistid"), Some("tracks.albumid"), Some("tracks.title"),
      Some("tracks.artist"), Some("tracks.album"), Some("tracks.track"), Some("tracks.duration"), None,
      Some("tracks.file"), Some("tracks.file"),
      Some(TRACKS_SEARCH)];
    assert |maps| == FIELDS;
    maps

  const ARTISTS: Format := [
    None, None, Some("artists.rowid"), None, None, Some("artists.name"), None, None, None, None, None, None,
    Some("(COALESCE(artists.name, ''))")]

  const ALBUMS: Format := [
    None, None, None, Some("albums.rowid"), None, None, Some("albums.name"), None, None, Some("albums.tracks"),
    None, None,
    Some("(COALESCE(albums.name, ''))")]

  /** query->filters, already in the form query_filter gives them */
  type Filters = fs: seq<Option<string>> | |fs| == FIELDS witness seq(FIELDS, _ => None)

  // ---------------------------------------------------------------- setting a filter

  predicate IsIdChar(c: char) {
    c == ',' || JsonParser.IsDigit(c)
  }

  /** Of an id filter only the digits and commas are kept. */
  function Sanitized(s: string): string {
    if s == "" then "" else (if IsIdChar(s[0]) then [s[0]] else "") + Sanitized(s[1..])
  }

  /** query_filter */
  function FilterText(f: nat, text: string): string {
    if IsId(f) then Sanitized(text) else if IsLike(f) then "%" + text + "%" else text
  }

  // ---------------------------------------------------------------- the SQL

  datatype Expr = Like(col: string) | NotLike(col: string) | In(col: string, ids: string)

  /** A WHERE clause is a conjunction; '?' marks where a value will be bound. */
  type Where = seq<Expr>

  function ExprText(e: Expr): string {
    match e
    case Like(col) => col + " LIKE ?"
    case NotLike(col) => col + " NOT LIKE ?"
    case In(col, ids) => col + " IN (" + ids + ")"
  }

  function WhereText(w: Where): string {
    if w == [] then ""
    else WhereText(w[..|w| - 1]) + (if |w| == 1 then "WHERE " else " AND ") + ExprText(w[|w| - 1])
  }

  predicate Set(fs: Filters, f: nat) {
    f < FIELDS && fs[f].Some?
  }

  predicate Mapped(maps: Format, f: nat) {
    f < FIELDS && maps[f].Some?
  }

  /** What build_filters writes for one field. */
  function FieldExprs(maps: Format, fs: Filters, f: nat): Where {
    if !Set(fs, f) || !Mapped(maps, f) then []
    else
      var col := maps[f].value;
      if IsId(f) then [In(col, fs[f].value)]
      else if f == DIRECTORY then [Like(col), NotLike(col)]
      else [Like(col)]
  }

  function Compiled(maps: Format, fs: Filters, f: nat): Where
    requires f <= FIELDS
    decreases FIELDS - f, fs
  {
    if f == FIELDS then [] else FieldExprs(maps, fs, f) + Compiled(maps, fs, f + 1)
  }

  /** What bind_filters binds for one field; it does not look at the maps. */
  function FieldValues(root: string, fs: Filters, f: nat): seq<string> {
    if !Set(fs, f) || IsId(f) then []
    else
      var text := fs[f].value;
      if f == DIRECTORY then [root + text + "%", root + text + "%/%"]
      else if f == DIRECTORYPREFIX then [root + text + "%"]
      else [text]
  }

  function Bound(root: string, fs: Filters, f: nat): seq<string>
    requires f <= FIELDS
    decreases FIELDS - f, fs
  {
    if f == FIELDS then [] else FieldValues(root, fs, f) + Bound(root, fs, f + 1)
  }

  // ---------------------------------------------------------------- evaluation

  datatype Value = Null | Integer(n: int) | Text(s: string)

  /** The values of SQL expressions in one row; what is missing is NULL. */
  datatype Row = Row(id: int, cols: map<string, Value>)

  function Column(row: Row, col: string): Value {
    if col in row.cols then row.cols[col] else Null
  }

  /** The operand of LIKE is converted to text. */
  function AsText(v: Value): Option<string> {
    match v
    case Null => None
    case Integer(n) => Some(Json.IntText(n))
    case Text(s) => Some(s)
  }

  /** NULL LIKE anything is neither true nor false. */
  predicate IsLikeTrue(v: Value, pattern: string) {
    AsText(v).Some? && Matches(pattern, AsText(v).value)
  }

  predicate IsNotLikeTrue(v: Value, pattern: string) {
    AsText(v).Some? && !Matches(pattern, AsText(v).value)
  }

  /** A list of numbers as SQL reads it between the parentheses of IN; None is a syntax error. */
  function ParseIds(text: string): Option<seq<nat>> {
    if text == "" then Some([]) else ParseIdList(text)
  }

  function ParseIdList(text: string): Option<seq<nat>>
    decreases |text|
  {
    if text == "" || !JsonParser.IsDigit(text[0]) then None
    else
      var r := JsonParser.DigitsFrom(0, text);
      if r.rest == "" then Some([r.value])
      else if r.rest[0] != ',' then None
      else
        var more := ParseIdList(r.rest[1..]);
        if more.None? then None else Some([r.value] + more.value)
  }

  predicate IsInTrue(v: Value, ids: string) {
    v.Integer? && ParseIds(ids).Some? && v.n in ParseIds(ids).value
  }

  /** The k-th placeholder takes the k-th bound value; one that none is bound to is NULL, and
      values beyond the last placeholder are ignored. */
  predicate Evaluate(w: Where, values: seq<string>, row: Row)
    decreases |w|
  {
    w == [] ||
    match w[0]
    case In(col, ids) => IsInTrue(Column(row, col), ids) && Evaluate(w[1..], values, row)
    case Like(col) => values != [] && IsLikeTrue(Column(row, col), values[0]) && Evaluate(w[1..], values[1..], row)
    case NotLike(col) =>
      values != [] && IsNotLikeTrue(Column(row, col), values[0]) && Evaluate(w[1..], values[1..], row)
  }

  // ---------------------------------------------------------------- meaning

  /** What one filter asks of a row. */
  predicate Satisfies(root: string, maps: Format, f: nat, text: string, row: Row)
    requires Mapped(maps, f)
  {
    var v := Column(row, maps[f].value);
    if IsId(f) then IsInTrue(v, text)
    else if f == DIRECTORY then AsText(v).Some? && InDirectory(root + text, AsText(v).value)
    else if f == DIRECTORYPREFIX then IsLikeTrue(v, root + text + "%")
    else IsLikeTrue(v, text)
  }

  /** Every filter that the format has a column for, from field `f` on. */
  predicate SatisfiesAll(root: string, maps: Format, fs: Filters, f: nat, row: Row) {
    forall g :: f <= g < FIELDS && Set(fs, g) && Mapped(maps, g) ==> Satisfies(root, maps, g, fs[g].value, row)
  }

  // ---------------------------------------------------------------- alignment

  /** Which value a placeholder wants, and which value each binding is: a field and the number
      of the slot in it. */
  type Tag = (nat, nat)

  function Slots(f: nat): seq<Tag> {
    if f == DIRECTORY then [(f, 0), (f, 1)] else [(f, 0)]
  }

  predicate TextFilter(fs: Filters, f: nat) {
    Set(fs, f) && !IsId(f)
  }

  function Wanted(maps: Format, fs: Filters, f: nat): seq<Tag>
    requires f <= FIELDS
    decreases FIELDS - f, fs
  {
    if f == FIELDS then []
    else (if TextFilter(fs, f) && Mapped(maps, f) then Slots(f) else []) + Wanted(maps, fs, f + 1)
  }

  function Given(fs: Filters, f: nat): seq<Tag>
    requires f <= FIELDS
    decreases FIELDS - f, fs
  {
    if f == FIELDS then [] else (if TextFilter(fs, f) then Slots(f) else []) + Given(fs, f + 1)
  }

  /** No text filter on an unmapped field comes before a text filter on a mapped one. */
  predicate NoGap(maps: Format, fs: Filters, f: nat) {
    forall g, h :: f <= g < h < FIELDS && TextFilter(fs, g) && TextFilter(fs, h) && Mapped(maps, h) ==> Mapped(maps, g)
  }

  lemma {:induction false} WantedLater(maps: Format, fs: Filters, f: nat)
    requires f <= FIELDS
    ensures forall t :: t in Wanted(maps, fs, f) ==> t.0 >= f
    ensures Wanted(maps, fs, f) == [] <==> forall g :: f <= g < FIELDS && TextFilter(fs, g) ==> !Mapped(maps, g)
    decreases FIELDS - f, fs
  {
    if f < FIELDS {
      WantedLater(maps, fs, f + 1);
    }
  }

  lemma PrefixSameHead(h: seq<Tag>, a: seq<Tag>, b: seq<Tag>)
    ensures h + a <= h + b <==> a <= b
  {
    if h + a <= h + b {
      assert a == (h + a)[|h|..] && b == (h + b)[|h|..];
      assert forall i :: 0 <= i < |a| ==> a[i] == (h + a)[|h| + i] == (h + b)[|h| + i] == b[i];
    }
  }

  lemma NoGapStep(maps: Format, fs: Filters, f: nat)
    requires f < FIELDS
    ensures NoGap(maps, fs, f) <==>
      NoGap(maps, fs, f + 1) && (TextFilter(fs, f) && !Mapped(maps, f) ==> Wanted(maps, fs, f + 1) == [])
  {
    WantedLater(maps, fs, f + 1);
  }

  /** A gap at `f`: the first value bound is one that no placeholder wants. */
  lemma GapAt(f: nat, a: seq<Tag>, b: seq<Tag>)
    requires forall t :: t in a ==> t.0 > f
    ensures a <= Slots(f) + b <==> a == []
  {
    assert a != [] ==> a[0] in a;
    assert (Slots(f) + b)[0] == (f, 0);
  }

  /** One field on top of lists that are aligned or not. */
  lemma AlignmentStep(f: nat, text: bool, mapped: bool, a: seq<Tag>, b: seq<Tag>)
    requires forall t :: t in a ==> t.0 > f
    ensures (if text && mapped then Slots(f) else []) + a <= (if text then Slots(f) else []) + b <==>
      a <= b && (text && !mapped ==> a == [])
  {
    if !text {
      assert [] + a == a && [] + b == b;
    } else if mapped {
      PrefixSameHead(Slots(f), a, b);
    } else {
      assert [] + a == a;
      GapAt(f, a, b);
    }
  }

  /** The k-th value bound is the one that the k-th placeholder wants, for every placeholder, if
      and only if no unmapped text filter precedes a mapped one. */
  lemma {:induction false} Alignment(maps: Format, fs: Filters, f: nat)
    requires f <= FIELDS
    ensures Wanted(maps, fs, f) <= Given(fs, f) <==> NoGap(maps, fs, f)
    decreases FIELDS - f, fs
  {
    if f < FIELDS {
      Alignment(maps, fs, f + 1);
      NoGapStep(maps, fs, f);
      WantedLater(maps, fs, f + 1);
      AlignmentStep(f, TextFilter(fs, f), Mapped(maps, f), Wanted(maps, fs, f + 1), Given(fs, f + 1));
    }
  }

  /** The value that belongs to a slot. */
  function SlotText(root: string, fs: Filters, t: Tag): string
    requires Set(fs, t.0)
  {
    var text := fs[t.0].value;
    if t.0 == DIRECTORY then root + text + (if t.1 == 0 then "%" else "%/%")
    else if t.0 == DIRECTORYPREFIX then root + text + "%"
    else text
  }

  /** The k-th value that bind_filters binds is the one of the k-th slot given. */
  ghost predicate BindsSlots(root: string, fs: Filters, values: seq<string>, tags: seq<Tag>) {
    |values| == |tags|
    && forall k :: 0 <= k < |tags| ==> Set(fs, tags[k].0) && values[k] == SlotText(root, fs, tags[k])
  }

  lemma FieldSlots(root: string, fs: Filters, f: nat)
    ensures BindsSlots(root, fs, FieldValues(root, fs, f), if TextFilter(fs, f) then Slots(f) else [])
  {
  }

  lemma BindsConcat(root: string, fs: Filters, vs: seq<string>, ts: seq<Tag>, vs': seq<string>, ts': seq<Tag>)
    requires BindsSlots(root, fs, vs, ts) && BindsSlots(root, fs, vs', ts')
    ensures BindsSlots(root, fs, vs + vs', ts + ts')
  {
  }

  lemma {:induction false} BoundSlots(root: string, fs: Filters, f: nat)
    requires f <= FIELDS
    ensures BindsSlots(root, fs, Bound(root, fs, f), Given(fs, f))
    decreases FIELDS - f, fs
  {
    if f < FIELDS {
      BoundSlots(root, fs, f + 1);
      FieldSlots(root, fs, f);
      BindsConcat(root, fs, FieldValues(root, fs, f), if TextFilter(fs, f) then Slots(f) else [],
                  Bound(root, fs, f + 1), Given(fs, f + 1));
    }
  }

  /** The conditions with a placeholder. */
  function Marked(w: Where): seq<Expr> {
    if w == [] then [] else (if w[0].In? then [] else [w[0]]) + Marked(w[1..])
  }

  /** The condition whose placeholder a slot is. */
  function SlotExpr(maps: Format, t: Tag): Expr
    requires Mapped(maps, t.0)
  {
    if t == (DIRECTORY, 1) then NotLike(maps[t.0].value) else Like(maps[t.0].value)
  }

  ghost predicate MarksSlots(maps: Format, exprs: seq<Expr>, tags: seq<Tag>) {
    |exprs| == |tags|
    && forall k :: 0 <= k < |tags| ==> Mapped(maps, tags[k].0) && exprs[k] == SlotExpr(maps, tags[k])
  }

  lemma {:induction false} MarkedConcat(a: Where, b: Where)
    ensures Marked(a + b) == Marked(a) + Marked(b)
    decreases |a|
  {
    if a == [] {
      assert a + b == b;
    } else {
      assert (a + b)[1..] == a[1..] + b;
      MarkedConcat(a[1..], b);
    }
  }

  lemma MarkedOne(e: Expr)
    ensures Marked([e]) == if e.In? then [] else [e]
  {
    assert [e][1..] == [];
  }

  lemma MarkedField(maps: Format, fs: Filters, f: nat)
    ensures MarksSlots(
      maps, Marked(FieldExprs(maps, fs, f)), if TextFilter(fs, f) && Mapped(maps, f) then Slots(f) else [])
  {
    if Set(fs, f) && Mapped(maps, f) {
      var col := maps[f].value;
      if IsId(f) {
        MarkedOne(In(col, fs[f].value));
      } else if f == DIRECTORY {
        MarkedOne(Like(col));
        MarkedOne(NotLike(col));
        MarkedConcat([Like(col)], [NotLike(col)]);
        assert [Like(col)] + [NotLike(col)] == [Like(col), NotLike(col)];
      } else {
        MarkedOne(Like(col));
      }
    }
  }

  /** The k-th placeholder that build_filters writes is the one of the k-th slot wanted. */
  lemma {:induction false} CompiledSlots(maps: Format, fs: Filters, f: nat)
    requires f <= FIELDS
    ensures MarksSlots(maps, Marked(Compiled(maps, fs, f)), Wanted(maps, fs, f))
    decreases FIELDS - f, fs
  {
    if f < FIELDS {
      CompiledSlots(maps, fs, f + 1);
      MarkedField(maps, fs, f);
      MarkedConcat(FieldExprs(maps, fs, f), Compiled(maps, fs, f + 1));
    }
  }

  /** So without a gap the k-th value bound is the one that the k-th placeholder's condition is for. */
  lemma {:induction false} AlignedValues(root: string, maps: Format, fs: Filters, k: nat)
    requires NoGap(maps, fs, 1) && k < |Marked(Compiled(maps, fs, 1))|
    ensures k < |Bound(root, fs, 1)|
    ensures exists t: Tag :: SameSlot(root, maps, fs, t, Marked(Compiled(maps, fs, 1))[k], Bound(root, fs, 1)[k])
  {
    Alignment(maps, fs, 1);
    CompiledSlots(maps, fs, 1);
    BoundSlots(root, fs, 1);
    var t := Wanted(maps, fs, 1)[k];
    assert Given(fs, 1)[k] == t;
    assert SameSlot(root, maps, fs, t, Marked(Compiled(maps, fs, 1))[k], Bound(root, fs, 1)[k]);
  }

  /** The condition and the value belong to the same slot of the same filter. */
  predicate SameSlot(root: string, maps: Format, fs: Filters, t: Tag, e: Expr, value: string) {
    Set(fs, t.0) && Mapped(maps, t.0) && e == SlotExpr(maps, t) && value == SlotText(root, fs, t)
  }

  // ---------------------------------------------------------------- meaning of the compiled query

  lemma {:induction false} EvaluateField(
      root: string, maps: Format, fs: Filters, f: nat, rest: Where, values: seq<string>, row: Row)
    requires Set(fs, f) && Mapped(maps, f)
    ensures Evaluate(FieldExprs(maps, fs, f) + rest, FieldValues(root, fs, f) + values, row)
      <==> Satisfies(root, maps, f, fs[f].value, row) && Evaluate(rest, values, row)
  {
    var es, vs := FieldExprs(maps, fs, f), FieldValues(root, fs, f);
    assert (es + rest)[1..] == es[1..] + rest;
    if !IsId(f) {
      assert (vs + values)[1..] == vs[1..] + values;
      if f == DIRECTORY {
        assert es[1..] == [es[1]] && vs[1..] == [vs[1]];
        assert ([es[1]] + rest)[1..] == rest && ([vs[1]] + values)[1..] == values;
      } else {
        assert es[1..] + rest == rest && vs[1..] + values == values;
      }
    } else {
      assert es[1..] + rest == rest && vs + values == values;
    }
  }

  lemma {:induction false} NothingCompiled(maps: Format, fs: Filters, f: nat)
    requires 4 <= f <= FIELDS && Wanted(maps, fs, f) == []
    ensures Compiled(maps, fs, f) == []
    decreases FIELDS - f, fs
  {
    if f < FIELDS {
      NothingCompiled(maps, fs, f + 1);
    }
  }

  lemma SatisfiesStep(root: string, maps: Format, fs: Filters, f: nat, row: Row)
    requires f < FIELDS
    ensures SatisfiesAll(root, maps, fs, f, row) <==>
      (Set(fs, f) && Mapped(maps, f) ==> Satisfies(root, maps, f, fs[f].value, row))
      && SatisfiesAll(root, maps, fs, f + 1, row)
  {
  }

  lemma {:induction false} CompiledMeaning(root: string, maps: Format, fs: Filters, f: nat, row: Row)
    requires 1 <= f <= FIELDS && NoGap(maps, fs, f)
    ensures Evaluate(Compiled(maps, fs, f), Bound(root, fs, f), row) <==> SatisfiesAll(root, maps, fs, f, row)
    decreases FIELDS - f, fs
  {
    if f < FIELDS {
      NoGapStep(maps, fs, f);
      SatisfiesStep(root, maps, fs, f, row);
      CompiledMeaning(root, maps, fs, f + 1, row);
      var w, vs := Compiled(maps, fs, f + 1), Bound(root, fs, f + 1);
      if Set(fs, f) && Mapped(maps, f) {
        EvaluateField(root, maps, fs, f, w, vs, row);
      } else if TextFilter(fs, f) {
        NothingCompiled(maps, fs, f + 1);
        assert Compiled(maps, fs, f) == w == [];
      } else {
        assert Compiled(maps, fs, f) == w && Bound(root, fs, f) == vs;
      }
    }
  }

  /** Compiling and binding preserve meaning: when no unmapped text filter precedes a mapped one,
      which holds in particular when every set text filter is mapped, the statement selects the
      rows that satisfy every filter the format has a column for. */
  lemma {:induction false} FiltersMeaning(root: string, maps: Format, fs: Filters, row: Row)
    requires NoGap(maps, fs, 1)
    ensures Evaluate(Compiled(maps, fs, 1), Bound(root, fs, 1), row)
      <==> forall f :: 1 <= f < FIELDS && Set(fs, f) && Mapped(maps, f) ==> Satisfies(root, maps, f, fs[f].value, row)
  {
    CompiledMeaning(root, maps, fs, 1, row);
  }

  /** Without that condition it does not: the artist query with the filters title=Help and
      artist=Queen, where artists have no title, compares the artist's name with the title. */
  lemma MisboundFilter() returns (fs: Filters, row: Row)
    ensures fs[TITLE] == Some(FilterText(TITLE, "Help")) && fs[ARTIST] == Some(FilterText(ARTIST, "Queen"))
    ensures forall f :: 0 <= f < FIELDS && f != TITLE && f != ARTIST ==> fs[f] == None
    ensures !NoGap(ARTISTS, fs, 1)
    ensures !SatisfiesAll("", ARTISTS, fs, 1, row)
    ensures Evaluate(Compiled(ARTISTS, fs, 1), Bound("", fs, 1), row)
  {
    fs := seq(FIELDS, f =>
      if f == TITLE then Some("%" + "Help" + "%") else if f == ARTIST then Some("%" + "Queen" + "%") else None);
    row := Row(1, map["artists.name" := Text("Help")]);
    assert TextFilter(fs, TITLE) && TextFilter(fs, ARTIST) && Mapped(ARTISTS, ARTIST) && !Mapped(ARTISTS, TITLE);
    CompiledOnly(ARTISTS, fs, 1);
    BoundOnly(fs, 1);
    HelpNotQueen();
    assert !Satisfies("", ARTISTS, ARTIST, fs[ARTIST].value, row);
  }

  lemma HelpNotQueen()
    ensures Matches("%" + "Help" + "%", "Help") && !Matches("%" + "Queen" + "%", "Help")
  {
    PlainContains("Help", "Help");
    assert "Help"[0..] == "Help" && "Help"[..|"Help"|] == "Help";
    assert Contains("Help", "Help");
    PlainContains("Queen", "Help");
  }

  lemma {:induction false} CompiledOnly(maps: Format, fs: Filters, f: nat)
    requires 1 <= f <= FIELDS
    requires forall g :: 1 <= g < FIELDS && g != ARTIST ==> !Set(fs, g) || !Mapped(maps, g)
    ensures Compiled(maps, fs, f) == if f <= ARTIST then FieldExprs(maps, fs, ARTIST) else []
    decreases FIELDS - f, fs
  {
    if f < FIELDS {
      var later := Compiled(maps, fs, f + 1);
      CompiledOnly(maps, fs, f + 1);
      assert Compiled(maps, fs, f) == FieldExprs(maps, fs, f) + later;
      if f == ARTIST {
        assert later == [];
      } else {
        assert FieldExprs(maps, fs, f) == [];
      }
    }
  }

  lemma {:induction false} BoundOnly(fs: Filters, f: nat)
    requires 1 <= f <= FIELDS
    requires forall g :: 1 <= g < FIELDS ==> (Set(fs, g) <==> g == TITLE || g == ARTIST)
    ensures Bound("", fs, f)
      == (if f <= TITLE then FieldValues("", fs, TITLE) else [])
       + (if f <= ARTIST then FieldValues("", fs, ARTIST) else [])
    decreases FIELDS - f, fs
  {
    if f < FIELDS {
      BoundOnly(fs, f + 1);
    }
  }

  // ---------------------------------------------------------------- placeholders in the text

  function Marks(s: string): nat {
    if s == "" then 0 else (if s[0] == '?' then 1 else 0) + Marks(s[1..])
  }

  function Placeholders(w: Where): nat {
    if w == [] then 0 else Placeholders(w[..|w| - 1]) + if w[|w| - 1].In? then 0 else 1
  }

  lemma {:induction false} MarksConcat(a: string, b: string)
    ensures Marks(a + b) == Marks(a) + Marks(b)
    decreases |a|
  {
    if a == "" {
      assert a + b == b;
    } else {
      assert (a + b)[1..] == a[1..] + b;
      MarksConcat(a[1..], b);
    }
  }

  lemma {:induction false} NoMarks(s: string)
    requires '?' !in s
    ensures Marks(s) == 0
    decreases |s|
  {
    if s != "" {
      NoMarks(s[1..]);
    }
  }

  predicate Unmarked(e: Expr) {
    '?' !in e.col && (e.In? ==> '?' !in e.ids)
  }

  lemma {:induction false} SuffixMarks(col: string, operator: string)
    requires '?' !in col && '?' !in operator
    ensures Marks(col + (operator + "?")) == 1
  {
    NoMarks(col);
    NoMarks(operator);
    MarksConcat(col, operator + "?");
    MarksConcat(operator, "?");
    assert "?"[1..] == "";
  }

  lemma ExprMarks(e: Expr)
    requires Unmarked(e)
    ensures Marks(ExprText(e)) == if e.In? then 0 else 1
  {
    match e
    case Like(col) =>
      assert " LIKE " + "?" == " LIKE ?";
      SuffixMarks(col, " LIKE ");
    case NotLike(col) =>
      assert " NOT LIKE " + "?" == " NOT LIKE ?";
      SuffixMarks(col, " NOT LIKE ");
    case In(col, ids) =>
      NoMarks(ExprText(e));
  }

  /** The text has one '?' for every value the conjunction takes, and no other: neither the
      columns nor an id list, which is spliced into the text, adds one. */
  lemma {:induction false} WhereMarks(w: Where)
    requires forall i :: 0 <= i < |w| ==> Unmarked(w[i])
    ensures Marks(WhereText(w)) == Placeholders(w)
    decreases |w|
  {
    if w != [] {
      var n := |w| - 1;
      var join := if n == 0 then "WHERE " else " AND ";
      WhereMarks(w[..n]);
      ExprMarks(w[n]);
      NoMarks(join);
      MarksConcat(WhereText(w[..n]) + join, ExprText(w[n]));
      MarksConcat(WhereText(w[..n]), join);
    }
  }

  lemma {:induction false} SanitizedClean(s: string)
    ensures forall i :: 0 <= i < |Sanitized(s)| ==> IsIdChar(Sanitized(s)[i])
    decreases |s|
  {
    if s != "" {
      SanitizedClean(s[1..]);
    }
  }

  /** What query_filter stores: id filters hold digits and commas only. */
  predicate Stored(fs: Filters) {
    forall f, i :: 1 <= f < FIELDS && IsId(f) && Set(fs, f) && 0 <= i < |fs[f].value| ==> IsIdChar(fs[f].value[i])
  }

  predicate PlainColumns(maps: Format) {
    forall f :: 0 <= f < FIELDS && Mapped(maps, f) ==> '?' !in maps[f].value
  }

  lemma PlaceholdersOne(e: Expr)
    ensures Placeholders([e]) == if e.In? then 0 else 1
  {
    assert [e][..0] == [];
  }

  lemma FieldPlaceholders(maps: Format, fs: Filters, f: nat)
    ensures Placeholders(FieldExprs(maps, fs, f)) == if TextFilter(fs, f) && Mapped(maps, f) then |Slots(f)| else 0
  {
    if Set(fs, f) && Mapped(maps, f) {
      var col := maps[f].value;
      if IsId(f) {
        PlaceholdersOne(In(col, fs[f].value));
      } else {
        PlaceholdersOne(Like(col));
        if f == DIRECTORY {
          PlaceholdersOne(NotLike(col));
          PlaceholdersConcat([Like(col)], [NotLike(col)]);
          assert [Like(col)] + [NotLike(col)] == [Like(col), NotLike(col)];
        }
      }
    }
  }

  lemma FieldUnmarked(maps: Format, fs: Filters, f: nat)
    requires 1 <= f < FIELDS && Stored(fs) && PlainColumns(maps)
    ensures forall i :: 0 <= i < |FieldExprs(maps, fs, f)| ==> Unmarked(FieldExprs(maps, fs, f)[i])
  {
    if IsId(f) && Set(fs, f) {
      assert forall i :: 0 <= i < |fs[f].value| ==> IsIdChar(fs[f].value[i]);
    }
  }

  lemma {:induction false} CompiledUnmarked(maps: Format, fs: Filters, f: nat)
    requires 1 <= f <= FIELDS && Stored(fs) && PlainColumns(maps)
    ensures forall i :: 0 <= i < |Compiled(maps, fs, f)| ==> Unmarked(Compiled(maps, fs, f)[i])
    ensures Placeholders(Compiled(maps, fs, f)) == |Wanted(maps, fs, f)|
    decreases FIELDS - f, fs
  {
    if f < FIELDS {
      CompiledUnmarked(maps, fs, f + 1);
      FieldUnmarked(maps, fs, f);
      FieldPlaceholders(maps, fs, f);
      PlaceholdersConcat(FieldExprs(maps, fs, f), Compiled(maps, fs, f + 1));
    }
  }

  lemma {:induction false} PlaceholdersConcat(a: Where, b: Where)
    ensures Placeholders(a + b) == Placeholders(a) + Placeholders(b)
    decreases |b|
  {
    if b == [] {
      assert a + b == a;
    } else {
      assert (a + b)[..|a + b| - 1] == a + b[..|b| - 1];
      PlaceholdersConcat(a, b[..|b| - 1]);
    }
  }

  /** The WHERE text of a query has exactly as many placeholders as its text filters want values. */
  lemma {:induction false} CompiledMarks(maps: Format, fs: Filters)
    requires Stored(fs) && PlainColumns(maps)
    ensures Marks(WhereText(Compiled(maps, fs, 1))) == |Wanted(maps, fs, 1)|
  {
    CompiledUnmarked(maps, fs, 1);
    WhereMarks(Compiled(maps, fs, 1));
  }

  lemma SearchPlain()
    ensures '?' !in TRACKS_SEARCH
  {
    PlainTitle();
    PlainArtist();
    PlainAlbum();
  }

  lemma PlainTitle()
    ensures '?' !in "(COALESCE(tracks.title, '') ||"
  {
  }

  lemma PlainArtist()
    ensures '?' !in " COALESCE(tracks.artist, '') ||"
  {
  }

  lemma PlainAlbum()
    ensures '?' !in " COALESCE(tracks.album, ''))"
  {
  }

  lemma TracksPlain()
    ensures PlainColumns(TRACKS)
  {
    SearchPlain();
  }

  lemma ArtistsPlain()
    ensures PlainColumns(ARTISTS)
  {
  }

  lemma AlbumsPlain()
    ensures PlainColumns(ALBUMS)
  {
  }
}
