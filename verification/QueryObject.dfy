/** query_t of src/query.c: the object that collects filters, sorting and paging, and the four
    functions that run it against a database. */
module QueryObject {
  import opened Common
  import opened QueryFilters
  import opened QueryOrder
  import opened QueryReader
  import opened QuerySort

  /** The table of a query's FROM clause in storage order, and how the database arranges the rows
      of a result for an ORDER BY text.  Any arrangement will do, as long as it is the same each
      time. */
  datatype Database = Database(rows: seq<Row>, arrange: (string, seq<Row>) -> seq<Row>)

  function Selected(rows: seq<Row>, w: Where, values: seq<string>): seq<Row> {
    if rows == [] then []
    else (if Evaluate(w, values, rows[0]) then [rows[0]] else []) + Selected(rows[1..], w, values)
  }

  /** A statement with a malformed id list does not prepare. */
  predicate Prepares(w: Where) {
    forall i :: 0 <= i < |w| && w[i].In? ==> ParseIds(w[i].ids).Some?
  }

  /** What a database makes of the text of build_filters. */
  function Prepared(sql: string): Option<Where> {
    var w := ReadWhere(sql);
    if w.Some? && Prepares(w.value) then w else None
  }

  lemma StoredFilter(fs: Filters, f: nat, text: string)
    requires Stored(fs) && f < FIELDS
    ensures Stored(fs[f := Some(FilterText(f, text))])
  {
    if IsId(f) {
      SanitizedClean(text);
    }
  }

  /** LIMIT and OFFSET as SQLite reads them: no limit below zero, no offset below zero. */
  function Limited(rows: seq<Row>, limit: int, offset: int): seq<Row> {
    var rest := if offset <= 0 then rows else if offset >= |rows| then [] else rows[offset..];
    if limit < 0 || limit >= |rest| then rest else rest[..limit]
  }

  /** query_start adds the clause only when one of the two is positive. */
  function Page(rows: seq<Row>, limit: int, offset: int): seq<Row> {
    if limit > 0 || offset > 0 then Limited(rows, limit, offset) else rows
  }

  /** The position of an id in the result, counted from 1; 0 if it is not there. */
  function IndexFrom(rows: seq<Row>, id: int, index: nat): nat
    decreases |rows|
  {
    if rows == [] then 0 else if rows[0].id == id then index else IndexFrom(rows[1..], id, index + 1)
  }

  class Query {
    const maps: Format
    var filters: Filters
    var limit: int
    var offset: int
    var order: string

    /** Id filters hold digits and commas only, and the columns are readable SQL. */
    ghost predicate Valid()
      reads this`filters
    {
      Stored(filters) && ReadableColumns(maps)
    }

    constructor (maps: Format)
      requires ReadableColumns(maps)
      ensures Valid() && this.maps == maps && order == "" && limit == -1 && offset == 0
      ensures forall f :: 0 <= f < FIELDS ==> filters[f] == None
    {
      this.maps := maps;
      filters, limit, offset, order := seq(FIELDS, _ => None), -1, 0, "";
    }

    // ------------------------------------------------------------ building the query

    method Limit(limit: int)
      modifies this`limit
      ensures this.limit == limit
    {
      this.limit := limit;
    }

    method Offset(offset: int)
      modifies this`offset
      ensures this.offset == offset
    {
      this.offset := offset;
    }

    /** query_filter; the text of an id filter is copied one digit or comma at a time. */
    method Filter(f: nat, filter: Option<string>)
      requires Valid() && f < FIELDS
      modifies this`filters
      ensures Valid()
      ensures filters == old(filters)[f := if filter.None? then None else Some(FilterText(f, filter.value))]
    {
      if filter.None? {
        filters := filters[f := None];
        return;
      }
      var text := filter.value;
      StoredFilter(filters, f, text);
      if !IsId(f) {
        filters := filters[f := Some(if IsLike(f) then "%" + text + "%" else text)];
        return;
      }
      var string1, i := "", 0;
      while i < |text|
        invariant 0 <= i <= |text|
        invariant string1 + Sanitized(text[i..]) == Sanitized(text)
        invariant filters == old(filters)
      {
        assert text[i..][0] == text[i] && text[i..][1..] == text[i + 1..];
        if IsIdChar(text[i]) {
          string1 := string1 + [text[i]];
        }
        i := i + 1;
      }
      assert string1 + "" == string1;
      filters := filters[f := Some(string1)];
    }

    /** query_sort */
    method Sort(f: nat, descending: bool)
      requires f < FIELDS
      modifies this`order
      ensures order == AddRule(old(order), maps, (f, descending))
      ensures SortableColumns(maps) && ReadOrder(old(order)).Some? ==>
        ReadOrder(order)
        == Some(ReadOrder(old(order)).value + if maps[f].None? then [] else [(maps[f].value, descending)])
    {
      if SortableColumns(maps) && ReadOrder(order).Some? {
        AddsTerm(order, maps, (f, descending));
      }
      if maps[f].None? {
        return;
      }
      if |order| > 0 {
        order := order + ", ";
      }
      order := order + (maps[f].value + " COLLATE NOCASE " + if descending then "DESC" else "ASC");
    }

    /** The loop that finds the end of a name. */
    static method FindNameEnd(s: string) returns (end: nat)
      ensures end == NameEnd(s)
    {
      end := 0;
      while end < |s| && s[end] != ','
        invariant 0 <= end <= |s| && NameEnd(s) == end + NameEnd(s[end..])
      {
        assert s[end..][1..] == s[end + 1..];
        end := end + 1;
      }
    }

    /** query_sort_from_string */
    method SortFromString(sort: string) returns (result: int)
      modifies this`order
      ensures var (rules, ok) := ParseSort(sort);
        order == AddRules(old(order), maps, rules) && result == if ok then 0 else -1
    {
      var p := sort;
      while p != ""
        invariant var (all, ok) := ParseSort(sort); var (rest, ok') := ParseSort(p);
          ok == ok' && AddRules(order, maps, rest) == AddRules(old(order), maps, all)
        decreases |p|
      {
        var descending := p[0] == '-';
        var s := if descending then p[1..] else p;
        var end := FindNameEnd(s);
        var field := FieldOf(s[..end]);
        if field == 0 {
          return -1;
        }
        ghost var rest := ParseSort(AfterRule(p)).0;
        assert ([(field, descending)] + rest)[1..] == rest;
        Sort(field, descending);
        p := s[end..];
        if p != "" {
          p := p[1..];
        }
      }
      return 0;
    }

    /** The condition that build_filters writes for one filter. */
    method BuildField(i: nat) returns (text: string)
      requires Set(filters, i) && Mapped(maps, i)
      ensures text == FieldText(maps, filters, i)
    {
      var col := maps[i].value;
      if !IsId(i) {
        if i == DIRECTORY {
          text := col + " LIKE ? AND " + col + " NOT LIKE ?";
        } else {
          text := col + " LIKE ?";
        }
      } else {
        text := col + " IN (" + filters[i].value + ")";
      }
    }

    /** build_filters */
    method BuildFilters() returns (sql: string)
      ensures sql == WhereText(Compiled(maps, filters, 1))
    {
      sql := "";
      var join := false;
      var i := 1;
      while i <= ALL
        invariant 1 <= i <= FIELDS
        invariant sql == SqlTo(maps, filters, i) && join == Joins(maps, filters, i)
      {
        if filters[i].None? || maps[i].None? {
          i := i + 1;
          continue;
        }
        sql := sql + if join then " AND " else "WHERE ";
        join := true;
        var text := BuildField(i);
        sql := sql + text;
        i := i + 1;
      }
      SqlAll(maps, filters);
    }

    /** The values that bind_filters binds for one set filter. */
    method BindField(root: string, i: nat) returns (values: seq<string>)
      requires TextFilter(filters, i)
      ensures values == FieldValues(root, filters, i)
    {
      if i == DIRECTORY {
        values := [root + filters[i].value + "%"];
        values := values + [root + filters[i].value + "%/%"];
      } else if i == DIRECTORYPREFIX {
        values := [root + filters[i].value + "%"];
      } else {
        values := [filters[i].value];
      }
    }

    /** bind_filters: `n` is the number of the next placeholder. */
    method BindFilters(root: string) returns (values: seq<string>)
      ensures values == Bound(root, filters, 1)
    {
      values := [];
      var i, n := 1, 1;
      while i <= ALL
        invariant 1 <= i <= FIELDS && n == |values| + 1
        invariant values == BoundTo(root, filters, i)
      {
        if filters[i].None? || IsId(i) {
          i := i + 1;
          continue;
        }
        var more := BindField(root, i);
        values := values + more;
        n := n + |more|;
        i := i + 1;
      }
      BoundAll(root, filters);
    }

    // ------------------------------------------------------------ running the query

    /** The rows a statement of this query selects, without ORDER BY and LIMIT. */
    ghost function Matching(db: Database, root: string): seq<Row>
      reads this
    {
      Selected(db.rows, Compiled(maps, filters, 1), Bound(root, filters, 1))
    }

    ghost predicate Runs()
      reads this
    {
      Prepares(Compiled(maps, filters, 1))
    }

    /** query_count: SELECT COUNT(...) with the WHERE clause only */
    method Count(db: Database, root: string) returns (result: int)
      requires Valid()
      ensures result == if Runs() then |Matching(db, root)| else -1
    {
      var sql := BuildFilters();
      var values := BindFilters(root);
      var where := Prepared(sql);
      ReadsCompiled(maps, filters);
      if where.None? {
        return -1;
      }
      return |Selected(db.rows, where.value, values)|;
    }

    /** query_index: step through the ordered result until the id comes up */
    method Index(db: Database, root: string, id: int) returns (result: int)
      requires Valid()
      ensures result == if Runs() then IndexFrom(db.arrange(order, Matching(db, root)), id, 1) else -1
    {
      var sql := BuildFilters();
      var values := BindFilters(root);
      var where := Prepared(sql);
      ReadsCompiled(maps, filters);
      if where.None? {
        return -1;
      }
      var rows := db.arrange(order, Selected(db.rows, where.value, values));
      var index := 1;
      while index <= |rows|
        invariant 1 <= index <= |rows| + 1
        invariant IndexFrom(rows[index - 1..], id, index) == IndexFrom(rows, id, 1)
      {
        assert rows[index - 1..][1..] == rows[index..];
        if rows[index - 1].id == id {
          return index;
        }
        index := index + 1;
      }
      return 0;
    }

    /** query_start and stepping to the end; None when the statement does not prepare */
    method Start(db: Database, root: string) returns (rows: Option<seq<Row>>)
      requires Valid()
      ensures rows == if Runs() then Some(Page(db.arrange(order, Matching(db, root)), limit, offset)) else None
    {
      var sql := BuildFilters();
      var values := BindFilters(root);
      var where := Prepared(sql);
      ReadsCompiled(maps, filters);
      if where.None? {
        return None;
      }
      var all := db.arrange(order, Selected(db.rows, where.value, values));
      if limit > 0 || offset > 0 {
        return Some(Limited(all, limit, offset));
      }
      return Some(all);
    }
  }

  /** What the two loops have done when they reach field `f`. */
  function CompiledTo(maps: Format, fs: Filters, f: nat): Where
    decreases f, fs
  {
    if f <= 1 then [] else CompiledTo(maps, fs, f - 1) + FieldExprs(maps, fs, f - 1)
  }

  function BoundTo(root: string, fs: Filters, f: nat): seq<string>
    decreases f, fs
  {
    if f <= 1 then [] else BoundTo(root, fs, f - 1) + FieldValues(root, fs, f - 1)
  }

  predicate Joins(maps: Format, fs: Filters, f: nat) {
    exists g :: 1 <= g < f && Set(fs, g) && Mapped(maps, g)
  }

  function SqlTo(maps: Format, fs: Filters, f: nat): string
    decreases f, fs
  {
    if f <= 1 then ""
    else if !Set(fs, f - 1) || !Mapped(maps, f - 1) then SqlTo(maps, fs, f - 1)
    else SqlTo(maps, fs, f - 1) + (if Joins(maps, fs, f - 1) then " AND " else "WHERE ") + FieldText(maps, fs, f - 1)
  }

  lemma {:induction false} SqlIsWhere(maps: Format, fs: Filters, f: nat)
    requires 1 <= f <= FIELDS
    ensures SqlTo(maps, fs, f) == WhereText(CompiledTo(maps, fs, f))
    ensures Joins(maps, fs, f) <==> CompiledTo(maps, fs, f) != []
    decreases f, fs
  {
    if f > 1 {
      var g := f - 1;
      var done := CompiledTo(maps, fs, g);
      SqlIsWhere(maps, fs, g);
      CompiledSteps(maps, fs, g);
      if Set(fs, g) && Mapped(maps, g) {
        FieldAppends(maps, fs, g, done);
      } else {
        assert done + [] == done;
      }
    }
  }

  lemma {:induction false} SqlAll(maps: Format, fs: Filters)
    ensures SqlTo(maps, fs, FIELDS) == WhereText(Compiled(maps, fs, 1))
  {
    SqlIsWhere(maps, fs, FIELDS);
    CompiledAll(maps, fs);
  }

  lemma CompiledSteps(maps: Format, fs: Filters, f: nat)
    requires 1 <= f < FIELDS
    ensures CompiledTo(maps, fs, f + 1) == CompiledTo(maps, fs, f) + FieldExprs(maps, fs, f)
    ensures Compiled(maps, fs, f) == FieldExprs(maps, fs, f) + Compiled(maps, fs, f + 1)
  {
  }

  lemma {:induction false} CompiledSplit(maps: Format, fs: Filters, f: nat)
    requires 1 <= f <= FIELDS
    ensures CompiledTo(maps, fs, f) + Compiled(maps, fs, f) == CompiledTo(maps, fs, FIELDS)
    decreases FIELDS - f, fs
  {
    if f == FIELDS {
      assert CompiledTo(maps, fs, f) + [] == CompiledTo(maps, fs, f);
    } else {
      CompiledSteps(maps, fs, f);
      CompiledSplit(maps, fs, f + 1);
      Shifted(CompiledTo(maps, fs, f), FieldExprs(maps, fs, f), Compiled(maps, fs, f + 1),
              CompiledTo(maps, fs, f + 1), Compiled(maps, fs, f));
    }
  }

  lemma {:induction false} CompiledAll(maps: Format, fs: Filters)
    ensures CompiledTo(maps, fs, FIELDS) == Compiled(maps, fs, 1)
  {
    CompiledSplit(maps, fs, 1);
    assert [] + Compiled(maps, fs, 1) == Compiled(maps, fs, 1);
  }

  lemma BoundSteps(root: string, fs: Filters, f: nat)
    requires 1 <= f < FIELDS
    ensures BoundTo(root, fs, f + 1) == BoundTo(root, fs, f) + FieldValues(root, fs, f)
    ensures Bound(root, fs, f) == FieldValues(root, fs, f) + Bound(root, fs, f + 1)
  {
  }

  lemma {:induction false} BoundSplit(root: string, fs: Filters, f: nat)
    requires 1 <= f <= FIELDS
    ensures BoundTo(root, fs, f) + Bound(root, fs, f) == BoundTo(root, fs, FIELDS)
    decreases FIELDS - f, fs
  {
    if f == FIELDS {
      assert BoundTo(root, fs, f) + [] == BoundTo(root, fs, f);
    } else {
      BoundSteps(root, fs, f);
      BoundSplit(root, fs, f + 1);
      Shifted(BoundTo(root, fs, f), FieldValues(root, fs, f), Bound(root, fs, f + 1),
              BoundTo(root, fs, f + 1), Bound(root, fs, f));
    }
  }

  lemma {:induction false} BoundAll(root: string, fs: Filters)
    ensures BoundTo(root, fs, FIELDS) == Bound(root, fs, 1)
  {
    BoundSplit(root, fs, 1);
    assert [] + Bound(root, fs, 1) == Bound(root, fs, 1);
  }

  lemma Shifted<T>(a: seq<T>, b: seq<T>, c: seq<T>, ab: seq<T>, bc: seq<T>)
    requires ab == a + b && bc == b + c
    ensures a + bc == ab + c
  {
  }

  /** The text that build_filters adds for one field, after the joining word. */
  function FieldText(maps: Format, fs: Filters, i: nat): string
    requires Set(fs, i) && Mapped(maps, i)
  {
    var col := maps[i].value;
    if IsId(i) then col + " IN (" + fs[i].value + ")"
    else if i == DIRECTORY then col + " LIKE ? AND " + col + " NOT LIKE ?"
    else col + " LIKE ?"
  }

  lemma {:induction false} FieldAppends(maps: Format, fs: Filters, i: nat, done: Where)
    requires Set(fs, i) && Mapped(maps, i)
    ensures WhereText(done + FieldExprs(maps, fs, i))
         == WhereText(done) + (if done == [] then "WHERE " else " AND ") + FieldText(maps, fs, i)
  {
    var col := maps[i].value;
    if IsId(i) {
      AppendsOne(done, In(col, fs[i].value));
    } else if i == DIRECTORY {
      AppendsTwo(done, Like(col), NotLike(col));
      LikeNotLike(col);
    } else {
      AppendsOne(done, Like(col));
    }
  }

  lemma LikeNotLike(col: string)
    ensures col + " LIKE ?" + " AND " + (col + " NOT LIKE ?") == col + " LIKE ? AND " + col + " NOT LIKE ?"
  {
  }

  lemma {:induction false} AppendsTwo(done: Where, e: Expr, e': Expr)
    ensures WhereText(done + [e, e'])
         == WhereText(done) + (if done == [] then "WHERE " else " AND ") + (ExprText(e) + " AND " + ExprText(e'))
  {
    AppendsOne(done, e);
    AppendsOne(done + [e], e');
    assert done + [e] + [e'] == done + [e, e'];
    Regroup(WhereText(done), if done == [] then "WHERE " else " AND ", ExprText(e), " AND ", ExprText(e'));
  }

  lemma Regroup(a: string, b: string, c: string, d: string, e: string)
    ensures a + b + c + d + e == a + b + (c + d + e)
  {
  }
}
