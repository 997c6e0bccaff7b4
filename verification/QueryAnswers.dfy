/** What a client of src/protocol_http.c gets for its arguments: which tracks are in the list that
    method_tracks answers with, and in what order they are. */
module QueryAnswers {
  import opened Common
  import opened HttpArgs
  import opened Like
  import opened QueryFilters
  import opened QueryHandlers
  import opened QueryIds
  import opened QueryNames
  import opened QueryObject
  import opened QueryOrder
  import opened QueryResults
  import opened QuerySort

  // ---------------------------------------------------------------- which tracks

  /** The argument sets a filter, and no later one replaces it. */
  ghost predicate Counts(args: seq<Arg>, i: nat) {
    && i < |args| && Sets(args[i])
    && forall j :: i < j < |args| && Sets(args[j]) ==> FieldOf(args[j].name) != FieldOf(args[i].name)
  }

  predicate Sets(a: Arg) {
    a.Pair? && FieldOf(a.name) != 0
  }

  /** The filters after the arguments: of those for one field the last. */
  ghost predicate LastWins(before: Filters, args: seq<Arg>, after: Filters) {
    && (forall i: nat :: Counts(args, i) ==>
          after[FieldOf(args[i].name)] == Some(FilterText(FieldOf(args[i].name), args[i].value)))
    && (forall f :: 0 <= f < FIELDS && (forall i :: 0 <= i < |args| && Sets(args[i]) ==> FieldOf(args[i].name) != f) ==>
          after[f] == before[f])
  }

  function AfterOne(fs: Filters, a: Arg): Filters {
    if Sets(a) then fs[FieldOf(a.name) := Some(FilterText(FieldOf(a.name), a.value))] else fs
  }

  lemma LastWinsCons(fs: Filters, args: seq<Arg>, after: Filters)
    requires args != [] && LastWins(AfterOne(fs, args[0]), args[1..], after)
    ensures LastWins(fs, args, after)
  {
    var rest := args[1..];
    forall i: nat | Counts(args, i)
      ensures after[FieldOf(args[i].name)] == Some(FilterText(FieldOf(args[i].name), args[i].value))
    {
      if i > 0 {
        assert forall j :: 0 <= j < |rest| ==> rest[j] == args[j + 1];
        assert Counts(rest, i - 1);
      }
    }
    forall f | 0 <= f < FIELDS && forall i :: 0 <= i < |args| && Sets(args[i]) ==> FieldOf(args[i].name) != f
      ensures after[f] == fs[f]
    {
      assert forall j :: 0 <= j < |rest| ==> rest[j] == args[j + 1];
      assert AfterOne(fs, args[0])[f] == fs[f];
    }
  }

  lemma {:induction false} AppliesArgs(fs: Filters, args: seq<Arg>)
    ensures LastWins(fs, args, Applied(fs, Settings(args)))
    decreases |args|
  {
    if args != [] {
      AppliesArgs(AfterOne(fs, args[0]), args[1..]);
      AppliedConcat(fs, SettingOf(args[0]), Settings(args[1..]));
      AppliedOne(fs, args[0]);
      LastWinsCons(fs, args, Applied(fs, Settings(args)));
    }
  }

  lemma {:induction false} AppliedOne(fs: Filters, a: Arg)
    ensures Applied(fs, SettingOf(a)) == AfterOne(fs, a)
  {
    if Sets(a) {
      assert SettingOf(a)[1..] == [];
    }
  }

  lemma {:induction false} LastOf(args: seq<Arg>, i: nat) returns (k: nat)
    requires i < |args| && Sets(args[i])
    ensures Counts(args, k) && FieldOf(args[k].name) == FieldOf(args[i].name)
    decreases |args| - i
  {
    if j :| i < j < |args| && Sets(args[j]) && FieldOf(args[j].name) == FieldOf(args[i].name) {
      k := LastOf(args, j);
    } else {
      k := i;
    }
  }

  /** What an argument asks of a track, from its name and its value to the column of the row. */
  ghost predicate ArgAsks(root: string, a: Arg, row: Row)
    requires ColumnOf(TRACKS, a.name).Some? && a.Pair?
  {
    var v := Column(row, ColumnOf(TRACKS, a.name).value);
    if a.name in IDS then v.Integer? && InList(a.value, v.n)
    else AsText(v).Some? && Asks(root, a.name, a.value, AsText(v).value)
  }

  /** What is kept of the text is a list of numbers, and `n` is one of them. */
  ghost predicate InList(text: string, n: int) {
    exists groups :: AreNumbers(groups) && JoinGroups(groups) == Sanitized(text) && n in Numbers(groups)
  }

  lemma {:induction false} ListMeaning(f: nat, text: string, v: QueryFilters.Value)
    requires IsId(f)
    ensures IsInTrue(v, FilterText(f, text)) <==> v.Integer? && InList(text, v.n)
  {
    var _ := IdFilterMeaning(f, text, v);
    forall groups | AreNumbers(groups) && JoinGroups(groups) == Sanitized(text) && groups != []
      ensures ParseIds(Sanitized(text)) == Some(Numbers(groups))
    {
      ReadsGroups(groups);
      JoinsSome(groups);
    }
  }

  lemma {:induction false} JoinsSome(groups: seq<string>)
    requires groups != [] && AreNumbers(groups)
    ensures JoinGroups(groups) != ""
  {
    assert IsNumber(groups[0]);
  }

  /** Wildcards matter in text filters only. */
  predicate PlainValue(a: Arg) {
    a.Pair? && a.name !in IDS ==> Plain(a.value)
  }

  lemma {:induction false} ArgMeaning(root: string, a: Arg, row: Row)
    requires Sets(a) && ColumnOf(TRACKS, a.name).Some? && Plain(root) && PlainValue(a)
    ensures Satisfies(root, TRACKS, FieldOf(a.name), FilterText(FieldOf(a.name), a.value), row) <==>
      ArgAsks(root, a, row)
  {
    NamesKnown(a.name);
    if a.name in IDS {
      ListMeaning(FieldOf(a.name), a.value, Column(row, ColumnOf(TRACKS, a.name).value));
    } else {
      NameAsks(root, TRACKS, a.name, a.value, row);
    }
  }

  /** Everything that the arguments ask of a track. */
  ghost predicate AllAsk(root: string, args: seq<Arg>, row: Row) {
    forall i: nat :: Counts(args, i) && ColumnOf(TRACKS, args[i].name).Some? ==> ArgAsks(root, args[i], row)
  }

  lemma SatisfiesAsked(root: string, args: seq<Arg>, fs: Filters, row: Row)
    requires LastWins(NoFilters(), args, fs) && Plain(root)
    requires forall i :: 0 <= i < |args| ==> PlainValue(args[i])
    ensures SatisfiesAll(root, TRACKS, fs, 1, row) <==> AllAsk(root, args, row)
  {
    forall i: nat | Counts(args, i) && ColumnOf(TRACKS, args[i].name).Some? { ArgMeaning(root, args[i], row); }
    forall f | 1 <= f < FIELDS && Set(fs, f) && AllAsk(root, args, row) && Mapped(TRACKS, f)
      ensures Satisfies(root, TRACKS, f, fs[f].value, row)
    {
      var i :| 0 <= i < |args| && Sets(args[i]) && FieldOf(args[i].name) == f;
      var k := LastOf(args, i);
      assert Counts(args, k);
    }
    forall i: nat | SatisfiesAll(root, TRACKS, fs, 1, row) && Counts(args, i) && ColumnOf(TRACKS, args[i].name).Some?
      ensures ArgAsks(root, args[i], row)
    {
      var f := FieldOf(args[i].name);
      assert Set(fs, f) && Mapped(TRACKS, f);
    }
  }

  /** Tracks have no number of tracks; with that filter the values of paths and searches move. */
  predicate NoMisplaced(args: seq<Arg>) {
    (forall i :: 0 <= i < |args| && Sets(args[i]) ==> args[i].name != "tracks")
    || forall i :: 0 <= i < |args| && Sets(args[i]) ==> args[i].name !in PATHS + ["all", "search"]
  }

  lemma LateNames(name: string)
    ensures FieldOf(name) == 9 ==> name == "tracks"
    ensures FieldOf(name) > 9 ==> name in PATHS + ["all", "search"]
  {
  }

  /** No filter on the number of tracks is set, or none behind it. */
  lemma NoMisplacedFields(args: seq<Arg>)
    requires NoMisplaced(args)
    ensures (forall i :: 0 <= i < |args| && Sets(args[i]) ==> FieldOf(args[i].name) != 9)
      || forall i :: 0 <= i < |args| && Sets(args[i]) ==> FieldOf(args[i].name) <= 9
  {
    forall i | 0 <= i < |args| { LateNames(args[i].name); }
  }

  lemma NoMisplacedGap(args: seq<Arg>, fs: Filters)
    requires LastWins(NoFilters(), args, fs) && NoMisplaced(args)
    ensures NoGap(TRACKS, fs, 1)
  {
    NoMisplacedFields(args);
    assert !Set(fs, 9) || forall f :: 9 < f < FIELDS ==> !Set(fs, f);
    assert forall f :: 1 <= f < FIELDS && f != 9 ==> Mapped(TRACKS, f);
  }

  /** For every list of arguments, with the values in any encoding: the tracks of the answer are the
      rows of the table that have what each argument asks for in the column of its name, where of
      several arguments for one field the last counts. */
  lemma {:induction false} AnswerOfArgs(
      db: Database, root: string, args: seq<Arg>, sort: Option<string>, row: Row)
    requires Arranges(db) && Plain(root) && NoMisplaced(args)
    requires forall i :: 0 <= i < |args| ==> Wellformed(args[i]) && PlainValue(args[i])
    ensures row in Answer(db, root, Some(ArgsText(args)), sort) <==> row in db.rows && AllAsk(root, args, row)
  {
    var fs := AskedFilters(Some(ArgsText(args)));
    ArgsRoundTrip(args);
    AppliesArgs(NoFilters(), args);
    NoMisplacedGap(args, fs);
    SatisfiesAsked(root, args, fs, row);
    AnswerMeaning(db, root, Some(ArgsText(args)), sort, row);
  }

  // ---------------------------------------------------------------- in which order

  /** Two rows in the order of the terms: at the first column in which they differ, by the
      collation of the database, the lesser comes first, or last if it is descending. */
  predicate InOrder(compare: (Value, Value) -> int, terms: seq<Term>, a: Row, b: Row) {
    terms == [] ||
    var c := compare(Column(a, terms[0].0), Column(b, terms[0].0));
    if c == 0 then InOrder(compare, terms[1..], a, b) else (c < 0) == !terms[0].1
  }

  predicate Ascends(compare: (Value, Value) -> int, terms: seq<Term>, rows: seq<Row>) {
    forall i, j :: 0 <= i < j < |rows| ==> InOrder(compare, terms, rows[i], rows[j])
  }

  /** The database orders a result by what it reads in the ORDER BY text. */
  ghost predicate Sorts(db: Database, compare: (Value, Value) -> int) {
    forall order, rows :: ReadOrder(order).Some? ==>
      Ascends(compare, ReadOrder(order).value, db.arrange(order, rows))
  }

  lemma PageAscends(compare: (Value, Value) -> int, terms: seq<Term>, rows: seq<Row>, limit: int, offset: int)
    requires Ascends(compare, terms, rows)
    ensures Ascends(compare, terms, Requested(rows, limit, offset))
  {
    var from, page := if offset <= 0 then 0 else offset, Requested(rows, limit, offset);
    forall i, j | 0 <= i < j < |page|
      ensures InOrder(compare, terms, page[i], page[j])
    {
      assert page[i] == rows[from + i] && page[j] == rows[from + j];
    }
  }

  lemma {:induction false} OrderAsked(rules: seq<NamedRule>)
    requires Known(rules)
    ensures ReadOrder(AskedOrder(Some(SortSource(rules)))) == Some(AskedTerms(TRACKS, rules))
  {
    FormatsSortable();
    SortMeaning("", TRACKS, rules);
    assert [] + AskedTerms(TRACKS, rules) == AskedTerms(TRACKS, rules);
  }

  /** The tracks of the answer, and so those of every page of it, are in the order that the client
      has written: by the columns of the names, one after the other, descending where it has put
      the sign. */
  lemma {:induction false} AnswerSorted(
      db: Database, compare: (Value, Value) -> int, root: string, args: Option<string>, rules: seq<NamedRule>,
      limit: int, offset: int)
    requires Sorts(db, compare) && Known(rules)
    ensures var all := Answer(db, root, args, Some(SortSource(rules)));
      Ascends(compare, AskedTerms(TRACKS, rules), all)
      && Ascends(compare, AskedTerms(TRACKS, rules), Requested(all, limit, offset))
  {
    OrderAsked(rules);
    PageAscends(compare, AskedTerms(TRACKS, rules), Answer(db, root, args, Some(SortSource(rules))), limit, offset);
  }
}
