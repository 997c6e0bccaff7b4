/** The two handlers of src/protocol_http.c that answer with tracks: method_tracks lists a page of
    them and method_track_index says where in the list a track is.  Arguments are given as what
    args_str and args_int make of them; 0 and None stand for a missing one. */
module QueryHandlers {
  import opened Common
  import opened HttpArgs
  import opened QueryFilters
  import opened QueryObject
  import opened QueryReader
  import opened QueryResults
  import opened QuerySort

  // ---------------------------------------------------------------- what a client asks for

  function NoFilters(): (fs: Filters)
    ensures forall f :: 0 <= f < FIELDS ==> fs[f] == None
  {
    seq(FIELDS, _ => None)
  }

  function AskedFilters(args: Option<string>): Filters {
    if args.None? then NoFilters() else Applied(NoFilters(), ParseArgs(args.value))
  }

  function AskedOrder(sort: Option<string>): string {
    if sort.None? then "" else AddRules("", TRACKS, ParseSort(sort.value).0)
  }

  predicate Answerable(args: Option<string>) {
    Prepares(Compiled(TRACKS, AskedFilters(args), 1))
  }

  /** The tracks that the filters select, in the order asked for. */
  function Answer(db: Database, root: string, args: Option<string>, sort: Option<string>): seq<Row> {
    var fs := AskedFilters(args);
    db.arrange(AskedOrder(sort), Selected(db.rows, Compiled(TRACKS, fs, 1), Bound(root, fs, 1)))
  }

  /** They are the rows of the table that satisfy every filter, provided that no filter on the number
      of tracks, for which tracks have no column, comes before a filter on a path or a search. */
  lemma {:induction false} AnswerMeaning(
      db: Database, root: string, args: Option<string>, sort: Option<string>, row: Row)
    requires Arranges(db) && NoGap(TRACKS, AskedFilters(args), 1)
    ensures row in Answer(db, root, args, sort) <==>
      row in db.rows && SatisfiesAll(root, TRACKS, AskedFilters(args), 1, row)
  {
    var fs := AskedFilters(args);
    ResultMembers(db, AskedOrder(sort), Compiled(TRACKS, fs, 1), Bound(root, fs, 1), row);
    CompiledMeaning(root, TRACKS, fs, 1, row);
  }

  /** How many tracks the filters select. */
  function Total(db: Database, root: string, args: Option<string>): nat {
    var fs := AskedFilters(args);
    |Selected(db.rows, Compiled(TRACKS, fs, 1), Bound(root, fs, 1))|
  }

  /** The total is the length of the answer. */
  lemma {:induction false} AnswerSize(db: Database, root: string, args: Option<string>, sort: Option<string>)
    requires Arranges(db)
    ensures |Answer(db, root, args, sort)| == Total(db, root, args)
  {
    var fs := AskedFilters(args);
    SameRows(Answer(db, root, args, sort), Selected(db.rows, Compiled(TRACKS, fs, 1), Bound(root, fs, 1)));
  }

  ghost predicate Has(rows: seq<Row>, id: int) {
    exists i :: 0 <= i < |rows| && rows[i].id == id
  }

  /** The position of an id, counted from 0; -1 exactly when no row has it. */
  ghost predicate FoundAt(rows: seq<Row>, id: int, index: int) {
    if index < 0 then index == -1 && !Has(rows, id) else index < |rows| && rows[index].id == id
  }

  /** Where an id is in the answer, counted from 0. */
  lemma {:induction false} AnswerIndex(
      db: Database, root: string, args: Option<string>, sort: Option<string>, id: int)
    ensures var all := Answer(db, root, args, sort); FoundAt(all, id, IndexFrom(all, id, 1) - 1)
  {
    IndexIsFirst(Answer(db, root, args, sort), id, 1);
  }

  // ---------------------------------------------------------------- the handlers

  /** parse_query_sort; an unknown name ends it, and the rules before it stay. */
  method ParseQuerySort(sort: Option<string>, query: Query)
    modifies query`order
    ensures query.order
         == if sort.None? then old(query.order) else AddRules(old(query.order), query.maps, ParseSort(sort.value).0)
  {
    if sort.Some? {
      var _ := query.SortFromString(sort.value);
    }
  }

  /** query_tracks_new and parse_query_filters */
  method NewQuery(args: Option<string>) returns (query: Query)
    ensures fresh(query) && query.Valid() && query.maps == TRACKS && query.filters == AskedFilters(args)
    ensures query.limit == -1 && query.offset == 0 && query.order == ""
  {
    TracksReadable();
    query := new Query(TRACKS);
    assert query.filters == NoFilters();
    ParseQueryFilters(args, query);
  }

  /** method_tracks: the total, 0 unless it is asked for, and a page; None for an error. */
  method Tracks(db: Database, root: string, args: Option<string>, sort: Option<string>,
                limit: int, offset: int, wantTotal: bool)
    returns (answer: Option<(int, seq<Row>)>)
    ensures answer.Some? <==> Answerable(args)
    ensures answer.Some? ==> answer.value.1 == Requested(Answer(db, root, args, sort), limit, offset)
    ensures answer.Some? ==> answer.value.0 == if wantTotal then Total(db, root, args) else 0
  {
    var query := NewQuery(args);
    var total := 0;
    if wantTotal {
      total := query.Count(db, root);
    }
    if total < 0 {
      return None;
    }
    ParseQueryBounds(limit, offset, query);
    ParseQuerySort(sort, query);
    var rows := query.Start(db, root);
    return if rows.None? then None else Some((total, rows.value));
  }

  /** query_index on a new query */
  method FindTrack(db: Database, root: string, args: Option<string>, sort: Option<string>, id: int)
    returns (result: int)
    ensures result == if Answerable(args) then IndexFrom(Answer(db, root, args, sort), id, 1) else -1
  {
    var query := NewQuery(args);
    ParseQuerySort(sort, query);
    result := query.Index(db, root, id);
  }

  /** method_track_index: the position, -1 if the track is not in the answer; None for an error. */
  method TrackIndex(db: Database, root: string, args: Option<string>, sort: Option<string>, id: int)
    returns (index: Option<int>)
    ensures index.Some? <==> id > 0 && Answerable(args)
    ensures index.Some? ==> FoundAt(Answer(db, root, args, sort), id, index.value)
  {
    if id <= 0 {
      return None;
    }
    var result := FindTrack(db, root, args, sort, id);
    if result < 0 {
      return None;
    }
    AnswerIndex(db, root, args, sort, id);
    return Some(result - 1);
  }

  /** Where the page of position `i` begins. */
  function PageStart(i: nat, n: nat): (first: nat)
    requires n > 0
    ensures first <= i < first + n
  {
    i - i % n
  }

  predicate Shows(rows: seq<Row>, id: int, n: nat, k: nat) {
    k < |rows| <= n && rows[k].id == id
  }

  /** What a client does that scrolls to a track: it asks where the track is and then for the page of
      `n` rows with it.  The page has the track where the index says, and the total beside it is the
      number of tracks selected; without the track in the answer there is no page. */
  method PageWith(db: Database, root: string, args: Option<string>, sort: Option<string>, id: int, n: nat)
    returns (found: bool, total: int, rows: seq<Row>, k: nat)
    requires n > 0 && id > 0 && Answerable(args)
    ensures found <==> Has(Answer(db, root, args, sort), id)
    ensures found ==> total == Total(db, root, args) && Shows(rows, id, n, k)
  {
    var index := TrackIndex(db, root, args, sort, id);
    if index.value < 0 {
      return false, 0, [], 0;
    }
    var first := PageStart(index.value, n);
    var answer := Tracks(db, root, args, sort, n, first, true);
    PageHas(Answer(db, root, args, sort), id, n, index.value, first);
    found, total, rows, k := true, answer.value.0, answer.value.1, index.value - first;
  }

  lemma {:induction false} PageHas(all: seq<Row>, id: int, n: nat, i: nat, first: nat)
    requires first <= i < |all| && i < first + n && all[i].id == id
    ensures Has(all, id) && Shows(Requested(all, n, first), id, n, i - first)
  {
  }
}
