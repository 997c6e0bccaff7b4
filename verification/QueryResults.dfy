/** Count, index and pages of one query agree with each other. */
module QueryResults {
  import opened Like
  import opened QueryFilters
  import opened QueryObject

  /** Whatever the ORDER BY text, the database returns the selected rows, each as often. */
  ghost predicate Arranges(db: Database) {
    forall order, rows :: multiset(db.arrange(order, rows)) == multiset(rows)
  }

  predicate DistinctIds(rows: seq<Row>) {
    forall i, j :: 0 <= i < j < |rows| ==> rows[i].id != rows[j].id
  }

  /** The rows selected are the rows of the table that satisfy the filters. */
  lemma {:induction false} SelectedMembers(rows: seq<Row>, w: Where, values: seq<string>, row: Row)
    ensures row in Selected(rows, w, values) <==> row in rows && Evaluate(w, values, row)
    decreases |rows|
  {
    if rows != [] {
      SelectedMembers(rows[1..], w, values, row);
      assert rows == [rows[0]] + rows[1..];
    }
  }

  /** So a query returns exactly the rows that satisfy every filter that has a column, provided no
      unmapped text filter precedes a mapped one. */
  lemma {:induction false} SelectsExactly(db: Database, root: string, maps: Format, fs: Filters, row: Row)
    requires NoGap(maps, fs, 1)
    ensures row in Selected(db.rows, Compiled(maps, fs, 1), Bound(root, fs, 1)) <==>
      && row in db.rows
      && forall f :: 1 <= f < FIELDS && Set(fs, f) && Mapped(maps, f) ==> Satisfies(root, maps, f, fs[f].value, row)
  {
    SelectedMembers(db.rows, Compiled(maps, fs, 1), Bound(root, fs, 1), row);
    FiltersMeaning(root, maps, fs, row);
  }

  /** What a client asks for with a filter text that is free of wildcards: the value contains the
      text, or it is a path right below the directory, or it is a path that starts with the
      prefix, or it is the text; all without regard to case. */
  ghost predicate Asked(root: string, f: nat, text: string, value: string) {
    if IsLike(f) then Contains(value, text)
    else if f == DIRECTORY then DirectlyBelow(value, root + text)
    else if f == DIRECTORYPREFIX then HasPrefix(value, root + text)
    else SameFolded(value, text)
  }

  lemma PlainConcat(a: string, b: string)
    requires Plain(a) && Plain(b)
    ensures Plain(a + b)
  {
  }

  lemma {:induction false} PlainSame(t: string, s: string)
    requires Plain(t)
    ensures Matches(t, s) <==> SameFolded(s, t)
  {
    PlainFirst(t, "", s);
    assert t + "" == t;
    if HasPrefix(s, t) && |s| == |t| {
      assert s[..|t|] == s;
    }
    if SameFolded(s, t) {
      assert s[..|t|] == s;
    }
  }

  /** From the text the client gives to the rows it gets: what query_filter stores, what is bound
      and what LIKE makes of it come down to what was asked. */
  lemma FilterAsks(root: string, maps: Format, f: nat, text: string, row: Row)
    requires Mapped(maps, f) && !IsId(f) && Plain(root) && Plain(text)
    ensures Satisfies(root, maps, f, FilterText(f, text), row) <==>
      var v := AsText(Column(row, maps[f].value)); v.Some? && Asked(root, f, text, v.value)
  {
    var v := AsText(Column(row, maps[f].value));
    if v.Some? {
      PlainConcat(root, text);
      if IsLike(f) {
        PlainContains(text, v.value);
      } else if f == DIRECTORY {
        PlainDirectory(root + text, v.value);
      } else if f == DIRECTORYPREFIX {
        PlainPrefix(root + text, v.value);
      } else {
        PlainSame(text, v.value);
      }
    }
  }

  lemma {:induction false} SelectedDistinct(rows: seq<Row>, w: Where, values: seq<string>)
    requires DistinctIds(rows)
    ensures DistinctIds(Selected(rows, w, values))
    decreases |rows|
  {
    if rows != [] {
      var rest := Selected(rows[1..], w, values);
      SelectedDistinct(rows[1..], w, values);
      forall j | 0 <= j < |rest|
        ensures rest[j].id != rows[0].id
      {
        SelectedMembers(rows[1..], w, values, rest[j]);
        var k :| 0 <= k < |rows[1..]| && rows[1..][k] == rest[j];
      }
    }
  }

  /** The index is the position of the first row with this id, and 0 if there is none. */
  lemma {:induction false} IndexIsFirst(rows: seq<Row>, id: int, index: nat)
    requires index > 0
    ensures var r := IndexFrom(rows, id, index);
      if r == 0 then forall k :: 0 <= k < |rows| ==> rows[k].id != id
      else
        && index <= r < index + |rows| && rows[r - index].id == id
        && forall k :: 0 <= k < r - index ==> rows[k].id != id
    decreases |rows|
  {
    if rows != [] && rows[0].id != id {
      IndexIsFirst(rows[1..], id, index + 1);
      var r := IndexFrom(rows[1..], id, index + 1);
      forall k | 0 <= k < (if r == 0 then |rows| else r - index)
        ensures rows[k].id != id
      {
        if k > 0 {
          assert rows[k] == rows[1..][k - 1];
        }
      }
    }
  }

  lemma {:induction false} SameRows(a: seq<Row>, b: seq<Row>)
    requires multiset(a) == multiset(b)
    ensures |a| == |b|
    ensures forall row :: row in a <==> row in b
  {
    assert |multiset(a)| == |a| && |multiset(b)| == |b|;
    forall row
      ensures row in a <==> row in b
    {
      assert row in a <==> row in multiset(a);
      assert row in b <==> row in multiset(b);
    }
  }

  lemma UniquePosition(rows: seq<Row>, other: seq<Row>, i: nat, j: nat)
    requires multiset(rows) == multiset(other) && DistinctIds(other)
    requires i < j < |rows|
    ensures rows[i].id != rows[j].id
  {
    SameRows(rows, other);
    assert rows[i] in rows && rows[j] in rows;
    var a :| 0 <= a < |other| && other[a] == rows[i];
    if rows[i].id == rows[j].id {
      var b :| 0 <= b < |other| && other[b] == rows[j];
      assert a == b;
      Once(other, a);
      Twice(rows, i, j);
    }
  }

  lemma Once(rows: seq<Row>, a: nat)
    requires DistinctIds(rows) && a < |rows|
    ensures multiset(rows)[rows[a]] == 1
  {
    assert rows == rows[..a] + [rows[a]] + rows[a + 1..];
    assert multiset(rows) == multiset(rows[..a]) + multiset{rows[a]} + multiset(rows[a + 1..]);
    assert rows[a] !in rows[..a] && rows[a] !in rows[a + 1..];
  }

  lemma Twice(rows: seq<Row>, i: nat, j: nat)
    requires i < j < |rows| && rows[i] == rows[j]
    ensures multiset(rows)[rows[i]] >= 2
  {
    assert rows == rows[..j] + rows[j..];
    assert rows[i] in rows[..j] && rows[j] in rows[j..];
    assert multiset(rows) == multiset(rows[..j]) + multiset(rows[j..]);
  }

  lemma {:induction false} ResultMembers(db: Database, order: string, w: Where, values: seq<string>, row: Row)
    requires Arranges(db)
    ensures row in db.arrange(order, Selected(db.rows, w, values)) <==> row in db.rows && Evaluate(w, values, row)
  {
    SameRows(db.arrange(order, Selected(db.rows, w, values)), Selected(db.rows, w, values));
    SelectedMembers(db.rows, w, values, row);
  }

  /** The index is i > 0 if and only if the i-th row has the id, for rows with distinct ids in any
      arrangement. */
  lemma {:induction false} IndexIsPosition(rows: seq<Row>, other: seq<Row>, id: int, i: nat)
    requires multiset(rows) == multiset(other) && DistinctIds(other) && 0 < i <= |rows|
    ensures IndexFrom(rows, id, 1) == i <==> rows[i - 1].id == id
  {
    IndexIsFirst(rows, id, 1);
    var r := IndexFrom(rows, id, 1);
    if rows[i - 1].id == id && r != i {
      UniquePosition(rows, other, r - 1, i - 1);
    }
  }

  lemma {:induction false} IndexIsZero(db: Database, order: string, w: Where, values: seq<string>, id: int)
    requires Arranges(db)
    ensures IndexFrom(db.arrange(order, Selected(db.rows, w, values)), id, 1) == 0 <==>
      forall row :: row in db.rows && Evaluate(w, values, row) ==> row.id != id
  {
    var result := db.arrange(order, Selected(db.rows, w, values));
    IndexIsFirst(result, id, 1);
    var r := IndexFrom(result, id, 1);
    if r != 0 {
      ResultMembers(db, order, w, values, result[r - 1]);
    } else {
      forall row | row in db.rows && Evaluate(w, values, row)
        ensures row.id != id
      {
        ResultMembers(db, order, w, values, row);
      }
    }
  }

  /** For a database that orders the same rows the same way each time: the count is the number of
      rows of the unlimited result; the index of an id is i > 0 if and only if the i-th row has
      it, and 0 if and only if no selected row has it. */
  lemma {:induction false} CountAndIndexAgree(
      db: Database, order: string, w: Where, values: seq<string>, id: int, i: nat)
    requires Arranges(db) && DistinctIds(db.rows)
    ensures var matching := Selected(db.rows, w, values);
      var result := db.arrange(order, matching);
      && |matching| == |result|
      && (0 < i <= |result| ==> (IndexFrom(result, id, 1) == i <==> result[i - 1].id == id))
      && (IndexFrom(result, id, 1) == 0 <==> forall row :: row in db.rows && Evaluate(w, values, row) ==> row.id != id)
  {
    var matching := Selected(db.rows, w, values);
    var result := db.arrange(order, matching);
    SelectedDistinct(db.rows, w, values);
    SameRows(result, matching);
    IndexIsZero(db, order, w, values, id);
    if 0 < i <= |result| {
      IndexIsPosition(result, matching, id, i);
    }
  }

  /** The first `k` pages of `n` rows, one after the other. */
  function Pages(rows: seq<Row>, n: nat, k: nat): seq<Row> {
    if k == 0 then [] else Pages(rows, n, k - 1) + Page(rows, n, (k - 1) * n)
  }

  function Least(a: nat, b: nat): nat {
    if a < b then a else b
  }

  lemma {:induction false} PagesPrefix(rows: seq<Row>, n: nat, k: nat)
    requires n > 0
    ensures Pages(rows, n, k) == rows[..Least(k * n, |rows|)]
  {
    if k > 0 {
      PagesPrefix(rows, n, k - 1);
      var from := (k - 1) * n;
      assert k * n == from + n;
      if from < |rows| {
        var to := Least(from + n, |rows|);
        assert Page(rows, n, from) == rows[from..to];
        assert rows[..from] + rows[from..to] == rows[..to];
      } else {
        assert Page(rows, n, from) == [];
      }
    }
  }

  /** Successive pages concatenate to the whole result: none is missed and none is repeated. */
  lemma {:induction false} PagesCover(rows: seq<Row>, n: nat, k: nat)
    requires n > 0 && k * n >= |rows|
    ensures Pages(rows, n, k) == rows
  {
    PagesPrefix(rows, n, k);
  }

  /** query.h promises at most `limit` rows for every limit that is not negative.  The clause is
      left out when neither number is positive, so the promise is kept for all results exactly
      when the limit is positive or the offset is. */
  lemma LimitKept(limit: nat, offset: int)
    ensures (forall rows :: |Page(rows, limit, offset)| <= limit) <==> limit > 0 || offset > 0
  {
    if limit == 0 && offset <= 0 {
      var rows := [Row(1, map[])];
      assert |Page(rows, limit, offset)| == 1;
    }
  }
}
