/** When the filters of src/query.c mean what they say: the condition of FiltersMeaning is exact. */
module QueryGaps {
  import opened Common
  import opened QueryFilters
  import opened Like

  /** The same fields are set. */
  predicate SameFields(fs: Filters, fs': Filters) {
    forall f :: 0 <= f < FIELDS ==> (Set(fs, f) <==> Set(fs', f))
  }

  /** Every filter is what query_filter makes of some text. */
  ghost predicate FromClient(fs: Filters) {
    forall f :: 0 <= f < FIELDS && Set(fs, f) ==> exists text :: fs[f].value == FilterText(f, text)
  }

  /** The statement selects the rows that satisfy the filters, whatever the texts of these filters. */
  ghost predicate MeaningKept(maps: Format, fs: Filters) {
    forall root, fs', row :: SameFields(fs, fs') && FromClient(fs') ==>
      (Evaluate(Compiled(maps, fs', 1), Bound(root, fs', 1), row) <==> SatisfiesAll(root, maps, fs', 1, row))
  }

  /** No column is compared both as an id and as text. */
  predicate IdsApart(maps: Format) {
    forall f, g :: 1 <= f < FIELDS && 1 <= g < FIELDS && IsId(f) && !IsId(g) && Mapped(maps, f) && Mapped(maps, g) ==>
      maps[f] != maps[g]
  }

  lemma GapSame(maps: Format, fs: Filters, fs': Filters)
    requires SameFields(fs, fs')
    ensures NoGap(maps, fs, 1) <==> NoGap(maps, fs', 1)
  {
    assert forall f :: 0 <= f < FIELDS ==> (TextFilter(fs, f) <==> TextFilter(fs', f));
  }

  // ---------------------------------------------------------------- texts that show a gap

  /** Ids are 1, mapped text filters are empty, and unmapped ones are 'x'. */
  function ShowingText(maps: Format, f: nat): string {
    if IsId(f) then "1" else if Mapped(maps, f) then "" else "x"
  }

  function Showing(maps: Format, fs: Filters): (fs': Filters)
    ensures forall f :: 0 <= f < FIELDS ==>
      fs'[f] == if Set(fs, f) then Some(FilterText(f, ShowingText(maps, f))) else None
  {
    seq(FIELDS, f requires 0 <= f < FIELDS =>
      if Set(fs, f) then Some(FilterText(f, ShowingText(maps, f))) else None)
  }

  /** Id columns hold 1 and all others an empty text. */
  predicate EmptyRow(maps: Format, row: Row) {
    forall f :: 1 <= f < FIELDS && Mapped(maps, f) ==>
      Column(row, maps[f].value) == if IsId(f) then Integer(1) else Text("")
  }

  /** The row with this value in the columns of the fields from `f` on. */
  function RowFrom(maps: Format, f: nat): Row
    requires f <= FIELDS
    decreases FIELDS - f, maps
  {
    if f == FIELDS then Row(1, map[])
    else
      var row := RowFrom(maps, f + 1);
      if Mapped(maps, f) then row.(cols := row.cols[maps[f].value := if IsId(f) then Integer(1) else Text("")]) else row
  }

  lemma {:induction false} RowFromEmpty(maps: Format, f: nat)
    requires 1 <= f <= FIELDS && IdsApart(maps)
    ensures forall g :: f <= g < FIELDS && Mapped(maps, g) ==>
      Column(RowFrom(maps, f), maps[g].value) == if IsId(g) then Integer(1) else Text("")
    decreases FIELDS - f, maps
  {
    if f < FIELDS {
      RowFromEmpty(maps, f + 1);
    }
  }

  lemma OneIsId()
    ensures Sanitized("1") == "1" && IsInTrue(Integer(1), "1")
  {
    assert "1"[1..] == "";
    assert JsonParser.DigitsFrom(0, "1") == JsonParser.DigitsFrom(1, "");
    assert ParseIdList("1") == Some([1]);
  }

  lemma EmptyMatches()
    ensures Matches("%" + "" + "%", "") && Matches("%", "") && Matches("", "") && !Matches("%/%", "")
  {
    AnyMatches("");
    PlainContains("", "");
    assert Contains("", "") by { assert HasPrefix(""[0..], ""); }
    HasSlash("");
  }

  /** The showing texts are satisfied by such a row, all of them. */
  lemma ShowingSatisfied(maps: Format, fs: Filters, row: Row)
    requires EmptyRow(maps, row)
    ensures SatisfiesAll("", maps, Showing(maps, fs), 1, row)
  {
    var fs' := Showing(maps, fs);
    forall f | 1 <= f < FIELDS && Set(fs', f) && Mapped(maps, f)
      ensures Satisfies("", maps, f, fs'[f].value, row)
    {
      ShowingSatisfiedAt(maps, f, fs'[f].value, row);
    }
  }

  lemma ShowingSatisfiedAt(maps: Format, f: nat, text: string, row: Row)
    requires EmptyRow(maps, row) && 1 <= f < FIELDS && Mapped(maps, f)
    requires text == FilterText(f, ShowingText(maps, f))
    ensures Satisfies("", maps, f, text, row)
  {
    OneIsId();
    EmptyMatches();
    assert "" + "" + "%" == "%" && "" + "" + "%/%" == "%/%";
  }

  // ---------------------------------------------------------------- what a gap does

  /** The first value of an unmapped filter does not match an empty text. */
  lemma ShowingMismatch(maps: Format, fs: Filters, f: nat)
    requires f < FIELDS && TextFilter(fs, f) && !Mapped(maps, f)
    ensures var vs := FieldValues("", Showing(maps, fs), f); vs != [] && !Matches(vs[0], "")
  {
    assert "" + "x" + "%" == "x" + "%" && "" + "x" + "%/%" == "x" + "%/%";
    PlainContains("x", "");
    PlainPrefix("x", "");
    PlainSameEmpty();
  }

  lemma PlainSameEmpty()
    ensures !Matches("x", "")
  {
  }

  /** Every list of slots begins with the first slot of a field. */
  lemma {:induction false} WantedFirst(maps: Format, fs: Filters, f: nat)
    requires f <= FIELDS && Wanted(maps, fs, f) != []
    ensures Wanted(maps, fs, f)[0].1 == 0
    decreases FIELDS - f, fs
  {
    if f < FIELDS && !(TextFilter(fs, f) && Mapped(maps, f)) {
      assert Wanted(maps, fs, f) == Wanted(maps, fs, f + 1);
      WantedFirst(maps, fs, f + 1);
    }
  }

  /** A first placeholder that gets a value which does not match makes the conjunction false. */
  lemma {:induction false} FirstFails(w: Where, values: seq<string>, row: Row)
    requires Marked(w) != [] && Marked(w)[0].Like? && values != []
    requires !IsLikeTrue(Column(row, Marked(w)[0].col), values[0])
    ensures !Evaluate(w, values, row)
    decreases |w|
  {
    if w[0].In? {
      assert Marked(w) == Marked(w[1..]);
      FirstFails(w[1..], values, row);
    }
  }

  /** Slots belong to mapped text filters. */
  lemma {:induction false} WantedText(maps: Format, fs: Filters, f: nat)
    requires f <= FIELDS
    ensures forall t :: t in Wanted(maps, fs, f) ==> t.0 < FIELDS && TextFilter(fs, t.0) && Mapped(maps, t.0)
    decreases FIELDS - f, fs
  {
    if f < FIELDS {
      WantedText(maps, fs, f + 1);
    }
  }

  /** The first placeholder is for LIKE on a text column. */
  lemma {:induction false} FirstMarked(maps: Format, fs: Filters, f: nat, row: Row)
    requires 1 <= f <= FIELDS && EmptyRow(maps, row) && Wanted(maps, fs, f) != []
    ensures var marked := Marked(Compiled(maps, fs, f));
      marked != [] && marked[0].Like? && Column(row, marked[0].col) == Text("")
  {
    CompiledSlots(maps, fs, f);
    WantedFirst(maps, fs, f);
    WantedLater(maps, fs, f);
    WantedText(maps, fs, f);
    var t := Wanted(maps, fs, f)[0];
    assert t in Wanted(maps, fs, f);
    assert Marked(Compiled(maps, fs, f))[0] == SlotExpr(maps, t);
  }

  /** The first unmapped text filter with a mapped one behind it: its value is compared with the
      wrong column. */
  lemma {:induction false} GapFails(maps: Format, fs: Filters, fs': Filters, f: nat, row: Row)
    requires 1 <= f < FIELDS && EmptyRow(maps, row) && TextFilter(fs, f) && !Mapped(maps, f)
    requires fs' == Showing(maps, fs) && Wanted(maps, fs', f + 1) != []
    ensures !Evaluate(Compiled(maps, fs', f), Bound("", fs', f), row)
  {
    var vs := FieldValues("", fs', f);
    ShowingMismatch(maps, fs, f);
    FirstMarked(maps, fs', f + 1, row);
    assert [] + Compiled(maps, fs', f + 1) == Compiled(maps, fs', f + 1);
    FirstFails(Compiled(maps, fs', f + 1), vs + Bound("", fs', f + 1), row);
  }

  /** A gap is at the first field or behind it. */
  lemma GapWhere(maps: Format, fs: Filters, f: nat)
    requires f < FIELDS && !NoGap(maps, fs, f)
    ensures if TextFilter(fs, f) && !Mapped(maps, f) then Wanted(maps, fs, f + 1) != [] else !NoGap(maps, fs, f + 1)
  {
    NoGapStep(maps, fs, f);
    WantedLater(maps, fs, f + 1);
  }

  lemma NothingHere(maps: Format, fs: Filters, f: nat)
    requires f < FIELDS && !TextFilter(fs, f) && !(Set(fs, f) && Mapped(maps, f))
    ensures Compiled(maps, fs, f) == Compiled(maps, fs, f + 1) && Bound("", fs, f) == Bound("", fs, f + 1)
  {
  }

  lemma {:induction false} GapSelectsWrong(maps: Format, fs: Filters, fs': Filters, f: nat, row: Row)
    requires 1 <= f <= FIELDS && EmptyRow(maps, row)
    requires fs' == Showing(maps, fs) && !NoGap(maps, fs', f)
    ensures !Evaluate(Compiled(maps, fs', f), Bound("", fs', f), row)
    decreases FIELDS - f, fs
  {
    if f < FIELDS {
      GapWhere(maps, fs', f);
      if TextFilter(fs', f) && !Mapped(maps, f) {
        GapFails(maps, fs, fs', f, row);
      } else {
        GapSelectsWrong(maps, fs, fs', f + 1, row);
        if Set(fs', f) && Mapped(maps, f) {
          EvaluateField("", maps, fs', f, Compiled(maps, fs', f + 1), Bound("", fs', f + 1), row);
        } else {
          NothingHere(maps, fs', f);
        }
      }
    }
  }

  /** Compiling and binding preserve meaning for all texts that a client may give, if and only if
      no unmapped text filter precedes a mapped one. */
  lemma MeaningExactly(maps: Format, fs: Filters)
    requires IdsApart(maps)
    ensures MeaningKept(maps, fs) <==> NoGap(maps, fs, 1)
  {
    if NoGap(maps, fs, 1) {
      forall root, fs', row | SameFields(fs, fs') && FromClient(fs')
        ensures Evaluate(Compiled(maps, fs', 1), Bound(root, fs', 1), row) <==> SatisfiesAll(root, maps, fs', 1, row)
      {
        GapSame(maps, fs, fs');
        CompiledMeaning(root, maps, fs', 1, row);
      }
    } else {
      var fs', row := Showing(maps, fs), RowFrom(maps, 1);
      GapSame(maps, fs, fs');
      RowFromEmpty(maps, 1);
      ShowingSatisfied(maps, fs, row);
      GapSelectsWrong(maps, fs, fs', 1, row);
      assert SameFields(fs, fs') && FromClient(fs');
    }
  }

  lemma TracksApart()
    ensures IdsApart(TRACKS)
  {
  }

  lemma ArtistsApart()
    ensures IdsApart(ARTISTS)
  {
  }

  lemma AlbumsApart()
    ensures IdsApart(ALBUMS)
  {
  }
}
