/** Id filters of src/query.c: a comma-separated list of numbers, written into the SQL text. */
module QueryIds {
  import opened Common
  import opened JsonParser
  import opened QueryFilters

  /** A number as a client may write it, leading zeros included. */
  predicate IsNumber(g: string) {
    g != "" && forall i :: 0 <= i < |g| ==> IsDigit(g[i])
  }

  predicate AreNumbers(groups: seq<string>) {
    forall i :: 0 <= i < |groups| ==> IsNumber(groups[i])
  }

  function NumberOf(g: string): nat {
    DigitsFrom(0, g).value
  }

  function Numbers(groups: seq<string>): (r: seq<nat>)
    ensures |r| == |groups|
  {
    if groups == [] then [] else [NumberOf(groups[0])] + Numbers(groups[1..])
  }

  function JoinGroups(groups: seq<string>): string {
    if groups == [] then ""
    else if |groups| == 1 then groups[0]
    else groups[0] + ("," + JoinGroups(groups[1..]))
  }

  // ---------------------------------------------------------------- reading groups

  lemma {:induction false} DigitsWhole(acc: nat, g: string)
    requires forall i :: 0 <= i < |g| ==> IsDigit(g[i])
    ensures DigitsFrom(acc, g).rest == ""
    decreases |g|
  {
    if g != "" {
      DigitsWhole(10 * acc + (g[0] - '0') as nat, g[1..]);
    }
  }

  /** The text starts with the number `n`, and `rest` follows it. */
  predicate NumberFirst(text: string, n: nat, rest: string) {
    text != "" && IsDigit(text[0]) && DigitsFrom(0, text) == Read(n, rest)
  }

  lemma GroupFirst(g: string, rest: string)
    requires IsNumber(g) && Separated(rest)
    ensures NumberFirst(g + rest, NumberOf(g), rest)
  {
    DigitsFromConcat(0, g, rest);
    assert (g + rest)[0] == g[0];
  }

  lemma {:induction false} ReadsOne(text: string, n: nat)
    requires NumberFirst(text, n, "")
    ensures ParseIdList(text) == Some([n])
  {
  }

  lemma {:induction false} ReadsMore(text: string, n: nat, more: string, ids: seq<nat>)
    requires NumberFirst(text, n, "," + more)
    requires ParseIdList(more) == Some(ids)
    ensures ParseIdList(text) == Some([n] + ids)
  {
    assert ("," + more)[1..] == more;
  }

  /** Every list of numbers is read as their values. */
  lemma {:induction false} ReadsGroups(groups: seq<string>)
    requires groups != [] && AreNumbers(groups)
    ensures ParseIdList(JoinGroups(groups)) == Some(Numbers(groups))
    decreases |groups|
  {
    var g, gs := groups[0], groups[1..];
    if gs == [] {
      GroupFirst(g, "");
      assert g + "" == g;
      ReadsOne(g, NumberOf(g));
      assert Numbers(groups) == [NumberOf(g)];
    } else {
      ReadsGroups(gs);
      GroupFirst(g, "," + JoinGroups(gs));
      ReadsMore(g + ("," + JoinGroups(gs)), NumberOf(g), JoinGroups(gs), Numbers(gs));
    }
  }

  // ---------------------------------------------------------------- which texts are lists

  predicate AreIdChars(text: string) {
    forall i :: 0 <= i < |text| ==> IsIdChar(text[i])
  }

  /** No comma at either end and no two in a row. */
  predicate SingleCommas(text: string) {
    forall i :: 0 <= i < |text| && text[i] == ',' ==> 0 < i < |text| - 1 && text[i - 1] != ','
  }

  function DigitCount(text: string): (n: nat)
    ensures n <= |text| && forall i :: 0 <= i < n ==> IsDigit(text[i])
    ensures n < |text| ==> !IsDigit(text[n])
  {
    if text == "" || !IsDigit(text[0]) then 0 else 1 + DigitCount(text[1..])
  }

  lemma {:induction false} DigitsStop(acc: nat, text: string)
    ensures DigitsFrom(acc, text).rest == text[DigitCount(text)..]
    decreases |text|
  {
    if text != "" && IsDigit(text[0]) {
      DigitsStop(10 * acc + (text[0] - '0') as nat, text[1..]);
      assert text[1..][DigitCount(text[1..])..] == text[DigitCount(text)..];
    }
  }

  lemma {:induction false} SplitGroups(text: string) returns (groups: seq<string>)
    requires text != "" && AreIdChars(text) && SingleCommas(text)
    ensures groups != [] && AreNumbers(groups) && JoinGroups(groups) == text
    decreases |text|
  {
    var n := DigitCount(text);
    var g := text[..n];
    assert n > 0 by {
      assert text[0] != ',';
    }
    if n == |text| {
      groups := [g];
    } else {
      var rest := text[n + 1..];
      assert text == g + ("," + rest);
      assert rest != "";
      assert SingleCommas(rest) by {
        assert forall i :: 0 <= i < |rest| ==> rest[i] == text[n + 1 + i];
      }
      var more := SplitGroups(rest);
      groups := [g] + more;
      assert groups[1..] == more;
    }
  }

  lemma CommasBehind(text: string, n: nat)
    requires 0 < n < |text| && (forall i :: 0 <= i < n ==> IsDigit(text[i])) && text[n] == ','
    requires n + 1 < |text| && SingleCommas(text[n + 1..])
    ensures SingleCommas(text)
  {
    var rest := text[n + 1..];
    forall i | 0 <= i < |text| && text[i] == ','
      ensures 0 < i < |text| - 1 && text[i - 1] != ','
    {
      if i > n {
        assert rest[i - n - 1] == ',';
        assert rest[i - n - 2] == text[i - 1];
      }
    }
  }

  lemma {:induction false} ListsOnly(text: string)
    requires ParseIdList(text).Some?
    ensures text != "" && SingleCommas(text)
    decreases |text|
  {
    var n := DigitCount(text);
    DigitsStop(0, text);
    if n < |text| {
      assert text[n..][1..] == text[n + 1..] && text[n..][0] == text[n];
      ListsOnly(text[n + 1..]);
      CommasBehind(text, n);
    }
  }

  lemma {:induction false} SanitizedIdChars(text: string)
    ensures AreIdChars(Sanitized(text))
  {
    SanitizedClean(text);
  }

  /** Whatever a client gives as an id filter, the statement prepares if and only if what is kept of
      the text has no comma at either end and no two in a row; then it is a list of numbers, and
      the filter selects exactly the rows with one of these ids. */
  lemma IdFilterMeaning(f: nat, text: string, v: QueryFilters.Value) returns (groups: seq<string>)
    requires IsId(f)
    ensures var ids := FilterText(f, text);
      && (ParseIds(ids).Some? <==> SingleCommas(ids))
      && (SingleCommas(ids) ==>
            && AreNumbers(groups) && JoinGroups(groups) == ids
            && (IsInTrue(v, ids) <==> v.Integer? && v.n in Numbers(groups)))
      && (!SingleCommas(ids) ==> !IsInTrue(v, ids))
  {
    var ids := FilterText(f, text);
    groups := [];
    SanitizedIdChars(text);
    if ids != "" {
      if SingleCommas(ids) {
        groups := SplitGroups(ids);
        ReadsGroups(groups);
      } else if ParseIdList(ids).Some? {
        ListsOnly(ids);
      }
    }
  }

  // ---------------------------------------------------------------- the ids of a client

  function Decimals(ids: seq<nat>): (r: seq<string>)
    ensures |r| == |ids|
  {
    if ids == [] then [] else [Json.Decimal(ids[0])] + Decimals(ids[1..])
  }

  lemma {:induction false} DecimalsRead(ids: seq<nat>)
    ensures AreNumbers(Decimals(ids)) && Numbers(Decimals(ids)) == ids
    decreases |ids|
  {
    if ids != [] {
      DecimalsRead(ids[1..]);
      DecimalDigits(ids[0]);
      DecimalValue(ids[0]);
      assert Decimals(ids)[1..] == Decimals(ids[1..]);
    }
  }

  lemma {:induction false} SanitizedSame(s: string)
    requires AreIdChars(s)
    ensures Sanitized(s) == s
    decreases |s|
  {
    if s != "" {
      SanitizedSame(s[1..]);
    }
  }

  lemma {:induction false} JoinedIdChars(groups: seq<string>)
    requires AreNumbers(groups)
    ensures AreIdChars(JoinGroups(groups))
    decreases |groups|
  {
    if |groups| > 1 {
      JoinedIdChars(groups[1..]);
    }
  }

  /** Ids written in decimal and joined by commas select exactly the rows with these ids. */
  lemma {:induction false} IdsRoundTrip(f: nat, ids: seq<nat>, v: QueryFilters.Value)
    requires IsId(f)
    ensures IsInTrue(v, FilterText(f, JoinGroups(Decimals(ids)))) <==> v.Integer? && v.n in ids
  {
    var groups := Decimals(ids);
    DecimalsRead(ids);
    JoinedIdChars(groups);
    SanitizedSame(JoinGroups(groups));
    if ids != [] {
      ReadsGroups(groups);
      assert JoinGroups(groups) != "";
    }
  }
}
