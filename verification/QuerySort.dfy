/** Sorting rules of src/query.c: parsing the sort argument and building the ORDER BY text. */
module QuerySort {
  import opened QueryFilters

  /** field_names */
  function FieldName(f: nat): string {
    match f
    case 1 => "trackid"
    case 2 => "artistid"
    case 3 => "albumid"
    case 4 => "title"
    case 5 => "artist"
    case 6 => "album"
    case 7 => "track"
    case 8 => "duration"
    case 9 => "tracks"
    case 10 => "directory"
    case 11 => "directoryprefix"
    case _ => ""
  }

  /** The first field from `i` on with this name; 0 if there is none. */
  function FieldFrom(name: string, i: nat): (f: nat)
    requires 1 <= i <= ALL
    ensures f < FIELDS
    ensures i <= f < ALL ==> name == FieldName(f)
    ensures f == ALL ==> name == "all" || name == "search"
    ensures f == 0 || i <= f
    decreases ALL - i, name
  {
    if i == ALL then if name == "all" || name == "search" then ALL else 0
    else if FieldName(i) == name then i
    else FieldFrom(name, i + 1)
  }

  /** query_field_from_string */
  function FieldOf(name: string): nat {
    FieldFrom(name, 1)
  }

  /** A field and whether it sorts descending. */
  type Rule = (nat, bool)

  function RuleText(maps: Format, r: Rule): string
    requires Mapped(maps, r.0)
  {
    maps[r.0].value + " COLLATE NOCASE " + if r.1 then "DESC" else "ASC"
  }

  /** query_sort: a field that the format has no column for is ignored. */
  function AddRule(order: string, maps: Format, r: Rule): string {
    if !Mapped(maps, r.0) then order
    else (if |order| > 0 then order + ", " else order) + RuleText(maps, r)
  }

  function AddRules(order: string, maps: Format, rules: seq<Rule>): string
    decreases |rules|
  {
    if rules == [] then order else AddRules(AddRule(order, maps, rules[0]), maps, rules[1..])
  }

  /** Where the name ends. */
  function NameEnd(s: string): (n: nat)
    ensures n <= |s| && (n < |s| ==> s[n] == ',')
  {
    if s == "" || s[0] == ',' then 0 else 1 + NameEnd(s[1..])
  }

  function AfterSign(sort: string): string
    requires sort != ""
  {
    if sort[0] == '-' then sort[1..] else sort
  }

  /** What is left after one rule and the comma behind it. */
  function AfterRule(sort: string): (r: string)
    requires sort != ""
    ensures |r| < |sort| || NameEnd(AfterSign(sort)) == 0
  {
    var s := AfterSign(sort);
    var rest := s[NameEnd(s)..];
    if rest == "" then "" else rest[1..]
  }

  /** query_sort_from_string: the rules it adds, and whether it succeeds; at a name it does not
      know it stops, having added the rules before it. */
  function ParseSort(sort: string): (seq<Rule>, bool)
    decreases |sort|
  {
    if sort == "" then ([], true)
    else
      var s := AfterSign(sort);
      var field := FieldOf(s[..NameEnd(s)]);
      if field == 0 then ([], false)
      else
        assert NameEnd(s) > 0;
        var (more, ok) := ParseSort(AfterRule(sort));
        ([(field, sort[0] == '-')] + more, ok)
  }

  // ---------------------------------------------------------------- round trip

  /** A rule as a client writes it: a name and a direction. */
  type NamedRule = (string, bool)

  function RuleSource(r: NamedRule): string {
    (if r.1 then "-" else "") + r.0
  }

  /** The sort argument for a list of rules. */
  function SortSource(rules: seq<NamedRule>): string {
    if rules == [] then ""
    else if |rules| == 1 then RuleSource(rules[0])
    else RuleSource(rules[0]) + "," + SortSource(rules[1..])
  }

  function Fields(rules: seq<NamedRule>): (r: seq<Rule>)
    ensures |r| == |rules|
    ensures forall i :: 0 <= i < |r| ==> r[i] == (FieldOf(rules[i].0), rules[i].1)
  {
    if rules == [] then [] else [(FieldOf(rules[0].0), rules[0].1)] + Fields(rules[1..])
  }

  predicate Lower(name: string) {
    forall i :: 0 <= i < |name| ==> 'a' <= name[i] <= 'z'
  }

  lemma FieldNameLower(f: nat)
    ensures Lower(FieldName(f))
  {
  }

  /** No known name has a comma or starts with the sign. */
  lemma KnownName(name: string)
    requires FieldOf(name) != 0
    ensures name != "" && name[0] != '-' && ',' !in name
  {
    var f := FieldOf(name);
    FieldNameLower(f);
    assert Lower(name);
    assert FieldName(f) == name || f == ALL;
    NamesNotEmpty(f);
  }

  lemma NamesNotEmpty(f: nat)
    ensures 1 <= f < ALL ==> FieldName(f) != ""
  {
  }

  lemma {:induction false} NameEndAt(name: string, rest: string)
    requires ',' !in name && (rest == "" || rest[0] == ',')
    ensures NameEnd(name + rest) == |name|
    decreases |name|
  {
    if name == "" {
      assert name + rest == rest;
    } else {
      assert (name + rest)[1..] == name[1..] + rest;
      NameEndAt(name[1..], rest);
    }
  }

  /** Reading one rule back. */
  lemma ReadsRule(r: NamedRule, rest: string)
    requires FieldOf(r.0) != 0 && (rest == "" || rest[0] == ',')
    ensures var sort := RuleSource(r) + rest;
      && sort != "" && (sort[0] == '-') == r.1
      && AfterSign(sort) == r.0 + rest && NameEnd(AfterSign(sort)) == |r.0|
      && AfterRule(sort) == if rest == "" then "" else rest[1..]
  {
    KnownName(r.0);
    NameEndAt(r.0, rest);
    var sort := RuleSource(r) + rest;
    assert AfterSign(sort) == r.0 + rest;
    assert (r.0 + rest)[|r.0|..] == rest;
  }

  /** Every list of known names with directions is read back as written. */
  lemma {:induction false} ReadsSort(rules: seq<NamedRule>)
    requires forall i :: 0 <= i < |rules| ==> FieldOf(rules[i].0) != 0
    ensures ParseSort(SortSource(rules)) == (Fields(rules), true)
    decreases |rules|
  {
    if rules != [] {
      var r := rules[0];
      var rest := if |rules| == 1 then "" else "," + SortSource(rules[1..]);
      var sort := RuleSource(r) + rest;
      assert SortSource(rules) == sort;
      ReadsRule(r, rest);
      ReadsSort(rules[1..]);
      if |rules| > 1 {
        assert rest[1..] == SortSource(rules[1..]);
      } else {
        assert rules[1..] == [];
      }
      assert AfterSign(sort)[..NameEnd(AfterSign(sort))] == r.0;
    }
  }

  /** Rules with a comma behind each, and then more text. */
  function SortThen(rules: seq<NamedRule>, tail: string): string {
    if rules == [] then tail else RuleSource(rules[0]) + ("," + SortThen(rules[1..], tail))
  }

  predicate StartsUnknown(tail: string) {
    tail != "" && FieldOf(AfterSign(tail)[..NameEnd(AfterSign(tail))]) == 0
  }

  /** At the first name that is not known parsing fails; the rules before it stay. */
  lemma {:induction false} StopsAtUnknown(rules: seq<NamedRule>, tail: string)
    requires (forall i :: 0 <= i < |rules| ==> FieldOf(rules[i].0) != 0) && StartsUnknown(tail)
    ensures ParseSort(SortThen(rules, tail)) == (Fields(rules), false)
    decreases |rules|
  {
    if rules != [] {
      var r, rest := rules[0], "," + SortThen(rules[1..], tail);
      ReadsRule(r, rest);
      StopsAtUnknown(rules[1..], tail);
      assert rest[1..] == SortThen(rules[1..], tail);
      assert AfterSign(RuleSource(r) + rest)[..|r.0|] == r.0;
    }
  }

  function MappedOnly(maps: Format, rules: seq<Rule>): (r: seq<Rule>)
    ensures forall i :: 0 <= i < |r| ==> Mapped(maps, r[i].0)
  {
    if rules == [] then []
    else (if Mapped(maps, rules[0].0) then [rules[0]] else []) + MappedOnly(maps, rules[1..])
  }

  /** The text of an ORDER BY list. */
  function OrderText(maps: Format, rules: seq<Rule>): string
    requires forall i :: 0 <= i < |rules| ==> Mapped(maps, rules[i].0)
  {
    if rules == [] then ""
    else if |rules| == 1 then RuleText(maps, rules[0])
    else RuleText(maps, rules[0]) + ", " + OrderText(maps, rules[1..])
  }

  /** Two lists, with a comma between them unless one is empty. */
  function Joined(a: string, b: string): string {
    if a == "" then b else if b == "" then a else a + ", " + b
  }

  lemma {:induction false} OrderTextCons(maps: Format, r: Rule, rest: seq<Rule>)
    requires Mapped(maps, r.0) && forall i :: 0 <= i < |rest| ==> Mapped(maps, rest[i].0)
    ensures OrderText(maps, [r] + rest) == Joined(RuleText(maps, r), OrderText(maps, rest))
    ensures RuleText(maps, r) != ""
  {
    assert ([r] + rest)[1..] == rest;
    if rest != [] {
      OrderTextSolid(maps, rest);
    }
  }

  lemma {:induction false} OrderTextSolid(maps: Format, rules: seq<Rule>)
    requires rules != [] && forall i :: 0 <= i < |rules| ==> Mapped(maps, rules[i].0)
    ensures OrderText(maps, rules) != ""
  {
  }

  lemma JoinedAssociative(a: string, b: string, c: string)
    ensures Joined(Joined(a, b), c) == Joined(a, Joined(b, c))
  {
    if a != "" && b != "" && c != "" {
      assert a + ", " + b + ", " + c == a + ", " + (b + ", " + c);
    }
  }

  lemma {:induction false} AddsInOrder(order: string, maps: Format, rules: seq<Rule>)
    ensures AddRules(order, maps, rules) == Joined(order, OrderText(maps, MappedOnly(maps, rules)))
    decreases |rules|
  {
    if rules != [] {
      var kept := MappedOnly(maps, rules[1..]);
      AddsInOrder(AddRule(order, maps, rules[0]), maps, rules[1..]);
      if Mapped(maps, rules[0].0) {
        assert MappedOnly(maps, rules) == [rules[0]] + kept;
        assert AddRule(order, maps, rules[0]) == Joined(order, RuleText(maps, rules[0]));
        OrderTextCons(maps, rules[0], kept);
        JoinedAssociative(order, RuleText(maps, rules[0]), OrderText(maps, kept));
      } else {
        assert MappedOnly(maps, rules) == kept;
      }
    }
  }

  /** Sorting by a list of (name, direction) written the documented way appends to the ORDER BY
      text exactly the rules whose field the query has, in order. */
  lemma {:induction false} SortRoundTrip(order: string, maps: Format, rules: seq<NamedRule>)
    requires forall i :: 0 <= i < |rules| ==> FieldOf(rules[i].0) != 0
    ensures ParseSort(SortSource(rules)).1
    ensures AddRules(order, maps, ParseSort(SortSource(rules)).0)
         == Joined(order, OrderText(maps, MappedOnly(maps, Fields(rules))))
  {
    ReadsSort(rules);
    AddsInOrder(order, maps, Fields(rules));
  }
}
