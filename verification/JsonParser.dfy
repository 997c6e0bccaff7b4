/** A reader for the JSON of RFC 8259, sections 2 to 7, used as the specification of src/json.c:
    what the writer produces must read back as the document it was given.  Only null, fractions,
    exponents and \u escapes, which the writer has no call for, are not read. */
module JsonParser {
  import opened Common
  import opened Json

  datatype Result<+T> = Fail | Read(value: T, rest: string)

  function SkipWs(s: string): (r: string)
    ensures |r| <= |s|
  {
    if s != "" && s[0] in " \t\n\r" then SkipWs(s[1..]) else s
  }

  predicate IsDigit(c: char) {
    '0' <= c <= '9'
  }

  function DigitsFrom(acc: nat, s: string): (r: Result<nat>)
    ensures r.Read? && |r.rest| <= |s|
    decreases |s|
  {
    if s != "" && IsDigit(s[0]) then DigitsFrom(10 * acc + (s[0] - '0') as nat, s[1..]) else Read(acc, s)
  }

  /** int = zero / ( digit1-9 *DIGIT ) */
  function ParseNat(s: string): (r: Result<nat>)
    ensures r.Read? ==> |r.rest| < |s|
  {
    if s == "" || !IsDigit(s[0]) then Fail
    else if s[0] == '0' then Read(0, s[1..])
    else DigitsFrom((s[0] - '0') as nat, s[1..])
  }

  function Unescape(c: char): (r: Option<char>) {
    if c == '\"' || c == '\\' || c == '/' then Some(c)
    else if c == 'b' then Some('\U{8}')
    else if c == 'f' then Some('\U{C}')
    else if c == 'n' then Some('\n')
    else if c == 'r' then Some('\r')
    else if c == 't' then Some('\t')
    else None
  }

  /** The rest of a string whose opening quote has been read. */
  function ParseString(s: string): (r: Result<string>)
    ensures r.Read? ==> |r.rest| < |s|
    decreases |s|
  {
    if s == "" || s[0] < ' ' then Fail
    else if s[0] == '\"' then Read("", s[1..])
    else if s[0] != '\\' then Prefixed(s[0], ParseString(s[1..]))
    else if |s| < 2 || Unescape(s[1]).None? then Fail
    else Prefixed(Unescape(s[1]).value, ParseString(s[2..]))
  }

  function Prefixed(c: char, r: Result<string>): Result<string> {
    match r
    case Fail => Fail
    case Read(value, rest) => Read([c] + value, rest)
  }

  function ParseValue(text: string): (r: Result<Value>)
    ensures r.Read? ==> |r.rest| < |text|
    decreases |text|, 2
  {
    var s := SkipWs(text);
    if s == "" then Fail
    else if s[0] == '\"' then
      var r := ParseString(s[1..]);
      if r.Fail? then Fail else Read(Str(r.value), r.rest)
    else if s[0] == '[' then ParseArray(s[1..])
    else if s[0] == '{' then ParseObject(s[1..])
    else ParseLiteral(s)
  }

  /** Numbers, true and false. */
  function ParseLiteral(s: string): (r: Result<Value>)
    requires s != ""
    ensures r.Read? ==> |r.rest| < |s|
  {
    if "true" <= s then Read(Bool(true), s[4..])
    else if "false" <= s then Read(Bool(false), s[5..])
    else if s[0] == '-' then
      var r := ParseNat(s[1..]);
      if r.Fail? then Fail else Read(Int(0 - r.value), r.rest)
    else
      var r := ParseNat(s);
      if r.Fail? then Fail else Read(Int(r.value), r.rest)
  }

  function ParseArray(text: string): (r: Result<Value>)
    ensures r.Read? ==> |r.rest| < |text|
    decreases |text|, 4
  {
    var s := SkipWs(text);
    if s != "" && s[0] == ']' then Read(Array(NoItems), s[1..])
    else
      var r := ParseItems(s);
      if r.Fail? then Fail else Read(Array(r.value), r.rest)
  }

  /** value *( value-separator value ) end-array */
  function ParseItems(s: string): (r: Result<Items>)
    ensures r.Read? ==> |r.rest| < |s|
    decreases |s|, 3
  {
    var v := ParseValue(s);
    if v.Fail? then Fail
    else
      var r := ParseMoreItems(v.rest);
      if r.Fail? then Fail else Read(Item(v.value, r.value), r.rest)
  }

  function ParseMoreItems(text: string): (r: Result<Items>)
    ensures r.Read? ==> |r.rest| < |text|
    decreases |text|, 4
  {
    var s := SkipWs(text);
    if s == "" then Fail
    else if s[0] == ']' then Read(NoItems, s[1..])
    else if s[0] == ',' then ParseItems(s[1..])
    else Fail
  }

  function ParseObject(text: string): (r: Result<Value>)
    ensures r.Read? ==> |r.rest| < |text|
    decreases |text|, 4
  {
    var s := SkipWs(text);
    if s != "" && s[0] == '}' then Read(Object(NoMembers), s[1..])
    else
      var r := ParseMembers(s);
      if r.Fail? then Fail else Read(Object(r.value), r.rest)
  }

  /** string name-separator */
  function ParseName(text: string): (r: Result<string>)
    ensures r.Read? ==> |r.rest| < |text|
  {
    var s := SkipWs(text);
    if s == "" || s[0] != '\"' then Fail
    else
      var name := ParseString(s[1..]);
      if name.Fail? then Fail
      else
        var c := SkipWs(name.rest);
        if c == "" || c[0] != ':' then Fail else Read(name.value, c[1..])
  }

  /** member *( value-separator member ) end-object */
  function ParseMembers(s: string): (r: Result<Members>)
    ensures r.Read? ==> |r.rest| < |s|
    decreases |s|, 3
  {
    var name := ParseName(s);
    if name.Fail? then Fail
    else
      var v := ParseValue(name.rest);
      if v.Fail? then Fail
      else
        var r := ParseMoreMembers(v.rest);
        if r.Fail? then Fail else Read(Member(name.value, v.value, r.value), r.rest)
  }

  function ParseMoreMembers(text: string): (r: Result<Members>)
    ensures r.Read? ==> |r.rest| < |text|
    decreases |text|, 4
  {
    var s := SkipWs(text);
    if s == "" then Fail
    else if s[0] == '}' then Read(NoMembers, s[1..])
    else if s[0] == ',' then ParseMembers(s[1..])
    else Fail
  }

  /** JSON-text = ws value ws */
  function Parse(text: string): Option<Value> {
    var r := ParseValue(text);
    if r.Read? && SkipWs(r.rest) == "" then Some(r.value) else None
  }

  // ---------------------------------------------------------------- what can be read back

  /** json_string escapes five control characters and copies every other byte. */
  predicate CleanString(s: string) {
    forall i :: 0 <= i < |s| ==> s[i] >= ' ' || s[i] in ESCAPE_FROM
  }

  /** json_define does not escape the name at all. */
  predicate PlainName(s: string) {
    forall i :: 0 <= i < |s| ==> s[i] >= ' ' && s[i] != '\"' && s[i] != '\\'
  }

  predicate Clean(v: Value) {
    match v
    case Bool(_) => true
    case Int(_) => true
    case Str(s) => CleanString(s)
    case Array(items) => CleanItems(items)
    case Object(members) => CleanMembers(members)
  }

  predicate CleanItems(items: Items) {
    items.Item? ==> Clean(items.head) && CleanItems(items.tail)
  }

  predicate CleanMembers(members: Members) {
    members.Member? ==> PlainName(members.name) && Clean(members.value) && CleanMembers(members.tail)
  }

  // ---------------------------------------------------------------- numbers

  lemma {:induction false} DecimalDigits(n: nat)
    ensures |Decimal(n)| > 0
    ensures forall i :: 0 <= i < |Decimal(n)| ==> IsDigit(Decimal(n)[i])
    ensures Decimal(n)[0] == '0' <==> n == 0
  {
    if n >= 10 {
      DecimalDigits(n / 10);
    }
  }

  /** Reading on from an accumulated prefix. */
  lemma {:induction false} DigitsFromConcat(acc: nat, a: string, b: string)
    requires forall i :: 0 <= i < |a| ==> IsDigit(a[i])
    ensures DigitsFrom(acc, a + b) == DigitsFrom(DigitsFrom(acc, a).value, b)
    decreases |a|
  {
    if a == "" {
      assert a + b == b;
    } else {
      assert (a + b)[1..] == a[1..] + b;
      DigitsFromConcat(10 * acc + (a[0] - '0') as nat, a[1..], b);
    }
  }

  lemma {:induction false} DecimalValue(n: nat)
    ensures DigitsFrom(0, Decimal(n)) == Read(n, "")
  {
    if n < 10 {
      assert DigitsFrom(n, "") == Read(n, "");
      assert Decimal(n)[1..] == "";
    } else {
      DecimalDigits(n / 10);
      DecimalValue(n / 10);
      var last := [Digit(n % 10)];
      DigitsFromConcat(0, Decimal(n / 10), last);
      assert last[1..] == "";
      assert DigitsFrom(n / 10, last) == DigitsFrom(n, "");
    }
  }

  /** No digit may follow, or it would be read as part of the number. */
  predicate Separated(rest: string) {
    rest == "" || !IsDigit(rest[0])
  }

  lemma {:induction false} ReadsDecimal(n: nat, rest: string)
    requires Separated(rest)
    ensures ParseNat(Decimal(n) + rest) == Read(n, rest)
  {
    var d := Decimal(n);
    DecimalDigits(n);
    DecimalValue(n);
    DigitsFromConcat(0, d, rest);
    assert (d + rest)[0] == d[0];
    if n == 0 {
      assert (d + rest)[1..] == rest;
    }
  }

  // ---------------------------------------------------------------- strings

  /** The escapes of the writer are undone by the escapes of the grammar. */
  lemma EscapeInverse(c: char)
    requires c in ESCAPE_FROM
    ensures Unescape(ESCAPE_TO[EscapeIndex(c)]) == Some(c)
  {
  }

  lemma {:induction false} ReadsEscapedChar(c: char, tail: string)
    requires c >= ' ' || c in ESCAPE_FROM
    ensures ParseString(Escaped([c]) + tail) == Prefixed(c, ParseString(tail))
  {
    assert [c][1..] == "" && Escaped("") == "";
    if c in ESCAPE_FROM {
      EscapeInverse(c);
      var e := ['\\', ESCAPE_TO[EscapeIndex(c)]];
      assert Escaped([c]) == e;
      assert (e + tail)[2..] == tail;
    } else {
      assert Escaped([c]) == [c];
      assert ([c] + tail)[1..] == tail;
    }
  }

  lemma {:induction false} ReadsQuote(rest: string)
    ensures ParseString("\"" + rest) == Read("", rest)
  {
    assert ("\"" + rest)[1..] == rest;
  }

  /** The rest of the text, and one character in front of it. */
  lemma {:induction false} ReadsMore(c: char, s: string, end: string, rest: string)
    requires c >= ' ' || c in ESCAPE_FROM
    requires ParseString(Escaped(s) + end) == Read(s, rest)
    ensures ParseString(Escaped([c]) + Escaped(s) + end) == Read([c] + s, rest)
  {
    assert Escaped([c]) + Escaped(s) + end == Escaped([c]) + (Escaped(s) + end);
    ReadsEscapedChar(c, Escaped(s) + end);
  }

  lemma {:induction false} ReadsString(s: string, rest: string)
    requires CleanString(s)
    ensures ParseString(Escaped(s) + "\"" + rest) == Read(s, rest)
    decreases |s|
  {
    var end := "\"" + rest;
    assert Escaped(s) + "\"" + rest == Escaped(s) + end;
    if s == "" {
      assert Escaped(s) + end == end;
      ReadsQuote(rest);
    } else {
      ReadsString(s[1..], rest);
      assert Escaped(s[1..]) + end == Escaped(s[1..]) + "\"" + rest;
      ReadsMore(s[0], s[1..], end, rest);
      EscapedFirst(s);
      assert [s[0]] + s[1..] == s;
    }
  }

  lemma {:induction false} EscapedFirst(s: string)
    requires s != ""
    ensures Escaped(s) == Escaped([s[0]]) + Escaped(s[1..])
  {
    assert [s[0]][1..] == "";
  }

  /** A control character other than the escaped five is copied, and no reader accepts it. */
  lemma {:induction false} RejectsUnclean(s: string, tail: string)
    requires !CleanString(s)
    ensures ParseString(Escaped(s) + tail).Fail?
    decreases |s|
  {
    EscapedFirst(s);
    assert Escaped(s) + tail == Escaped([s[0]]) + (Escaped(s[1..]) + tail);
    if s[0] >= ' ' || s[0] in ESCAPE_FROM {
      RejectsUnclean(s[1..], tail);
      ReadsEscapedChar(s[0], Escaped(s[1..]) + tail);
    } else {
      assert Escaped([s[0]])[0] == s[0];
    }
  }

  lemma {:induction false} ReadsName(name: string, rest: string)
    requires PlainName(name)
    ensures ParseString(name + "\"" + rest) == Read(name, rest)
    decreases |name|
  {
    var text := name + "\"" + rest;
    if name == "" {
      assert text[1..] == rest;
    } else {
      ReadsName(name[1..], rest);
      assert text[1..] == name[1..] + "\"" + rest;
      assert [name[0]] + name[1..] == name;
    }
  }

  function Backslashes(k: nat): string {
    seq(k, _ => '\\')
  }

  /** Once a backslash has been copied unescaped, reading can never catch up with the name. */
  lemma {:induction false} NeverCatchesUp(k: nat, name: string, rest: string)
    requires k > 0
    ensures var r := ParseString(name + "\"" + rest); r.Read? ==> r.value != Backslashes(k) + name
    decreases |name|
  {
    var text := name + "\"" + rest;
    var r := ParseString(text);
    if r.Read? && r.value == Backslashes(k) + name {
      assert r.value[0] == '\\';
      if name != "" && name[0] == '\\' && |name| > 1 && name[1] == '\\' {
        assert text[2..] == name[2..] + "\"" + rest;
        assert r.value[1..] == Backslashes(k - 1) + name;
        assert Backslashes(k - 1) + name == Backslashes(k + 1) + name[2..];
        NeverCatchesUp(k + 1, name[2..], rest);
      }
      assert false;
    }
  }

  /** A name with a quote, a backslash or a control character is not read back as itself. */
  lemma {:induction false} RejectsOddName(name: string, rest: string)
    requires !PlainName(name)
    ensures var r := ParseString(name + "\"" + rest); r.Read? ==> r.value != name
    decreases |name|
  {
    var text := name + "\"" + rest;
    var r := ParseString(text);
    assert text[0] == name[0];
    if r.Read? && r.value == name {
      if name[0] == '\\' {
        assert r.value[0] == '\\';
        assert text[1] == '\\';
        assert |name| > 1 && name[1] == '\\';
        assert text[2..] == name[2..] + "\"" + rest;
        assert name[1..] == Backslashes(1) + name[2..];
        NeverCatchesUp(1, name[2..], rest);
      } else {
        assert text[1..] == name[1..] + "\"" + rest;
        RejectsOddName(name[1..], rest);
      }
    }
  }

  // ---------------------------------------------------------------- documents

  /** The first character of a document is not white space. */
  lemma {:induction false} StartsSolid(v: Value)
    ensures Text(v) != "" && Text(v)[0] !in " \t\n\r"
    ensures Text(v)[0] != ']' && Text(v)[0] != '}'
    ensures v.Bool? <==> Text(v)[0] in "tf"
    ensures v.Str? <==> Text(v)[0] == '\"'
    ensures v.Array? <==> Text(v)[0] == '['
    ensures v.Object? <==> Text(v)[0] == '{'
  {
    match v
    case Int(i) => DecimalDigits(if i < 0 then -i else i);
    case _ =>
  }

  lemma ReadsNegative(d: string, n: nat, rest: string)
    requires ParseNat(d + rest) == Read(n, rest)
    ensures ParseLiteral("-" + d + rest) == Read(Int(0 - n), rest)
  {
    assert ("-" + d + rest)[1..] == d + rest;
  }

  lemma ReadsInt(i: int, rest: string)
    requires Separated(rest)
    ensures ParseLiteral(IntText(i) + rest) == Read(Int(i), rest)
  {
    if i < 0 {
      ReadsDecimal(-i, rest);
      ReadsNegative(Decimal(-i), -i, rest);
    } else {
      DecimalDigits(i);
      ReadsDecimal(i, rest);
      assert (IntText(i) + rest)[0] == IntText(i)[0];
    }
  }

  lemma ReadsBool(b: bool, rest: string)
    ensures ParseLiteral(Text(Bool(b)) + rest) == Read(Bool(b), rest)
  {
    var text := Text(Bool(b)) + rest;
    assert text[0] == Text(Bool(b))[0];
    assert text[..|Text(Bool(b))|] == Text(Bool(b)) && text[|Text(Bool(b))|..] == rest;
  }

  // The text of the rest of an array or an object, grouped the way it is read.

  function ItemsTail(items: Items, rest: string): string {
    if items.NoItems? then "]" + rest else "," + (Text(items.head) + ItemsTail(items.tail, rest))
  }

  function MemberThen(members: Members, rest: string): string
    requires members.Member?
    decreases members, 0
  {
    "\"" + (members.name + "\"" + (":" + (Text(members.value) + MembersTail(members.tail, rest))))
  }

  function MembersTail(members: Members, rest: string): string
    decreases members, 1
  {
    if members.NoMembers? then "}" + rest else "," + MemberThen(members, rest)
  }

  lemma {:induction false} ItemsRegroup(items: Items, rest: string)
    ensures MoreItems(items) + "]" + rest == ItemsTail(items, rest)
  {
    if items.Item? {
      ItemsRegroup(items.tail, rest);
      assert MoreItems(items) + "]" + rest == "," + (Text(items.head) + (MoreItems(items.tail) + "]" + rest));
    }
  }

  lemma {:induction false} MemberRegroup(members: Members, more: string, rest: string)
    requires members.Member? && more == MembersTail(members.tail, rest)
    ensures MemberText(members) + more == MemberThen(members, rest)
  {
  }

  lemma {:induction false} MembersRegroup(members: Members, rest: string)
    ensures MoreMembers(members) + "}" + rest == MembersTail(members, rest)
  {
    if members.Member? {
      MembersRegroup(members.tail, rest);
      MemberRegroup(members, MembersTail(members.tail, rest), rest);
      assert MoreMembers(members) + "}" + rest
          == "," + (MemberText(members) + (MoreMembers(members.tail) + "}" + rest));
    }
  }

  lemma {:induction false} TailsSeparated(items: Items, members: Members, rest: string)
    ensures Separated(ItemsTail(items, rest)) && Separated(MembersTail(members, rest))
  {
  }

  lemma Inside(left: char, a: string, b: string, right: string, rest: string)
    ensures ([left] + (a + b) + right + rest)[0] == left
    ensures ([left] + (a + b) + right + rest)[1..] == a + (b + right + rest)
  {
  }

  lemma {:induction false} ArrayRegroup(items: Items, rest: string)
    ensures (Text(Array(items)) + rest)[0] == '['
    ensures (Text(Array(items)) + rest)[1..]
         == if items.NoItems? then "]" + rest else Text(items.head) + ItemsTail(items.tail, rest)
  {
    if items.Item? {
      ItemsRegroup(items.tail, rest);
      Inside('[', Text(items.head), MoreItems(items.tail), "]", rest);
    }
  }

  lemma {:induction false} ObjectRegroup(members: Members, rest: string)
    ensures (Text(Object(members)) + rest)[0] == '{'
    ensures (Text(Object(members)) + rest)[1..]
         == if members.NoMembers? then "}" + rest else MemberThen(members, rest)
  {
    if members.Member? {
      MembersRegroup(members.tail, rest);
      MemberRegroup(members, MembersTail(members.tail, rest), rest);
      Inside('{', MemberText(members), MoreMembers(members.tail), "}", rest);
    }
  }

  /** Reading the text of a document, whatever separator follows it, gives the document back and
      stops right behind it. */
  lemma {:induction false} ReadsBack(v: Value, rest: string)
    requires Clean(v) && Separated(rest)
    ensures ParseValue(Text(v) + rest) == Read(v, rest)
    decreases v, 1
  {
    StartsSolid(v);
    var text := Text(v) + rest;
    assert text[0] == Text(v)[0];
    match v
    case Bool(b) => ReadsBool(b, rest);
    case Int(i) => ReadsInt(i, rest);
    case Str(s) =>
      ReadsString(s, rest);
      assert text[1..] == Escaped(s) + "\"" + rest;
    case Array(items) =>
      ArrayRegroup(items, rest);
      ReadsArray(items, rest);
    case Object(members) =>
      ObjectRegroup(members, rest);
      ReadsObject(members, rest);
  }

  lemma {:induction false} ReadsArray(items: Items, rest: string)
    requires CleanItems(items)
    ensures ParseArray(if items.NoItems? then "]" + rest else Text(items.head) + ItemsTail(items.tail, rest))
         == Read(Array(items), rest)
    decreases items, 5
  {
    if items.NoItems? {
      assert ("]" + rest)[1..] == rest;
    } else {
      StartsSolid(items.head);
      assert (Text(items.head) + ItemsTail(items.tail, rest))[0] == Text(items.head)[0];
      ReadsItems(items, rest);
    }
  }

  lemma {:induction false} ReadsItems(items: Items, rest: string)
    requires items.Item? && CleanItems(items)
    ensures ParseItems(Text(items.head) + ItemsTail(items.tail, rest)) == Read(items, rest)
    decreases items, 3
  {
    TailsSeparated(items.tail, NoMembers, rest);
    ReadsBack(items.head, ItemsTail(items.tail, rest));
    ReadsMoreItems(items.tail, rest);
  }

  lemma {:induction false} ReadsMoreItems(items: Items, rest: string)
    requires CleanItems(items)
    ensures ParseMoreItems(ItemsTail(items, rest)) == Read(items, rest)
    decreases items, 4
  {
    if items.NoItems? {
      assert ("]" + rest)[1..] == rest;
    } else {
      ReadsItems(items, rest);
      assert ItemsTail(items, rest)[1..] == Text(items.head) + ItemsTail(items.tail, rest);
    }
  }

  lemma {:induction false} ReadsObject(members: Members, rest: string)
    requires CleanMembers(members)
    ensures ParseObject(if members.NoMembers? then "}" + rest else MemberThen(members, rest))
         == Read(Object(members), rest)
    decreases members, 5
  {
    if members.NoMembers? {
      assert ("}" + rest)[1..] == rest;
    } else {
      ReadsMembers(members, rest);
    }
  }

  lemma ReadsMemberName(name: string, tail: string)
    requires PlainName(name)
    ensures ParseName("\"" + (name + "\"" + (":" + tail))) == Read(name, tail)
  {
    ReadsName(name, ":" + tail);
    assert ("\"" + (name + "\"" + (":" + tail)))[1..] == name + "\"" + (":" + tail);
    assert (":" + tail)[1..] == tail;
  }

  lemma {:induction false} ReadsMembers(members: Members, rest: string)
    requires members.Member? && CleanMembers(members)
    ensures ParseMembers(MemberThen(members, rest)) == Read(members, rest)
    decreases members, 3
  {
    var tail := MembersTail(members.tail, rest);
    ReadsMemberName(members.name, Text(members.value) + tail);
    TailsSeparated(NoItems, members.tail, rest);
    ReadsBack(members.value, tail);
    ReadsMoreMembers(members.tail, rest);
  }

  lemma {:induction false} ReadsMoreMembers(members: Members, rest: string)
    requires CleanMembers(members)
    ensures ParseMoreMembers(MembersTail(members, rest)) == Read(members, rest)
    decreases members, 4
  {
    if members.NoMembers? {
      assert ("}" + rest)[1..] == rest;
    } else {
      ReadsMembers(members, rest);
      assert MembersTail(members, rest)[1..] == MemberThen(members, rest);
    }
  }

  // ---------------------------------------------------------------- nothing else reads back

  /** If reading the text of a document gives that document, its names are plain and its strings
      clean. */
  lemma {:induction false} OnlyCleanReadsBack(v: Value, rest: string)
    requires var r := ParseValue(Text(v) + rest); r.Read? && r.value == v
    ensures Clean(v)
    decreases v, 1
  {
    StartsSolid(v);
    var text := Text(v) + rest;
    assert text[0] == Text(v)[0];
    match v
    case Bool(_) =>
    case Int(_) =>
    case Str(s) =>
      assert text[1..] == Escaped(s) + ("\"" + rest);
      if !CleanString(s) {
        RejectsUnclean(s, "\"" + rest);
      }
    case Array(items) =>
      ArrayRegroup(items, rest);
      if items.Item? {
        StartsSolid(items.head);
        assert text[1..][0] == Text(items.head)[0];
        OnlyCleanItems(items, rest);
      }
    case Object(members) =>
      ObjectRegroup(members, rest);
      if members.Member? {
        OnlyCleanMembers(members, rest);
      }
  }

  lemma {:induction false} OnlyCleanItems(items: Items, rest: string)
    requires items.Item?
    requires var r := ParseItems(Text(items.head) + ItemsTail(items.tail, rest)); r.Read? && r.value == items
    ensures CleanItems(items)
    decreases items, 0
  {
    var tail := ItemsTail(items.tail, rest);
    TailsSeparated(items.tail, NoMembers, rest);
    OnlyCleanReadsBack(items.head, tail);
    ReadsBack(items.head, tail);
    if items.tail.Item? {
      assert tail[1..] == Text(items.tail.head) + ItemsTail(items.tail.tail, rest);
      OnlyCleanItems(items.tail, rest);
    }
  }

  lemma OnlyPlainName(name: string, tail: string)
    requires var r := ParseName("\"" + (name + "\"" + (":" + tail))); r.Read? && r.value == name
    ensures PlainName(name)
  {
    assert ("\"" + (name + "\"" + (":" + tail)))[1..] == name + "\"" + (":" + tail);
    if !PlainName(name) {
      RejectsOddName(name, ":" + tail);
    }
  }

  lemma {:induction false} OnlyCleanMembers(members: Members, rest: string)
    requires members.Member?
    requires var r := ParseMembers(MemberThen(members, rest)); r.Read? && r.value == members
    ensures CleanMembers(members)
    decreases members, 0
  {
    var tail := MembersTail(members.tail, rest);
    OnlyPlainName(members.name, Text(members.value) + tail);
    ReadsMemberName(members.name, Text(members.value) + tail);
    TailsSeparated(NoItems, members.tail, rest);
    OnlyCleanReadsBack(members.value, tail);
    ReadsBack(members.value, tail);
    if members.tail.Member? {
      assert tail[1..] == MemberThen(members.tail, rest);
      OnlyCleanMembers(members.tail, rest);
    }
  }

  // ---------------------------------------------------------------- the round trip

  /** What a client reads from the buffer after the calls of a document on a new writer is the
      document, exactly when no member name has a quote, a backslash or a control character and
      no string has a control character other than the five that are escaped. */
  lemma {:induction false} RoundTrip(v: Value)
    ensures Parse(Emit(State("", false), v).text) == Some(v) <==> Clean(v)
  {
    var text := Emit(State("", false), v).text;
    EmitsText(State("", false), v);
    assert text == Text(v) && Text(v) + "" == Text(v);
    if Clean(v) {
      ReadsBack(v, "");
    } else if Parse(text) == Some(v) {
      OnlyCleanReadsBack(v, "");
    }
  }
}
