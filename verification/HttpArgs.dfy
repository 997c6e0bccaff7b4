/** Query arguments in src/protocol_http.c: percent decoding and the loop that turns the arguments
    of a request into filters.  An argument text is a C string: it holds no NUL, and reading at
    its end gives NUL. */
module HttpArgs {
  import opened Common
  import opened QueryFilters
  import opened QuerySort
  import QueryObject

  // ---------------------------------------------------------------- decoding

  predicate IsHex(c: char) {
    '0' <= c <= '9' || 'a' <= c <= 'f' || 'A' <= c <= 'F'
  }

  function HexValue(c: char): (v: nat)
    requires IsHex(c)
    ensures v < 16
  {
    if c <= '9' then (c - '0') as nat else if c <= 'F' then (c - 'A') as nat + 10 else (c - 'a') as nat + 10
  }

  function HexByte(a: char, b: char): char
    requires IsHex(a) && IsHex(b)
  {
    (16 * HexValue(a) + HexValue(b)) as char
  }

  /** The decoded value, or None at a bad escape; and the text from where *p is left. */
  datatype Decoded = Decoded(value: Option<string>, rest: string)

  function Prepend(prefix: string, d: Decoded): Decoded {
    if d.value.None? then d else d.(value := Some(prefix + d.value.value))
  }

  /** decode_url */
  function Decode(s: string): (d: Decoded)
    ensures |d.rest| <= |s|
    ensures d.value.Some? && d.rest != "" ==> d.rest[0] == '&'
    decreases |s|
  {
    if s == "" || s[0] == '&' then Decoded(Some(""), s)
    else if s[0] == '+' then Prepend([' '], Decode(s[1..]))
    else if s[0] != '%' then Prepend([s[0]], Decode(s[1..]))
    else if |s| < 3 || !IsHex(s[1]) || !IsHex(s[2]) then Decoded(None, s[1..])
    else Prepend([HexByte(s[1], s[2])], Decode(s[3..]))
  }

  /** `e` is a percent-encoding of `v`, by section 2.1 of RFC 3986, with '+' for a space: every
      byte as itself or as an escape, except that '%', '&' and '+' are never themselves. */
  predicate IsEncoding(e: string, v: string)
    decreases |e|
  {
    if e == "" then v == ""
    else if v == "" then false
    else if e[0] == '%' then
      |e| >= 3 && IsHex(e[1]) && IsHex(e[2]) && HexByte(e[1], e[2]) == v[0] && IsEncoding(e[3..], v[1..])
    else
      e[0] != '&' && v[0] == (if e[0] == '+' then ' ' else e[0]) && IsEncoding(e[1..], v[1..])
  }

  predicate AtEnd(rest: string) {
    rest == "" || rest[0] == '&'
  }

  /** Decoding inverts every encoding, and stops right behind it. */
  lemma {:induction false} DecodesEncoding(e: string, v: string, rest: string)
    requires IsEncoding(e, v) && AtEnd(rest)
    ensures Decode(e + rest) == Decoded(Some(v), rest)
    decreases |e|
  {
    var s := e + rest;
    if e == "" {
      assert s == rest;
    } else {
      assert v == [v[0]] + v[1..];
      if e[0] == '%' {
        assert s[3..] == e[3..] + rest;
        DecodesEncoding(e[3..], v[1..], rest);
      } else {
        assert s[1..] == e[1..] + rest;
        DecodesEncoding(e[1..], v[1..], rest);
      }
    }
  }

  lemma {:induction false} EscapeFirst(a: char, b: char, e: string, v: string)
    requires IsHex(a) && IsHex(b) && IsEncoding(e, v)
    ensures IsEncoding(['%', a, b] + e, [HexByte(a, b)] + v)
  {
    assert (['%', a, b] + e)[3..] == e && ([HexByte(a, b)] + v)[1..] == v;
  }

  lemma {:induction false} CharFirst(c: char, e: string, v: string)
    requires c != '%' && c != '&' && IsEncoding(e, v)
    ensures IsEncoding([c] + e, [if c == '+' then ' ' else c] + v)
  {
    assert ([c] + e)[1..] == e && ([if c == '+' then ' ' else c] + v)[1..] == v;
  }

  /** `s` is an encoding of `v` with `rest` behind it. */
  predicate Splits(s: string, e: string, v: string, rest: string) {
    s == e + rest && IsEncoding(e, v)
  }

  lemma {:induction false} SplitsMore(prefix: string, byte: char, s: string, e: string, v: string, rest: string)
    requires Splits(s, e, v, rest) && IsEncoding(prefix + e, [byte] + v)
    ensures Splits(prefix + s, prefix + e, [byte] + v, rest)
  {
    assert prefix + (e + rest) == prefix + e + rest;
  }

  lemma {:induction false} DecodedEscape(s: string)
    requires s != "" && s[0] == '%' && Decode(s).value.Some?
    ensures |s| >= 3 && IsHex(s[1]) && IsHex(s[2]) && s == ['%', s[1], s[2]] + s[3..]
    ensures var d := Decode(s[3..]);
      d.value.Some? && Decode(s) == Decoded(Some([HexByte(s[1], s[2])] + d.value.value), d.rest)
  {
  }

  lemma {:induction false} DecodedChar(s: string)
    requires s != "" && s[0] != '%' && s[0] != '&' && Decode(s).value.Some?
    ensures s == [s[0]] + s[1..]
    ensures var d := Decode(s[1..]);
      d.value.Some? && Decode(s) == Decoded(Some([if s[0] == '+' then ' ' else s[0]] + d.value.value), d.rest)
  {
  }

  /** Whatever is decoded without an error was an encoding of the result, up to the next '&'. */
  lemma {:induction false} DecodesOnlyEncodings(s: string) returns (e: string)
    requires Decode(s).value.Some?
    ensures Splits(s, e, Decode(s).value.value, Decode(s).rest)
    decreases |s|
  {
    if s == "" || s[0] == '&' {
      e := "";
    } else if s[0] == '%' {
      DecodedEscape(s);
      var d := Decode(s[3..]);
      var e' := DecodesOnlyEncodings(s[3..]);
      EscapeFirst(s[1], s[2], e', d.value.value);
      SplitsMore(['%', s[1], s[2]], HexByte(s[1], s[2]), s[3..], e', d.value.value, d.rest);
      e := ['%', s[1], s[2]] + e';
    } else {
      DecodedChar(s);
      var d := Decode(s[1..]);
      var e' := DecodesOnlyEncodings(s[1..]);
      CharFirst(s[0], e', d.value.value);
      SplitsMore([s[0]], if s[0] == '+' then ' ' else s[0], s[1..], e', d.value.value, d.rest);
      e := [s[0]] + e';
    }
  }

  const LOWER := "0123456789abcdef"
  const UPPER := "0123456789ABCDEF"

  lemma DigitValue(d: nat)
    requires d < 16
    ensures IsHex(LOWER[d]) && HexValue(LOWER[d]) == d
    ensures IsHex(UPPER[d]) && HexValue(UPPER[d]) == d
  {
  }

  /** A percent sign and the two hexadecimal digits of a byte, each in either case, decode to it. */
  lemma {:induction false} DecodesByte(d: nat, e: nat, a: char, b: char, rest: string)
    requires d < 16 && e < 16 && AtEnd(rest)
    requires (a == LOWER[d] || a == UPPER[d]) && (b == LOWER[e] || b == UPPER[e])
    ensures Decode(['%', a, b] + rest) == Decoded(Some([(16 * d + e) as char]), rest)
  {
    DigitValue(d);
    DigitValue(e);
    var s := ['%', a, b] + rest;
    assert s[3..] == rest;
    assert [(16 * d + e) as char] + "" == [(16 * d + e) as char];
  }

  /** And nothing else is a digit. */
  lemma HexDigits(c: char)
    ensures IsHex(c) <==> c in LOWER || c in UPPER
  {
    if IsHex(c) {
      var d := HexValue(c);
      assert c == LOWER[d] || c == UPPER[d];
    }
  }

  // ---------------------------------------------------------------- every value has an encoding

  predicate Unreserved(c: char) {
    'A' <= c <= 'Z' || 'a' <= c <= 'z' || '0' <= c <= '9' || c in "-._~"
  }

  function HexDigit(n: nat): (c: char)
    requires n < 16
    ensures IsHex(c) && HexValue(c) == n
  {
    if n < 10 then '0' + n as char else 'A' + (n - 10) as char
  }

  predicate IsBytes(v: string) {
    forall i :: 0 <= i < |v| ==> v[i] as int < 256
  }

  function Encode(v: string): string
    requires IsBytes(v)
  {
    if v == "" then ""
    else
      var n := v[0] as int;
      (if Unreserved(v[0]) then [v[0]] else ['%', HexDigit(n / 16), HexDigit(n % 16)]) + Encode(v[1..])
  }

  lemma {:induction false} EncodeIsEncoding(v: string)
    requires IsBytes(v)
    ensures IsEncoding(Encode(v), v)
    decreases |v|
  {
    if v != "" {
      EncodeIsEncoding(v[1..]);
      if Unreserved(v[0]) {
        assert Encode(v)[1..] == Encode(v[1..]);
      } else {
        assert Encode(v)[3..] == Encode(v[1..]);
      }
    }
  }

  // ---------------------------------------------------------------- the arguments of a request

  /** query_filter takes a C string: what follows a decoded NUL is lost. */
  function CString(s: string): string {
    if s == "" || s[0] == '\0' then "" else [s[0]] + CString(s[1..])
  }

  /** Up to the first '=' or '&'. */
  function NameLength(s: string): (n: nat)
    ensures n <= |s|
    ensures n < |s| ==> s[n] == '=' || s[n] == '&'
  {
    if s == "" || s[0] == '=' || s[0] == '&' then 0 else 1 + NameLength(s[1..])
  }

  /** The loop that skips the value of an unknown name. */
  function SkipValue(s: string): (r: string)
    ensures |r| <= |s| && AtEnd(r)
  {
    if AtEnd(s) then s else SkipValue(s[1..])
  }

  /** A filter to be set: field and value. */
  type Setting = s: (nat, string) | s.0 < FIELDS witness (0, "")

  /** The settings of the value behind one name, and the text behind it. */
  function ParseValue(name: string, s: string): (r: (seq<Setting>, string))
    ensures |r.1| <= |s|
  {
    var field := FieldOf(name);
    if field == 0 then ([], SkipValue(s))
    else
      var d := Decode(s);
      (if d.value.Some? then [(field, CString(d.value.value))] else [], d.rest)
  }

  /** parse_query_filters: the calls of query_filter it makes, in order.  The character after a
      value is skipped without looking at it, also after a bad escape. */
  function ParseArgs(s: string): seq<Setting>
    decreases |s|
  {
    var n := NameLength(s);
    if n == |s| then []
    else if s[n] == '&' then ParseArgs(s[n + 1..])
    else
      var (settings, rest) := ParseValue(s[..n], s[n + 1..]);
      settings + if rest == "" then [] else ParseArgs(rest[1..])
  }

  // ---------------------------------------------------------------- round trip

  /** An argument as a client sends it: a name with an encoded value, or a name alone. */
  datatype Arg = Pair(name: string, encoded: string, value: string) | Flag(name: string)

  predicate PlainName(name: string) {
    '=' !in name && '&' !in name
  }

  /** The encoding must be right where the name is known; elsewhere it only must not have '&'. */
  predicate Wellformed(a: Arg) {
    && PlainName(a.name)
    && (a.Pair? ==>
          '&' !in a.encoded && (FieldOf(a.name) != 0 ==> IsEncoding(a.encoded, a.value) && '\0' !in a.value))
  }

  function ArgText(a: Arg): string {
    match a
    case Pair(name, encoded, _) => name + ("=" + encoded)
    case Flag(name) => name
  }

  function ArgsText(args: seq<Arg>): string {
    if args == [] then "" else if |args| == 1 then ArgText(args[0]) else ArgText(args[0]) + ("&" + ArgsText(args[1..]))
  }

  /** The setting an argument asks for, if its name is known. */
  function SettingOf(a: Arg): seq<Setting> {
    if a.Pair? && FieldOf(a.name) != 0 then [(FieldOf(a.name), a.value)] else []
  }

  function Settings(args: seq<Arg>): seq<Setting> {
    if args == [] then [] else SettingOf(args[0]) + Settings(args[1..])
  }

  /** What follows an argument is the end of the text, or an '&' and the next argument. */
  function ParseRest(rest: string): seq<Setting> {
    if rest == "" then [] else ParseArgs(rest[1..])
  }

  lemma {:induction false} NameEnds(name: string, rest: string)
    requires PlainName(name) && (rest == "" || rest[0] == '=' || rest[0] == '&')
    ensures NameLength(name + rest) == |name|
    decreases |name|
  {
    if name == "" {
      assert name + rest == rest;
    } else {
      assert (name + rest)[1..] == name[1..] + rest;
      NameEnds(name[1..], rest);
    }
  }

  lemma {:induction false} SkipsValue(encoded: string, rest: string)
    requires '&' !in encoded && AtEnd(rest)
    ensures SkipValue(encoded + rest) == rest
    decreases |encoded|
  {
    if encoded == "" {
      assert encoded + rest == rest;
    } else {
      assert (encoded + rest)[1..] == encoded[1..] + rest;
      SkipsValue(encoded[1..], rest);
    }
  }

  lemma {:induction false} CStringWhole(s: string)
    requires '\0' !in s
    ensures CString(s) == s
    decreases |s|
  {
    if s != "" {
      CStringWhole(s[1..]);
    }
  }

  lemma {:induction false} ReadsFlag(name: string, rest: string)
    requires PlainName(name) && AtEnd(rest)
    ensures ParseArgs(name + rest) == ParseRest(rest)
  {
    var s := name + rest;
    NameEnds(name, rest);
    if rest != "" {
      assert s[|name|] == '&' && s[|name| + 1..] == rest[1..];
    }
  }

  lemma ReadsValue(name: string, encoded: string, value: string, rest: string)
    requires Wellformed(Pair(name, encoded, value)) && AtEnd(rest)
    ensures ParseValue(name, encoded + rest) == (SettingOf(Pair(name, encoded, value)), rest)
  {
    if FieldOf(name) == 0 {
      SkipsValue(encoded, rest);
    } else {
      DecodesEncoding(encoded, value, rest);
      CStringWhole(value);
    }
  }

  lemma {:induction false} ReadsPair(name: string, tail: string, settings: seq<Setting>, rest: string)
    requires PlainName(name) && ParseValue(name, tail) == (settings, rest)
    ensures ParseArgs(name + ("=" + tail)) == settings + ParseRest(rest)
  {
    var s := name + ("=" + tail);
    NameEnds(name, "=" + tail);
    assert s[..|name|] == name && s[|name|] == '=' && s[|name| + 1..] == tail;
  }

  /** One argument, with the end of the text or the next argument behind it. */
  lemma {:induction false} ReadsArg(a: Arg, rest: string)
    requires Wellformed(a) && AtEnd(rest)
    ensures ParseArgs(ArgText(a) + rest) == SettingOf(a) + ParseRest(rest)
  {
    match a
    case Flag(name) =>
      ReadsFlag(name, rest);
      assert [] + ParseRest(rest) == ParseRest(rest);
    case Pair(name, encoded, value) =>
      ReadsValue(name, encoded, value, rest);
      ReadsPair(name, encoded + rest, SettingOf(a), rest);
      RegroupPair(name, encoded, rest);
  }

  lemma RegroupPair(name: string, encoded: string, rest: string)
    ensures name + ("=" + encoded) + rest == name + ("=" + (encoded + rest))
  {
  }

  lemma {:induction false} LastArg(args: seq<Arg>)
    requires |args| == 1
    ensures ArgsText(args) == ArgText(args[0]) + "" && Settings(args) == SettingOf(args[0]) + []
  {
  }

  /** For every list of arguments the filters set are the known names with their values, in the
      order given; unknown names and names without a value are skipped. */
  lemma {:induction false} ArgsRoundTrip(args: seq<Arg>)
    requires forall i :: 0 <= i < |args| ==> Wellformed(args[i])
    ensures ParseArgs(ArgsText(args)) == Settings(args)
    decreases |args|
  {
    if |args| == 1 {
      ReadsArg(args[0], "");
      LastArg(args);
    } else if |args| > 1 {
      var more := ArgsText(args[1..]);
      ReadsArg(args[0], "&" + more);
      assert ("&" + more)[1..] == more;
      ArgsRoundTrip(args[1..]);
    }
  }

  /** Two hexadecimal digits stand in front. */
  predicate StartsHex(s: string) {
    |s| >= 2 && IsHex(s[0]) && IsHex(s[1])
  }

  lemma {:induction false} DecodeFails(encoded: string, value: string, tail: string)
    requires IsEncoding(encoded, value) && !StartsHex(tail)
    ensures Decode(encoded + ("%" + tail)) == Decoded(None, tail)
    decreases |encoded|
  {
    var s := encoded + ("%" + tail);
    if encoded == "" {
      assert s == "%" + tail && s[1..] == tail;
    } else if encoded[0] == '%' {
      assert s[3..] == encoded[3..] + ("%" + tail);
      DecodeFails(encoded[3..], value[1..], tail);
    } else {
      assert s[1..] == encoded[1..] + ("%" + tail);
      DecodeFails(encoded[1..], value[1..], tail);
    }
  }

  lemma KnownIsPlain(name: string)
    requires FieldOf(name) != 0
    ensures PlainName(name)
  {
  }

  /** After a bad escape in the value of a known name the filter is not set, and parsing goes on
      inside the value, behind the character after the percent sign. */
  lemma {:induction false} BadEscape(name: string, encoded: string, value: string, tail: string)
    requires FieldOf(name) != 0 && IsEncoding(encoded, value) && !StartsHex(tail)
    ensures ParseArgs(name + ("=" + (encoded + ("%" + tail)))) == if tail == "" then [] else ParseArgs(tail[1..])
  {
    KnownIsPlain(name);
    DecodeFails(encoded, value, tail);
    ReadsPair(name, encoded + ("%" + tail), [], tail);
    assert [] + ParseRest(tail) == ParseRest(tail);
  }

  // ---------------------------------------------------------------- the loops

  // A pointer into the argument text is the text from there on.

  /** The body of the loop of decode_url: one byte, or None at a bad escape. */
  method DecodeByte(p: string) returns (byte: Option<char>, rest: string)
    requires p != "" && p[0] != '&'
    ensures |rest| < |p|
    ensures Decode(p) == if byte.Some? then Prepend([byte.value], Decode(rest)) else Decoded(None, rest)
  {
    if p[0] != '%' {
      return Some(if p[0] == '+' then ' ' else p[0]), p[1..];
    }
    rest := p[1..];
    if |rest| < 2 || !IsHex(rest[0]) || !IsHex(rest[1]) {
      return None, rest;
    }
    assert p[3..] == rest[2..];
    return Some(HexByte(rest[0], rest[1])), rest[2..];
  }

  /** decode_url: the decoded value, and where the pointer is left. */
  method DecodeUrl(p: string) returns (value: Option<string>, rest: string)
    ensures Decoded(value, rest) == Decode(p)
  {
    rest := p;
    var result := "";
    ghost var d := Decode(p);
    PrependNothing(d);
    while rest != "" && rest[0] != '&'
      invariant d == Prepend(result, Decode(rest))
      decreases |rest|
    {
      var byte;
      byte, rest := DecodeByte(rest);
      if byte.None? {
        return None, rest;
      }
      PrependTwice(result, [byte.value], Decode(rest));
      result := result + [byte.value];
    }
    value := Some(result);
    assert result + "" == result;
  }

  lemma PrependNothing(d: Decoded)
    ensures Prepend("", d) == d
  {
    if d.value.Some? {
      assert "" + d.value.value == d.value.value;
    }
  }

  lemma PrependTwice(a: string, b: string, d: Decoded)
    ensures Prepend(a, Prepend(b, d)) == Prepend(a + b, d)
  {
    if d.value.Some? {
      assert a + (b + d.value.value) == a + b + d.value.value;
    }
  }

  method ScanName(p: string) returns (n: nat)
    ensures n == NameLength(p)
  {
    n := 0;
    while n < |p| && p[n] != '=' && p[n] != '&'
      invariant n <= |p| && n + NameLength(p[n..]) == NameLength(p)
    {
      assert p[n..][1..] == p[n + 1..];
      n := n + 1;
    }
  }

  method ScanValue(p: string) returns (rest: string)
    ensures rest == SkipValue(p)
  {
    rest := p;
    while rest != "" && rest[0] != '&'
      invariant SkipValue(rest) == SkipValue(p)
      decreases |rest|
    {
      rest := rest[1..];
    }
  }

  /** The filters after a list of settings; a later one replaces an earlier one. */
  function Applied(fs: Filters, settings: seq<Setting>): Filters
    decreases |settings|
  {
    if settings == [] then fs
    else Applied(fs[settings[0].0 := Some(FilterText(settings[0].0, settings[0].1))], settings[1..])
  }

  lemma {:induction false} AppliedConcat(fs: Filters, a: seq<Setting>, b: seq<Setting>)
    ensures Applied(fs, a + b) == Applied(Applied(fs, a), b)
    decreases |a|
  {
    if a == [] {
      assert a + b == b;
    } else {
      assert (a + b)[1..] == a[1..] + b;
      AppliedConcat(fs[a[0].0 := Some(FilterText(a[0].0, a[0].1))], a[1..], b);
    }
  }

  /** The value of one argument, set as a filter if the name is known. */
  method SetValue(query: QueryObject.Query, name: string, p: string) returns (rest: string)
    requires query.Valid()
    modifies query`filters
    ensures query.Valid()
    ensures rest == ParseValue(name, p).1
    ensures query.filters == Applied(old(query.filters), ParseValue(name, p).0)
  {
    var field := FieldOf(name);
    if field == 0 {
      rest := ScanValue(p);
    } else {
      var value;
      value, rest := DecodeUrl(p);
      if value.Some? {
        query.Filter(field, Some(CString(value.value)));
      }
    }
  }

  lemma {:induction false} ParsesValue(p: string, n: nat)
    requires n == NameLength(p) < |p| && p[n] != '&'
    ensures var (settings, rest) := ParseValue(p[..n], p[n + 1..]); ParseArgs(p) == settings + ParseRest(rest)
  {
  }

  lemma {:induction false} AppliesValue(fs: Filters, p: string, n: nat)
    requires n == NameLength(p) < |p| && p[n] != '&'
    ensures var (settings, rest) := ParseValue(p[..n], p[n + 1..]);
      Applied(fs, ParseArgs(p)) == Applied(Applied(fs, settings), ParseRest(rest))
  {
    var (settings, rest) := ParseValue(p[..n], p[n + 1..]);
    ParsesValue(p, n);
    AppliedConcat(fs, settings, ParseRest(rest));
  }

  /** One round of the loop of parse_query_filters; false when it is the last. */
  method ParseArg(p: string, query: QueryObject.Query) returns (more: bool, rest: string)
    requires query.Valid()
    modifies query`filters
    ensures query.Valid()
    ensures more ==> |rest| < |p|
    ensures Applied(old(query.filters), ParseArgs(p))
         == if more then Applied(query.filters, ParseArgs(rest)) else query.filters
  {
    var n := ScanName(p);
    if n == |p| {
      return false, "";
    }
    if p[n] == '&' {
      return true, p[n + 1..];
    }
    AppliesValue(query.filters, p, n);
    rest := SetValue(query, p[..n], p[n + 1..]);
    if rest == "" {
      return false, "";
    }
    return true, rest[1..];
  }

  /** parse_query_filters */
  method ParseQueryFilters(args: Option<string>, query: QueryObject.Query)
    requires query.Valid()
    modifies query`filters
    ensures query.Valid()
    ensures query.filters
         == if args.None? then old(query.filters) else Applied(old(query.filters), ParseArgs(args.value))
  {
    if args.None? {
      return;
    }
    var p, more := args.value, true;
    while more
      invariant query.Valid()
      invariant Applied(old(query.filters), ParseArgs(args.value))
             == if more then Applied(query.filters, ParseArgs(p)) else query.filters
      decreases more, |p|
    {
      more, p := ParseArg(p, query);
    }
  }

  /** parse_query_bounds, given the numbers of the arguments limit and offset, 0 for a missing one.
      On a new query it asks for the rows behind the offset, and for at most `limit` of them if that
      is positive: what the server answers never exceeds a limit that a client gives. */
  method ParseQueryBounds(limit: int, offset: int, query: QueryObject.Query)
    modifies query`limit, query`offset
    ensures old(query.limit) == -1 && old(query.offset) == 0 ==>
      forall rows :: QueryObject.Page(rows, query.limit, query.offset) == Requested(rows, limit, offset)
  {
    if limit > 0 {
      query.Limit(limit);
    }
    if offset > 0 {
      query.Offset(offset);
    }
  }

  /** The rows that a client asks for. */
  function Requested(rows: seq<Row>, limit: int, offset: int): (r: seq<Row>)
    ensures limit > 0 ==> |r| <= limit
  {
    var rest := if offset <= 0 then rows else if offset < |rows| then rows[offset..] else [];
    if 0 < limit < |rest| then rest[..limit] else rest
  }
}
