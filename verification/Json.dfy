/** The JSON serializer of src/json.c: a flat stream of calls and one comma flag. */
module Json {
  import opened Common
  import Strings

  /** The documents the writer can produce. */
  datatype Value =
    | Bool(b: bool)
    | Int(i: int)
    | Str(s: string)
    | Array(items: Items)
    | Object(members: Members)

  datatype Items = NoItems | Item(head: Value, tail: Items)

  datatype Members = NoMembers | Member(name: string, value: Value, tail: Members)

  // ---------------------------------------------------------------- the text of a document

  const ESCAPE_FROM := ['\"', '\\', '\U{8}', '\U{C}', '\n', '\r', '\t']
  const ESCAPE_TO := "\"\\bfnrt"

  function EscapeIndex(c: char): (i: nat)
    ensures i <= |ESCAPE_FROM|
    ensures i < |ESCAPE_FROM| ==> ESCAPE_FROM[i] == c
    ensures i == |ESCAPE_FROM| ==> c !in ESCAPE_FROM
  {
    if c == '\"' then 0 else if c == '\\' then 1 else if c == '\U{8}' then 2 else if c == '\U{C}' then 3
    else if c == '\n' then 4 else if c == '\r' then 5 else if c == '\t' then 6 else 7
  }

  function Escaped(s: string): string {
    if s == "" then ""
    else
      (if s[0] in ESCAPE_FROM then ['\\', ESCAPE_TO[EscapeIndex(s[0])]] else [s[0]]) + Escaped(s[1..])
  }

  function Quoted(s: string): string {
    "\"" + Escaped(s) + "\""
  }

  function Digit(n: nat): char
    requires n < 10
  {
    '0' + n as char
  }

  function Decimal(n: nat): string {
    if n < 10 then [Digit(n)] else Decimal(n / 10) + [Digit(n % 10)]
  }

  /** What printf makes of %d. */
  function IntText(i: int): string {
    if i < 0 then "-" + Decimal(-i) else Decimal(i)
  }

  function Text(v: Value): string
    decreases v, 0
  {
    match v
    case Bool(b) => if b then "true" else "false"
    case Int(i) => IntText(i)
    case Str(s) => Quoted(s)
    case Array(items) =>
      "[" + (if items.NoItems? then "" else Text(items.head) + MoreItems(items.tail)) + "]"
    case Object(members) =>
      "{" + (if members.NoMembers? then "" else MemberText(members) + MoreMembers(members.tail)) + "}"
  }

  function MoreItems(items: Items): string
    decreases items, 0
  {
    if items.NoItems? then "" else "," + Text(items.head) + MoreItems(items.tail)
  }

  function MemberText(members: Members): string
    requires members.Member?
    decreases members, 0
  {
    "\"" + members.name + "\":" + Text(members.value)
  }

  function MoreMembers(members: Members): string
    decreases members, 1
  {
    if members.NoMembers? then "" else "," + MemberText(members) + MoreMembers(members.tail)
  }

  // ---------------------------------------------------------------- the call stream

  datatype Call =
    | ObjectBegin
    | ObjectEnd
    | ArrayBegin
    | ArrayEnd
    | Define(name: string)
    | WriteBool(b: bool)
    | WriteInt(i: int)
    | WriteString(s: string)

  datatype State = State(text: string, comma: bool)

  function Comma(w: State): State {
    if w.comma then State(w.text + ",", false) else w
  }

  function Write(w: State, c: Call): State {
    match c
    case ObjectBegin => Comma(w).(text := Comma(w).text + "{")
    case ObjectEnd => State(w.text + "}", true)
    case ArrayBegin => Comma(w).(text := Comma(w).text + "[")
    case ArrayEnd => State(w.text + "]", true)
    case Define(name) => Comma(w).(text := Comma(w).text + ("\"" + name + "\":"))
    case WriteBool(b) => State(Comma(w).text + (if b then "true" else "false"), true)
    case WriteInt(i) => State(Comma(w).text + IntText(i), true)
    case WriteString(s) => State(Comma(w).text + Quoted(s), true)
  }

  /** A document is emitted by one call after another, in the order the handlers of
      protocol_http.c make them; nothing but the buffer and the flag connects them. */
  function Emit(w: State, v: Value): State
    decreases v, 0
  {
    match v
    case Bool(b) => Write(w, WriteBool(b))
    case Int(i) => Write(w, WriteInt(i))
    case Str(s) => Write(w, WriteString(s))
    case Array(items) => Write(EmitItems(Write(w, ArrayBegin), items), ArrayEnd)
    case Object(members) => Write(EmitMembers(Write(w, ObjectBegin), members), ObjectEnd)
  }

  function EmitItems(w: State, items: Items): State
    decreases items, 0
  {
    if items.NoItems? then w else EmitItems(Emit(w, items.head), items.tail)
  }

  function EmitMembers(w: State, members: Members): State
    decreases members, 0
  {
    if members.NoMembers? then w
    else EmitMembers(Emit(Write(w, Define(members.name)), members.value), members.tail)
  }

  function Separator(comma: bool): string {
    if comma then "," else ""
  }

  /** What emitting something with a separator before it leaves behind. */
  function Emitted(w: State, text: string): State {
    State(w.text + Separator(w.comma) + text, true)
  }

  lemma CommaText(w: State)
    ensures Comma(w) == State(w.text + Separator(w.comma), false)
  {
    assert w.text + "" == w.text;
  }

  lemma Regroup3(a: string, b: string, c: string)
    ensures a + b + c == a + (b + c)
  {
  }

  lemma Regroup4(a: string, b: string, c: string, d: string)
    ensures a + b + c + d == a + (b + c + d)
  {
  }

  /** From any buffer and comma state, the calls of a document append a comma if one is pending
      and then exactly the document's text, and leave the flag set. */
  lemma {:induction false} EmitsText(w: State, v: Value)
    ensures Emit(w, v) == State(w.text + Separator(w.comma) + Text(v), true)
    decreases v, 0
  {
    CommaText(w);
    match v
    case Bool(_) =>
    case Int(_) =>
    case Str(_) =>
    case Array(items) =>
      var inside := Write(w, ArrayBegin);
      if items.NoItems? {
        Regroup3(Comma(w).text, "[", "]");
        assert Text(v) == "[" + "]";
      } else {
        EmitsText(inside, items.head);
        EmitsItems(Emit(inside, items.head), items.tail);
        assert inside.text + "" == inside.text;
        Regroup3(inside.text, Text(items.head), MoreItems(items.tail));
        Regroup4(Comma(w).text, "[", Text(items.head) + MoreItems(items.tail), "]");
      }
    case Object(members) =>
      var inside := Write(w, ObjectBegin);
      if members.NoMembers? {
        Regroup3(Comma(w).text, "{", "}");
        assert Text(v) == "{" + "}";
      } else {
        EmitsMember(inside, members);
        EmitsMembers(Emitted(inside, MemberText(members)), members.tail);
        assert inside.text + "" == inside.text;
        Regroup3(inside.text, MemberText(members), MoreMembers(members.tail));
        Regroup4(Comma(w).text, "{", MemberText(members) + MoreMembers(members.tail), "}");
      }
  }

  lemma {:induction false} EmitsItems(w: State, items: Items)
    requires w.comma
    ensures EmitItems(w, items) == State(w.text + MoreItems(items), true)
    decreases items, 0
  {
    if items.NoItems? {
      assert w.text + "" == w.text;
    } else {
      EmitsText(w, items.head);
      EmitsItems(Emit(w, items.head), items.tail);
      Regroup4(w.text, ",", Text(items.head), MoreItems(items.tail));
    }
  }

  lemma {:induction false} EmitsMember(w: State, members: Members)
    requires members.Member?
    ensures Emit(Write(w, Define(members.name)), members.value) == Emitted(w, MemberText(members))
    decreases members, 0
  {
    CommaText(w);
    var named := Write(w, Define(members.name));
    EmitsText(named, members.value);
    assert named.text + "" == named.text;
    Regroup3(Comma(w).text, "\"" + members.name + "\":", Text(members.value));
  }

  lemma {:induction false} EmitsMembers(w: State, members: Members)
    requires w.comma
    ensures EmitMembers(w, members) == State(w.text + MoreMembers(members), true)
    decreases members, 1
  {
    if members.NoMembers? {
      assert w.text + "" == w.text;
    } else {
      EmitsMember(w, members);
      EmitsMembers(Emitted(w, MemberText(members)), members.tail);
      Regroup4(w.text, ",", MemberText(members), MoreMembers(members.tail));
    }
  }

  // ---------------------------------------------------------------- json_t

  class Writer {
    const buf: Strings.String
    var comma: bool

    ghost predicate Valid()
      reads this, buf, buf.Repr
    {
      buf.Valid() && this !in buf.Repr
    }

    ghost function View(): State
      reads this, buf, buf.Repr
      requires Valid()
    {
      State(buf.View().text, comma)
    }

    /** json_init */
    constructor ()
      ensures Valid() && fresh(buf.Repr) && View() == State("", false)
    {
      buf := new Strings.String();
      comma := false;
    }

    method WriteComma()
      requires Valid()
      modifies this, buf.Repr
      ensures Valid() && fresh(buf.Repr - old(buf.Repr)) && View() == Comma(old(View()))
    {
      if comma {
        buf.Append(",");
        comma := false;
      }
    }

    method Begin(isObject: bool)
      requires Valid()
      modifies this, buf.Repr
      ensures Valid() && fresh(buf.Repr - old(buf.Repr))
      ensures View() == Write(old(View()), if isObject then ObjectBegin else ArrayBegin)
    {
      WriteComma();
      buf.Append(if isObject then "{" else "[");
    }

    method End(isObject: bool)
      requires Valid()
      modifies this, buf.Repr
      ensures Valid() && fresh(buf.Repr - old(buf.Repr))
      ensures View() == Write(old(View()), if isObject then ObjectEnd else ArrayEnd)
    {
      buf.Append(if isObject then "}" else "]");
      comma := true;
    }

    method DefineMember(name: string)
      requires Valid()
      modifies this, buf.Repr
      ensures Valid() && fresh(buf.Repr - old(buf.Repr)) && View() == Write(old(View()), Define(name))
    {
      WriteComma();
      buf.Append("\"" + name + "\":");
    }

    method Bool(b: bool)
      requires Valid()
      modifies this, buf.Repr
      ensures Valid() && fresh(buf.Repr - old(buf.Repr)) && View() == Write(old(View()), WriteBool(b))
    {
      WriteComma();
      buf.Append(if b then "true" else "false");
      comma := true;
    }

    /** json_int and json_int64 differ in the width of their argument only. */
    method Int(i: int)
      requires Valid()
      modifies this, buf.Repr
      ensures Valid() && fresh(buf.Repr - old(buf.Repr)) && View() == Write(old(View()), WriteInt(i))
    {
      WriteComma();
      buf.Append(IntText(i));
      comma := true;
    }

    method EscapedChar(c: char)
      requires Valid()
      modifies buf.Repr
      ensures Valid() && fresh(buf.Repr - old(buf.Repr)) && comma == old(comma)
      ensures buf.View().text == old(buf.View().text) + Escaped([c])
    {
      var i := 0;
      while i < |ESCAPE_FROM|
        invariant 0 <= i <= |ESCAPE_FROM|
        invariant forall k :: 0 <= k < i ==> c != ESCAPE_FROM[k]
      {
        if c == ESCAPE_FROM[i] {
          break;
        }
        i := i + 1;
      }
      ghost var was := buf.View().text;
      if i < |ESCAPE_FROM| {
        assert i == EscapeIndex(c);
        buf.PushBack('\\');
        buf.PushBack(ESCAPE_TO[i]);
        assert was + ['\\'] + [ESCAPE_TO[i]] == was + (['\\', ESCAPE_TO[i]] + "");
      } else {
        buf.PushBack(c);
        assert was + [c] == was + ([c] + "");
      }
    }

    /** The loop of json_string over the bytes. */
    method EscapedChars(s: string)
      requires Valid()
      modifies buf.Repr
      ensures Valid() && fresh(buf.Repr - old(buf.Repr)) && comma == old(comma)
      ensures buf.View().text == old(buf.View().text) + Escaped(s)
    {
      ghost var start := buf.View().text;
      var i := 0;
      while i < |s|
        invariant 0 <= i <= |s|
        invariant Valid() && fresh(buf.Repr - old(buf.Repr)) && comma == old(comma)
        invariant buf.View().text == start + Escaped(s[..i])
      {
        EscapedChar(s[i]);
        EscapedNext(start, s, i);
        i := i + 1;
      }
      assert s[..i] == s;
    }

    method OptionalChars(s: Option<string>)
      requires Valid()
      modifies buf.Repr
      ensures Valid() && fresh(buf.Repr - old(buf.Repr)) && comma == old(comma)
      ensures buf.View().text == old(buf.View().text) + Escaped(if s.None? then "" else s.value)
    {
      if s.Some? {
        EscapedChars(s.value);
      } else {
        assert buf.View().text + "" == buf.View().text;
      }
    }

    /** json_string; a null pointer is written like the empty string. */
    method String(s: Option<string>)
      requires Valid()
      modifies this, buf.Repr
      ensures Valid() && fresh(buf.Repr - old(buf.Repr))
      ensures View() == Write(old(View()), WriteString(if s.None? then "" else s.value))
    {
      WriteComma();
      ghost var start := buf.View().text;
      buf.PushBack('\"');
      OptionalChars(s);
      buf.PushBack('\"');
      QuotedText(start, Escaped(if s.None? then "" else s.value));
      comma := true;
    }
  }

  lemma EscapedNext(start: string, s: string, i: nat)
    requires i < |s|
    ensures start + Escaped(s[..i]) + Escaped([s[i]]) == start + Escaped(s[..i + 1])
  {
    assert s[..i + 1] == s[..i] + [s[i]];
    EscapedAppend(s[..i], s[i]);
    Regroup3(start, Escaped(s[..i]), Escaped([s[i]]));
  }

  lemma QuotedText(start: string, body: string)
    ensures start + ['\"'] + body + ['\"'] == start + ("\"" + body + "\"")
  {
  }

  lemma {:induction false} EscapedAppend(s: string, c: char)
    ensures Escaped(s + [c]) == Escaped(s) + Escaped([c])
    decreases |s|
  {
    if s == "" {
      assert "" + [c] == [c];
    } else {
      assert (s + [c])[1..] == s[1..] + [c];
      EscapedAppend(s[1..], c);
    }
  }
}
