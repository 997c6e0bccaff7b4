/** The LIKE operator of SQLite, as src/query.c relies on it: '%' stands for any text, '_' for any
    one character, and ASCII letters compare without case. */
module Like {
  function Fold(c: char): char {
    if 'A' <= c <= 'Z' then 'a' + (c - 'A') else c
  }

  predicate Matches(p: string, s: string)
    decreases |p|, |s|
  {
    if p == "" then s == ""
    else if p[0] == '%' then Matches(p[1..], s) || (s != "" && Matches(p, s[1..]))
    else s != "" && (p[0] == '_' || Fold(p[0]) == Fold(s[0])) && Matches(p[1..], s[1..])
  }

  /** Text without wildcards. */
  predicate Plain(t: string) {
    forall i :: 0 <= i < |t| ==> t[i] != '%' && t[i] != '_'
  }

  predicate SameFolded(a: string, b: string) {
    |a| == |b| && forall i :: 0 <= i < |a| ==> Fold(a[i]) == Fold(b[i])
  }

  predicate HasPrefix(s: string, t: string) {
    |t| <= |s| && SameFolded(s[..|t|], t)
  }

  ghost predicate Contains(s: string, t: string) {
    exists i :: 0 <= i <= |s| && HasPrefix(s[i..], t)
  }

  // ---------------------------------------------------------------- patterns with plain text

  lemma {:induction false} AnyMatches(s: string)
    ensures Matches("%", s)
    decreases |s|
  {
    if s != "" {
      AnyMatches(s[1..]);
    } else {
      assert "%"[1..] == "";
    }
  }

  /** A leading '%' drops some part of the text. */
  lemma {:induction false} AnyFirst(p: string, s: string)
    ensures Matches("%" + p, s) <==> exists i :: 0 <= i <= |s| && Matches(p, s[i..])
    decreases |s|
  {
    assert ("%" + p)[1..] == p;
    assert s[0..] == s;
    if s != "" {
      AnyFirst(p, s[1..]);
      if i :| 0 <= i <= |s[1..]| && Matches(p, s[1..][i..]) {
        assert s[i + 1..] == s[1..][i..];
      }
      if i :| 0 < i <= |s| && Matches(p, s[i..]) {
        assert s[i..] == s[1..][i - 1..];
      }
    }
  }

  /** Plain text at the front of a pattern matches the same text, up to case. */
  lemma {:induction false} PlainFirst(t: string, p: string, s: string)
    requires Plain(t)
    ensures Matches(t + p, s) <==> HasPrefix(s, t) && Matches(p, s[|t|..])
    decreases |t|
  {
    if t == "" {
      assert t + p == p && s[0..] == s;
    } else {
      assert (t + p)[1..] == t[1..] + p;
      if s != "" {
        PlainFirst(t[1..], p, s[1..]);
        PrefixCons(s, t);
        if |t| <= |s| {
          assert s[1..][|t| - 1..] == s[|t|..];
        }
      }
    }
  }

  lemma PrefixCons(s: string, t: string)
    requires s != "" && t != ""
    ensures HasPrefix(s, t) <==> Fold(s[0]) == Fold(t[0]) && HasPrefix(s[1..], t[1..])
  {
    if HasPrefix(s[1..], t[1..]) && Fold(s[0]) == Fold(t[0]) {
      forall i | 0 <= i < |t|
        ensures Fold(s[..|t|][i]) == Fold(t[i])
      {
        if i > 0 {
          assert Fold(s[1..][..|t| - 1][i - 1]) == Fold(t[1..][i - 1]);
        }
      }
    }
    if HasPrefix(s, t) {
      assert Fold(s[..|t|][0]) == Fold(t[0]);
      forall i | 0 <= i < |t| - 1
        ensures Fold(s[1..][..|t| - 1][i]) == Fold(t[1..][i])
      {
        assert Fold(s[..|t|][i + 1]) == Fold(t[i + 1]);
      }
    }
  }

  lemma {:induction false} PlainPrefix(t: string, s: string)
    requires Plain(t)
    ensures Matches(t + "%", s) <==> HasPrefix(s, t)
  {
    PlainFirst(t, "%", s);
    if HasPrefix(s, t) {
      AnyMatches(s[|t|..]);
    }
  }

  lemma {:induction false} PlainContains(t: string, s: string)
    requires Plain(t)
    ensures Matches("%" + t + "%", s) <==> Contains(s, t)
  {
    assert "%" + t + "%" == "%" + (t + "%");
    AnyFirst(t + "%", s);
    forall i | 0 <= i <= |s| { PlainPrefix(t, s[i..]); }
  }

  lemma {:induction false} HasSlash(s: string)
    ensures Matches("%/%", s) <==> '/' in s
  {
    assert "%/%" == "%" + "/%";
    AnyFirst("/%", s);
    assert Plain("/") && "/" + "%" == "/%";
    forall i | 0 <= i <= |s|
      ensures Matches("/%", s[i..]) <==> i < |s| && s[i] == '/'
    {
      PlainPrefix("/", s[i..]);
    }
  }

  // ---------------------------------------------------------------- what wildcards in the text do

  /** Every '/' of a pattern needs one of its own in the text. */
  function Slashes(s: string): nat {
    if s == "" then 0 else (if s[0] == '/' then 1 else 0) + Slashes(s[1..])
  }

  lemma {:induction false} EnoughSlashes(p: string, s: string)
    requires Matches(p, s)
    ensures Slashes(p) <= Slashes(s)
    decreases |p|, |s|
  {
    if p != "" {
      if p[0] == '%' {
        if Matches(p[1..], s) {
          EnoughSlashes(p[1..], s);
        } else {
          EnoughSlashes(p, s[1..]);
        }
      } else {
        EnoughSlashes(p[1..], s[1..]);
      }
    }
  }

  lemma {:induction false} SlashesConcat(a: string, b: string)
    ensures Slashes(a + b) == Slashes(a) + Slashes(b)
    decreases |a|
  {
    if a == "" {
      assert a + b == b;
    } else {
      assert (a + b)[1..] == a[1..] + b;
      SlashesConcat(a[1..], b);
    }
  }

  /** A wildcard stands, among others, for one 'x', and every character stands for itself. */
  lemma {:induction false} WildcardStandsForX(t: string, k: nat, p: string, s: string)
    requires k < |t| && (t[k] == '%' || t[k] == '_')
    requires Matches(p, s)
    ensures Matches(t + p, t[k := 'x'] + s)
    ensures Slashes(t[k := 'x']) == Slashes(t)
    decreases |t|
  {
    var x := t[k := 'x'];
    assert (t + p)[1..] == t[1..] + p && (x + s)[1..] == x[1..] + s;
    if k > 0 {
      assert x[1..] == t[1..][k - 1 := 'x'];
      WildcardStandsForX(t[1..], k - 1, p, s);
    } else {
      assert x[1..] == t[1..];
      SelfMatches(t[1..], p, s);
    }
    if t[0] == '%' {
      assert Matches((t + p)[1..], (x + s)[1..]);
      AnySkips(t + p, x + s);
    }
  }

  /** '%' may match exactly one character. */
  lemma {:induction false} AnySkips(p: string, s: string)
    requires p != "" && p[0] == '%' && s != "" && Matches(p[1..], s[1..])
    ensures Matches(p, s)
  {
    assert Matches(p, s[1..]);
  }

  lemma {:induction false} SelfMatches(t: string, p: string, s: string)
    requires Matches(p, s)
    ensures Matches(t + p, t + s)
    decreases |t|
  {
    if t == "" {
      assert t + p == p && t + s == s;
    } else {
      assert (t + p)[1..] == t[1..] + p && (t + s)[1..] == t[1..] + s;
      SelfMatches(t[1..], p, s);
      if t[0] == '%' {
        AnySkips(t + p, t + s);
      }
    }
  }

  lemma NotItself(t: string, k: nat)
    requires k < |t| && (t[k] == '%' || t[k] == '_')
    ensures !HasPrefix(t[k := 'x'], t)
  {
    assert t[k := 'x'][..|t|][k] == 'x';
  }

  // ---------------------------------------------------------------- the filters of query.c

  /** The filters on title, artist, album and search find exactly the texts that contain the
      filter text, if and only if the filter text has no wildcard. */
  lemma {:induction false} SubstringMeaning(t: string)
    ensures Plain(t) <==> forall s :: Matches("%" + t + "%", s) <==> Contains(s, t)
  {
    if Plain(t) {
      forall s { PlainContains(t, s); }
    } else {
      var s := OtherText(t);
      assert Matches("%" + t + "%", s) && !Contains(s, t);
    }
  }

  /** With a wildcard in the filter text, a text that the filter finds and that does not contain it. */
  lemma OtherText(t: string) returns (s: string)
    requires !Plain(t)
    ensures Matches("%" + t + "%", s) && !Contains(s, t)
  {
    var k :| 0 <= k < |t| && (t[k] == '%' || t[k] == '_');
    s := t[k := 'x'];
    AnyMatches("");
    WildcardStandsForX(t, k, "%", "");
    assert s + "" == s && s[0..] == s;
    AnyFirst(t + "%", s);
    assert "%" + t + "%" == "%" + (t + "%");
    NotItself(t, k);
    assert forall i :: 0 <= i <= |s| && HasPrefix(s[i..], t) ==> i == 0;
  }

  /** The two conditions of the directory filter. */
  predicate InDirectory(t: string, s: string) {
    Matches(t + "%", s) && !Matches(t + "%/%", s)
  }

  predicate DirectlyBelow(s: string, t: string) {
    HasPrefix(s, t) && '/' !in s[|t|..]
  }

  lemma PlainDirectory(t: string, s: string)
    requires Plain(t)
    ensures InDirectory(t, s) <==> DirectlyBelow(s, t)
  {
    PlainPrefix(t, s);
    PlainFirst(t, "%/%", s);
    if HasPrefix(s, t) {
      HasSlash(s[|t|..]);
    }
  }

  /** The directory filter finds exactly the paths that start with the given one and have no '/'
      after it, if and only if the given path has no wildcard. */
  lemma DirectoryMeaning(t: string)
    ensures Plain(t) <==> forall s :: InDirectory(t, s) <==> DirectlyBelow(s, t)
  {
    if Plain(t) {
      forall s { PlainDirectory(t, s); }
    } else {
      var s := OtherDirectory(t);
      assert InDirectory(t, s) && !DirectlyBelow(s, t);
    }
  }

  lemma OneSlash()
    ensures Slashes("%/%") == 1
  {
    assert "%/%"[1..] == "/%" && "/%"[1..] == "%" && "%"[1..] == "";
  }

  /** With a wildcard in the path, a file that the filter finds and that is not below the path. */
  lemma OtherDirectory(t: string) returns (s: string)
    requires !Plain(t)
    ensures InDirectory(t, s) && !DirectlyBelow(s, t)
  {
    var k :| 0 <= k < |t| && (t[k] == '%' || t[k] == '_');
    s := t[k := 'x'];
    AnyMatches("");
    WildcardStandsForX(t, k, "%", "");
    assert s + "" == s;
    NotItself(t, k);
    SlashesConcat(t, "%/%");
    OneSlash();
    if Matches(t + "%/%", s) {
      EnoughSlashes(t + "%/%", s);
    }
  }
}
