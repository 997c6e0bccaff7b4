/** The directory table of src/library.c as a graph, for any parent ids, and when the recursion of
    library_directory_delete ends in it. */
module LibraryTree {
  import opened Common

  /** `parent` is 0 for the root. */
  datatype Directory = Directory(path: string, parent: nat)

  type Table = map<nat, Directory>

  // ---------------------------------------------------------------- descent

  /** `n` steps up from `x` lead to `d`. */
  predicate UpTo(t: Table, x: nat, n: nat, d: nat)
    decreases n
  {
    if n == 0 then x == d else x in t && UpTo(t, t[x].parent, n - 1, d)
  }

  /** `x` is `d` or below it. */
  ghost predicate Descends(t: Table, x: nat, d: nat) {
    exists n: nat :: UpTo(t, x, n, d)
  }

  /** Some steps up from `d` lead back to it. */
  ghost predicate OwnAncestor(t: Table, d: nat) {
    d in t && Descends(t, t[d].parent, d)
  }

  ghost predicate Closed(t: Table, s: set<nat>) {
    forall x :: x in t && t[x].parent in s ==> x in s
  }

  /** `d` and all that is below it. */
  ghost function Below(t: Table, d: nat): set<nat> {
    {d} + set x | x in t && Descends(t, x, d)
  }

  predicate PartOf(small: Table, t: Table) {
    forall x :: x in small ==> x in t && small[x] == t[x]
  }

  lemma {:induction false} UpToConcat(t: Table, x: nat, n: nat, y: nat, m: nat, z: nat)
    requires UpTo(t, x, n, y) && UpTo(t, y, m, z)
    ensures UpTo(t, x, n + m, z)
    decreases n
  {
    if n > 0 {
      UpToConcat(t, t[x].parent, n - 1, y, m, z);
    }
  }

  lemma {:induction false} UpToMonotone(small: Table, t: Table, x: nat, n: nat, d: nat)
    requires PartOf(small, t) && UpTo(small, x, n, d)
    ensures UpTo(t, x, n, d)
    decreases n
  {
    if n > 0 {
      UpToMonotone(small, t, small[x].parent, n - 1, d);
    }
  }

  lemma {:induction false} DescendsTwice(t: Table, x: nat, y: nat, z: nat)
    requires Descends(t, x, y) && Descends(t, y, z)
    ensures Descends(t, x, z)
  {
    var n: nat :| UpTo(t, x, n, y);
    var m: nat :| UpTo(t, y, m, z);
    UpToConcat(t, x, n, y, m, z);
  }

  lemma {:induction false} DescendsMonotone(small: Table, t: Table, x: nat, d: nat)
    requires PartOf(small, t) && Descends(small, x, d)
    ensures Descends(t, x, d)
  {
    var n: nat :| UpTo(small, x, n, d);
    UpToMonotone(small, t, x, n, d);
  }

  lemma {:induction false} DescendsStep(t: Table, x: nat, d: nat)
    ensures Descends(t, x, d) <==> x == d || (x in t && Descends(t, t[x].parent, d))
  {
    assert UpTo(t, d, 0, d);
    if n: nat :| UpTo(t, x, n, d) {
      assert x != d ==> UpTo(t, t[x].parent, n - 1, d);
    }
    if x in t {
      if n: nat :| UpTo(t, t[x].parent, n, d) {
        assert UpTo(t, x, n + 1, d);
      }
    }
  }

  /** When no child of `d` is left outside a closed set, the set has everything below `d`. */
  lemma {:induction false} ClosedCovers(t: Table, s: set<nat>, x: nat, n: nat, d: nat)
    requires Closed(t, s) && forall c :: c in t && t[c].parent == d ==> c in s
    requires x in t && x != d && UpTo(t, x, n, d)
    ensures x in s
    decreases n
  {
    if t[x].parent != d {
      ClosedCovers(t, s, t[x].parent, n - 1, d);
    }
  }

  /** What is below `d` is the least set that holds `d` and the children of all its members. */
  lemma {:induction false} BelowIsLeast(t: Table, d: nat, s: set<nat>)
    ensures d in Below(t, d) && Closed(t, Below(t, d))
    ensures d in s && Closed(t, s) ==> Below(t, d) <= s
  {
    forall x | x in t && t[x].parent in Below(t, d)
      ensures x in Below(t, d)
    {
      DescendsStep(t, x, d);
      DescendsStep(t, d, d);
    }
    if d in s && Closed(t, s) {
      forall x | x in Below(t, d)
        ensures x in s
      {
        if x != d {
          var n: nat :| UpTo(t, x, n, d);
          ClosedCovers(t, s, x, n, d);
        }
      }
    }
  }

  // ---------------------------------------------------------------- directories that are not their own ancestors

  /** A way round through a child. */
  lemma {:induction false} WayRound(t: Table, d: nat, c: nat)
    requires c in t && t[c].parent == d && Descends(t, d, c)
    ensures OwnAncestor(t, d)
  {
    DescendsStep(t, d, c);
    DescendsStep(t, c, d);
    DescendsStep(t, d, d);
    if d != c {
      DescendsTwice(t, t[d].parent, c, d);
    }
  }

  /** The calls for the children of a directory that is not its own ancestor are for directories
      with less below them, and these are not their own ancestors either. */
  lemma {:induction false} BelowShrinks(t: Table, small: Table, d: nat, c: nat)
    requires PartOf(small, t) && c in t && t[c].parent == d && !OwnAncestor(t, d)
    ensures !OwnAncestor(small, c)
    ensures Below(small, c) < Below(t, d) && d !in Below(small, c)
  {
    if Descends(small, d, c) {
      DescendsMonotone(small, t, d, c);
      WayRound(t, d, c);
    }
    DescendsStep(small, c, c);
    if d == c {
      DescendsStep(small, d, c);
    }
    forall x | x in Below(small, c)
      ensures x in Below(t, d)
    {
      DescendsStep(t, c, d);
      DescendsStep(t, d, d);
      if x != c {
        DescendsMonotone(small, t, x, c);
        DescendsTwice(t, x, c, d);
      }
    }
    assert d in Below(t, d);
  }

  lemma {:induction false} UpToLarger(t: Table, x: nat, n: nat, d: nat)
    requires (forall y :: y in t ==> t[y].parent < y) && UpTo(t, x, n, d)
    ensures d <= x
    decreases n
  {
    if n > 0 {
      UpToLarger(t, t[x].parent, n - 1, d);
    }
  }

  /** In a table whose parents precede their children no directory is its own ancestor. */
  lemma {:induction false} OrderedHasNoCycle(t: Table, d: nat)
    requires forall y :: y in t ==> t[y].parent < y
    ensures !OwnAncestor(t, d)
  {
    if OwnAncestor(t, d) {
      var n: nat :| UpTo(t, t[d].parent, n, d);
      UpToLarger(t, t[d].parent, n, d);
    }
  }

  // ---------------------------------------------------------------- the recursion, call by call

  /** The calls of library_directory_delete that have begun, innermost last, and the rows left. */
  datatype Calls = Calls(rows: Table, stack: seq<nat>)

  predicate ChildLeft(rows: Table, d: nat) {
    exists c :: c in rows && rows[c].parent == d
  }

  /** The innermost call finds a row in its directory and calls itself for it, or it finds none,
      deletes its own row and returns. */
  predicate NextCall(s: Calls, s': Calls) {
    s.stack != [] &&
    var top := s.stack[|s.stack| - 1];
    if ChildLeft(s.rows, top) then
      exists c :: c in s.rows && s.rows[c].parent == top && s' == s.(stack := s.stack + [c])
    else s' == Calls(s.rows - {top}, s.stack[..|s.stack| - 1])
  }

  ghost predicate IsDeletion(t: Table, d: nat, states: seq<Calls>) {
    && states != [] && states[0] == Calls(t, [d])
    && forall k :: 0 <= k < |states| - 1 ==> NextCall(states[k], states[k + 1])
  }

  /** There is a bound on the calls and returns of every deletion. */
  ghost predicate Ends(t: Table, d: nat) {
    exists bound: nat :: Within(t, d, bound)
  }

  ghost predicate Within(t: Table, d: nat, bound: nat) {
    forall states :: IsDeletion(t, d, states) ==> |states| <= bound
  }

  // ---------------------------------------------------------------- it does not end

  /** What is above `d`, itself included if it is its own ancestor. */
  ghost function Above(t: Table, d: nat): set<nat> {
    set x | x in t && IsAbove(t, d, x)
  }

  ghost predicate IsAbove(t: Table, d: nat, x: nat) {
    exists n: nat :: n > 0 && UpTo(t, d, n, x)
  }

  lemma {:induction false} UpToLast(t: Table, x: nat, n: nat, d: nat) returns (y: nat)
    requires n > 0 && UpTo(t, x, n, d)
    ensures UpTo(t, x, n - 1, y) && y in t && t[y].parent == d
    decreases n
  {
    if n == 1 {
      y := x;
    } else {
      y := UpToLast(t, t[x].parent, n - 1, d);
    }
  }

  /** On a cycle every row has a row below it, so none of them is ever without children. */
  lemma {:induction false} CycleHasChildren(t: Table, d: nat)
    requires OwnAncestor(t, d)
    ensures d in Above(t, d)
    ensures forall x :: x in Above(t, d) ==> exists y :: y in Above(t, d) && t[y].parent == x
  {
    var m: nat :| UpTo(t, t[d].parent, m, d);
    assert UpTo(t, d, m + 1, d);
    forall x | x in Above(t, d)
      ensures exists y :: y in Above(t, d) && t[y].parent == x
    {
      var n: nat :| n > 0 && UpTo(t, d, n, x);
      var y := UpToLast(t, d, n, x);
      if n == 1 {
        assert y == d;
      }
      assert y in Above(t, d) && t[y].parent == x;
    }
  }

  /** The cycle is still there and the first call has not returned. */
  ghost predicate Stuck(t: Table, d: nat, s: Calls) {
    && PartOf(s.rows, t) && Above(t, d) <= s.rows.Keys
    && s.stack != [] && s.stack[0] == d
  }

  /** A row without children is on no cycle. */
  lemma {:induction false} CycleStays(t: Table, d: nat, rows: Table, top: nat)
    requires OwnAncestor(t, d) && PartOf(rows, t) && Above(t, d) <= rows.Keys && !ChildLeft(rows, top)
    ensures top !in Above(t, d) && top != d
  {
    CycleHasChildren(t, d);
    assert forall y :: y in Above(t, d) ==> y in rows && rows[y] == t[y];
  }

  lemma {:induction false} StaysStuck(t: Table, d: nat, s: Calls, s': Calls)
    requires OwnAncestor(t, d) && Stuck(t, d, s) && NextCall(s, s')
    ensures Stuck(t, d, s')
  {
    var top := s.stack[|s.stack| - 1];
    if !ChildLeft(s.rows, top) {
      CycleStays(t, d, s.rows, top);
    }
  }

  lemma {:induction false} StuckRun(t: Table, d: nat, states: seq<Calls>, k: nat)
    requires OwnAncestor(t, d) && IsDeletion(t, d, states) && k < |states|
    ensures Stuck(t, d, states[k])
    decreases k
  {
    if k == 0 {
      assert Above(t, d) <= t.Keys;
    } else {
      StuckRun(t, d, states, k - 1);
      StaysStuck(t, d, states[k - 1], states[k]);
    }
  }

  lemma {:induction false} AlwaysNext(s: Calls) returns (s': Calls)
    requires s.stack != []
    ensures NextCall(s, s')
  {
    var top := s.stack[|s.stack| - 1];
    if ChildLeft(s.rows, top) {
      var c :| c in s.rows && s.rows[c].parent == top;
      s' := s.(stack := s.stack + [c]);
    } else {
      s' := Calls(s.rows - {top}, s.stack[..|s.stack| - 1]);
    }
  }

  lemma {:induction false} LongDeletion(t: Table, d: nat, n: nat) returns (states: seq<Calls>)
    requires OwnAncestor(t, d)
    ensures IsDeletion(t, d, states) && |states| == n + 1
  {
    if n == 0 {
      states := [Calls(t, [d])];
    } else {
      states := LongDeletion(t, d, n - 1);
      StuckRun(t, d, states, n - 1);
      var next := AlwaysNext(states[n - 1]);
      states := states + [next];
    }
  }

  // ---------------------------------------------------------------- it ends

  /** Each call is for a row in the directory of the call around it. */
  ghost predicate Nested(t: Table, d: nat, s: Calls) {
    && PartOf(s.rows, t)
    && (s.stack != [] ==> s.stack[0] == d)
    && forall i :: 0 < i < |s.stack| ==> s.stack[i] in s.rows && s.rows[s.stack[i]].parent == s.stack[i - 1]
  }

  lemma {:induction false} StackDescends(t: Table, d: nat, s: Calls, i: nat, j: nat)
    requires Nested(t, d, s) && i <= j < |s.stack|
    ensures Descends(t, s.stack[j], s.stack[i])
    decreases j - i
  {
    DescendsStep(t, s.stack[j], s.stack[i]);
    if i < j {
      StackDescends(t, d, s, i, j - 1);
    }
  }

  /** All that leads to a directory on a cycle is on the way round. */
  lemma {:induction false} CycleUp(t: Table, y: nat, n: nat, d: nat)
    requires OwnAncestor(t, y) && UpTo(t, y, n, d)
    ensures OwnAncestor(t, d)
    decreases n
  {
    if n > 0 {
      WayRound(t, t[y].parent, y);
      CycleUp(t, t[y].parent, n - 1, d);
    }
  }

  /** No directory is deleted by two calls at once. */
  lemma {:induction false} StackDistinct(t: Table, d: nat, s: Calls, i: nat, j: nat)
    requires Nested(t, d, s) && !OwnAncestor(t, d) && i < j < |s.stack|
    ensures s.stack[i] != s.stack[j]
  {
    if s.stack[i] == s.stack[j] {
      var y := s.stack[j];
      StackDescends(t, d, s, i, j - 1);
      assert t[y].parent == s.stack[j - 1];
      StackDescends(t, d, s, 0, j);
      var n: nat :| UpTo(t, y, n, d);
      CycleUp(t, y, n, d);
    }
  }

  function Elements(q: seq<nat>): set<nat> {
    set x | x in q
  }

  lemma {:induction false} DistinctSize(q: seq<nat>)
    requires forall i, j :: 0 <= i < j < |q| ==> q[i] != q[j]
    ensures |Elements(q)| == |q|
    decreases |q|
  {
    if q != [] {
      var n := |q| - 1;
      DistinctSize(q[..n]);
      assert q == q[..n] + [q[n]];
      assert Elements(q) == Elements(q[..n]) + {q[n]};
    }
  }

  lemma {:induction false} StackBound(t: Table, d: nat, s: Calls)
    requires Nested(t, d, s) && !OwnAncestor(t, d) && s.stack != []
    ensures |s.stack| - 1 <= |s.rows.Keys - {d}|
  {
    forall i, j | 0 <= i < j < |s.stack|
      ensures s.stack[i] != s.stack[j]
    {
      StackDistinct(t, d, s, i, j);
    }
    var inner := s.stack[1..];
    DistinctSize(inner);
    SubsetSize(Elements(inner), s.rows.Keys - {d});
  }

  /** What is left to do: a call and a return for each row, less the calls that have begun. */
  ghost function Left(d: nat, s: Calls): int {
    2 * |s.rows.Keys - {d}| - |s.stack|
  }

  lemma {:induction false} CallBegins(t: Table, d: nat, s: Calls, c: nat)
    requires Nested(t, d, s) && s.stack != []
    requires c in s.rows && s.rows[c].parent == s.stack[|s.stack| - 1]
    ensures Nested(t, d, s.(stack := s.stack + [c]))
  {
  }

  lemma {:induction false} CallReturns(t: Table, d: nat, s: Calls, n: nat, top: nat)
    requires Nested(t, d, s) && !OwnAncestor(t, d) && 0 < n == |s.stack| - 1 && top == s.stack[n]
    ensures Nested(t, d, Calls(s.rows - {top}, s.stack[..n]))
    ensures |(s.rows - {top}).Keys - {d}| == |s.rows.Keys - {d}| - 1
  {
    StackDistinct(t, d, s, 0, n);
    assert (s.rows - {top}).Keys - {d} == (s.rows.Keys - {d}) - {top};
    forall i | 0 < i < n
      ensures s.stack[i] != top
    {
      StackDistinct(t, d, s, i, n);
    }
  }

  lemma {:induction false} CallStep(t: Table, d: nat, s: Calls, s': Calls)
    requires Nested(t, d, s) && !OwnAncestor(t, d) && NextCall(s, s')
    ensures Nested(t, d, s')
    ensures s'.stack != [] ==> Left(d, s') == Left(d, s) - 1
  {
    var n := |s.stack| - 1;
    var top := s.stack[n];
    if ChildLeft(s.rows, top) {
      var c :| c in s.rows && s.rows[c].parent == top && s' == s.(stack := s.stack + [c]);
      CallBegins(t, d, s, c);
    } else if n > 0 {
      CallReturns(t, d, s, n, top);
    }
  }

  lemma {:induction false} CallsLeft(t: Table, d: nat, states: seq<Calls>, k: nat)
    requires !OwnAncestor(t, d) && IsDeletion(t, d, states) && k < |states|
    ensures Nested(t, d, states[k])
    ensures states[k].stack != [] ==> Left(d, states[k]) == 2 * |t.Keys - {d}| - 1 - k
    decreases k
  {
    if k > 0 {
      CallsLeft(t, d, states, k - 1);
      CallStep(t, d, states[k - 1], states[k]);
    }
  }

  /** Each directory below costs a call and a return. */
  lemma {:induction false} DeletionBound(t: Table, d: nat, states: seq<Calls>)
    requires !OwnAncestor(t, d) && IsDeletion(t, d, states)
    ensures |states| <= 2 * |t.Keys - {d}| + 2
  {
    if |states| > 1 {
      var k := |states| - 2;
      CallsLeft(t, d, states, k);
      assert NextCall(states[k], states[k + 1]);
      StackBound(t, d, states[k]);
    }
  }

  /** In any table, whatever its parent ids and whichever order the rows come in, the deletion of a
      directory ends if and only if the directory is not its own ancestor. */
  lemma {:induction false} EndsExactly(t: Table, d: nat)
    ensures Ends(t, d) <==> !OwnAncestor(t, d)
  {
    if OwnAncestor(t, d) {
      forall bound: nat
        ensures !Within(t, d, bound)
      {
        var states := LongDeletion(t, d, bound);
        assert IsDeletion(t, d, states) && |states| > bound;
      }
    } else {
      forall states | IsDeletion(t, d, states)
        ensures |states| <= 2 * |t.Keys - {d}| + 2
      {
        DeletionBound(t, d, states);
      }
      assert Within(t, d, 2 * |t.Keys - {d}| + 2);
    }
  }
}
