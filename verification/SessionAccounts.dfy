/** What the fields of a session say about the past of the table: how often it has been handed out
    and given back, and when it was last looked up. */
module SessionAccounts {
  import opened Session

  /** A lookup of this id finds the session that was created as number `b`. */
  ghost predicate Finds(t: Table, id: string, b: nat) {
    exists i :: 0 <= i < |t.list| && t.list[i].id == id && t.list[i].born == b
  }

  /** How many of the first `n` operations were a session_get that returned it. */
  ghost function Gets(states: seq<Table>, ops: seq<Op>, b: nat, n: nat): nat
    requires IsRun(states, ops) && n <= |ops|
    decreases n, ops
  {
    if n == 0 then 0
    else
      Gets(states, ops, b, n - 1) + if ops[n - 1].Get? && Finds(states[n - 1], ops[n - 1].id, b) then 1 else 0
  }

  /** How many were a session_deref of it. */
  ghost function Derefs(states: seq<Table>, ops: seq<Op>, b: nat, n: nat): nat
    requires IsRun(states, ops) && n <= |ops|
    decreases n, ops
  {
    if n == 0 then 0
    else
      Derefs(states, ops, b, n - 1) + if ops[n - 1].Deref? && Finds(states[n - 1], ops[n - 1].id, b) then 1 else 0
  }

  /** The draws before the id that the new session got. */
  function Collisions(candidates: seq<Candidate>, id: string): seq<Candidate> {
    if candidates == [] || candidates[0].0 == id then [] else [candidates[0]] + Collisions(candidates[1..], id)
  }

  /** The ids that an operation looks up, and when. */
  function Lookups(op: Op, after: Table): seq<Candidate> {
    match op
    case New(candidates) => if after.list == [] then [] else Collisions(candidates, after.list[0].id)
    case Get(id, now) => [(id, now)]
    case Deref(_) => []
  }

  /** The time of the last of these lookups that finds the session; `before` if none does. */
  ghost function LastOf(lookups: seq<Candidate>, t: Table, b: nat, before: int): int
    decreases |lookups|
  {
    if lookups == [] then before
    else LastOf(lookups[1..], t, b, if Finds(t, lookups[0].0, b) then lookups[0].1 else before)
  }

  /** The time of the last lookup in the first `n` operations that found it; 0 if none did. */
  ghost function LastLookup(states: seq<Table>, ops: seq<Op>, b: nat, n: nat): int
    requires IsRun(states, ops) && n <= |ops|
    decreases n, ops
  {
    if n == 0 then 0
    else LastOf(Lookups(ops[n - 1], states[n]), states[n - 1], b, LastLookup(states, ops, b, n - 1))
  }

  // ---------------------------------------------------------------- one operation

  lemma {:induction false} FoundIsIndex(t: Table, id: string, i: nat)
    requires Invariant(t) && i < |t.list|
    ensures Finds(t, id, t.list[i].born) <==> IndexOf(t.list, id) == i
    ensures Finds(t, id, t.list[i].born) <==> t.list[i].id == id
  {
  }

  /** A session that is yet to be created is not found. */
  lemma NotBorn(t: Table, id: string, b: nat)
    requires Invariant(t) && t.created <= b
    ensures !Finds(t, id, b)
  {
  }

  lemma {:induction false} LastOfNotBorn(lookups: seq<Candidate>, t: Table, b: nat, before: int)
    requires Invariant(t) && t.created <= b
    ensures LastOf(lookups, t, b, before) == before
    decreases |lookups|
  {
    if lookups != [] {
      NotBorn(t, lookups[0].0, b);
      LastOfNotBorn(lookups[1..], t, b, before);
    }
  }

  /** The same for a session of a list, by its id. */
  function LastById(lookups: seq<Candidate>, id: string, before: int): int
    decreases |lookups|
  {
    if lookups == [] then before
    else LastById(lookups[1..], id, if lookups[0].0 == id then lookups[0].1 else before)
  }

  lemma {:induction false} LastOfIsById(lookups: seq<Candidate>, t: Table, i: nat, before: int)
    requires Invariant(t) && i < |t.list|
    ensures LastOf(lookups, t, t.list[i].born, before) == LastById(lookups, t.list[i].id, before)
    decreases |lookups|
  {
    if lookups != [] {
      FoundIsIndex(t, lookups[0].0, i);
      LastOfIsById(lookups[1..], t, i, if lookups[0].0 == t.list[i].id then lookups[0].1 else before);
    }
  }

  predicate Distinct(t: seq<Session>) {
    forall i, j :: 0 <= i < j < |t| ==> t[i].id != t[j].id
  }

  /** Drawing an id marks the sessions that it collides with, each with the time of the last draw
      of its id. */
  lemma {:induction false} GenerateMarks(t: seq<Session>, candidates: seq<Candidate>, i: nat)
    requires HasFresh(t, candidates) && Distinct(t) && i < |t|
    ensures var (t', id) := Generate(t, candidates);
      |t'| == |t| && t'[i] == t[i].(lastRequest := LastById(Collisions(candidates, id), t[i].id, t[i].lastRequest))
    decreases |candidates|
  {
    GenerateFresh(t, candidates);
    var k :| 0 <= k < |candidates| && IndexOf(t, candidates[k].0) == |t|;
    var at := IndexOf(t, candidates[0].0);
    if at < |t| {
      var touched := Touch(t, candidates[0].0, candidates[0].1);
      IndexSame(t, touched, candidates[k].0);
      assert candidates[1..][k - 1] == candidates[k];
      var now := if candidates[0].0 == t[i].id then candidates[0].1 else t[i].lastRequest;
      assert touched[i] == t[i].(lastRequest := now);
      GenerateMarks(touched, candidates[1..], i);
      var (t', id) := Generate(t, candidates);
      assert t'[at].id == t[at].id == candidates[0].0;
      assert id != candidates[0].0;
      assert Collisions(candidates, id) == [candidates[0]] + Collisions(candidates[1..], id);
      assert ([candidates[0]] + Collisions(candidates[1..], id))[1..] == Collisions(candidates[1..], id);
    }
  }

  // ---------------------------------------------------------------- one step of the table

  /** The session at `i` after an operation, when it was at `p` before. */
  ghost predicate Follows(t: Table, op: Op, t': Table, p: nat, i: nat) {
    && p < |t.list| && i < |t'.list|
    && t'.list[i].born == t.list[p].born && t'.list[i].id == t.list[p].id
    && t'.list[i].refs == t.list[p].refs
       + (if op.Get? && t.list[p].id == op.id then 1 else 0) - (if op.Deref? && t.list[p].id == op.id then 1 else 0)
    && t'.list[i].lastRequest == LastById(Lookups(op, t'), t.list[p].id, t.list[p].lastRequest)
  }

  /** A session that has just been created. */
  ghost predicate Begins(t: Table, t': Table, i: nat) {
    i < |t'.list| && t'.list[i].born == t.created && t'.list[i].refs == 1 && t'.list[i].lastRequest == 0
  }

  lemma {:induction false} LastByOne(lookups: seq<Candidate>, c: Candidate, id: string, before: int)
    requires lookups == [c]
    ensures LastById(lookups, id, before) == if c.0 == id then c.1 else before
  {
    assert lookups[1..] == [];
  }

  lemma {:induction false} GetFollows(t: Table, op: Op, t': Table, i: nat)
    requires Invariant(t) && op.Get? && Next(t, op, t') && i < |t'.list|
    ensures Follows(t, op, t', i, i)
  {
    FoundIsIndex(t, op.id, i);
    LastByOne(Lookups(op, t'), (op.id, op.now), t.list[i].id, t.list[i].lastRequest);
  }

  lemma {:induction false} DerefFollows(t: Table, op: Op, t': Table, i: nat)
    requires Invariant(t) && op.Deref? && Next(t, op, t') && i < |t'.list|
    ensures Follows(t, op, t', i, i)
  {
    FoundIsIndex(t, op.id, i);
  }

  /** The list in which an id is drawn holds sessions of the table, in the same order. */
  lemma RoomHolds(t: seq<Session>, rest: seq<Session>, v: nat, k: nat) returns (p: nat)
    requires MadeRoom(t, rest, v) && k < |rest| && Distinct(t)
    ensures p < |t| && rest[k] == t[p] && Distinct(rest)
  {
    p := if |t| < MAX_SESSIONS || k < v then k else k + 1;
  }

  lemma {:induction false} CreateMarks(t: Table, candidates: seq<Candidate>, k: nat)
    requires HasFresh(t.list, candidates) && Distinct(t.list) && k < |t.list|
    ensures var list := Create(t, candidates).list;
      |list| == |t.list| + 1 && list[k + 1]
        == t.list[k].(lastRequest := LastById(Collisions(candidates, list[0].id), t.list[k].id, t.list[k].lastRequest))
  {
    GenerateMarks(t.list, candidates, k);
  }

  lemma {:induction false} CreateSize(t: Table, candidates: seq<Candidate>)
    requires HasFresh(t.list, candidates)
    ensures |Create(t, candidates).list| == |t.list| + 1
  {
    GenerateFresh(t.list, candidates);
  }

  lemma {:induction false} NewFrom(t: Table, op: Op, t': Table) returns (v: nat, rest: seq<Session>)
    requires op.New? && Next(t, op, t')
    ensures MadeRoom(t.list, rest, v) && HasFresh(rest, op.candidates)
    ensures t' == Create(t.(list := rest), op.candidates) && |t'.list| == |rest| + 1
  {
    v, rest :| MadeRoom(t.list, rest, v) && Creates(t, rest, op.candidates, t');
    CreateSize(t.(list := rest), op.candidates);
  }

  lemma {:induction false} NewFollows(t: Table, op: Op, t': Table, i: nat) returns (p: nat)
    requires Invariant(t) && op.New? && Next(t, op, t') && 0 < i < |t'.list|
    ensures Follows(t, op, t', p, i)
  {
    var v, rest := NewFrom(t, op, t');
    p := RoomHolds(t.list, rest, v, i - 1);
    CreateMarks(t.(list := rest), op.candidates, i - 1);
  }

  lemma {:induction false} NewBegins(t: Table, op: Op, t': Table)
    requires op.New? && Next(t, op, t')
    ensures t'.list != [] && Begins(t, t', 0)
  {
  }

  // ---------------------------------------------------------------- the id of a new session

  predicate HasId(t: seq<Session>, id: string) {
    exists i :: 0 <= i < |t| && t[i].id == id
  }

  /** The `k`-th draw is the first that no session of the list has. */
  predicate FirstFree(t: seq<Session>, candidates: seq<Candidate>, k: nat) {
    && k < |candidates| && !HasId(t, candidates[k].0)
    && forall j :: 0 <= j < k ==> HasId(t, candidates[j].0)
  }

  lemma {:induction false} HasIdSame(t: seq<Session>, t': seq<Session>, id: string)
    requires SameButTouched(t, t')
    ensures HasId(t, id) <==> HasId(t', id)
  {
    assert forall i :: 0 <= i < |t| ==> t'[i].id == t[i].id;
  }

  lemma {:induction false} GeneratesFirstFree(t: seq<Session>, candidates: seq<Candidate>) returns (k: nat)
    requires HasFresh(t, candidates)
    ensures FirstFree(t, candidates, k) && Generate(t, candidates).1 == candidates[k].0
    decreases |candidates|
  {
    var f :| 0 <= f < |candidates| && IndexOf(t, candidates[f].0) == |t|;
    if IndexOf(t, candidates[0].0) == |t| {
      k := 0;
    } else {
      var touched := Touch(t, candidates[0].0, candidates[0].1);
      IndexSame(t, touched, candidates[f].0);
      assert candidates[1..][f - 1] == candidates[f];
      k := GeneratesFirstFree(touched, candidates[1..]);
      forall j | 0 <= j < |candidates| { HasIdSame(t, touched, candidates[j].0); }
      assert forall j :: 0 < j < |candidates| ==> candidates[j] == candidates[1..][j - 1];
      k := k + 1;
    }
  }

  /** The id of a new session is the first of the draws that no other session has. */
  lemma {:induction false} NewIdIsFirstFree(t: Table, op: Op, t': Table) returns (k: nat)
    requires op.New? && Next(t, op, t')
    ensures t'.list != [] && FirstFree(t'.list[1..], op.candidates, k) && t'.list[0].id == op.candidates[k].0
  {
    var _, rest := NewFrom(t, op, t');
    k := GeneratesFirstFree(rest, op.candidates);
    GenerateFresh(rest, op.candidates);
    assert t'.list[1..] == Generate(rest, op.candidates).0;
    forall j | 0 <= j < |op.candidates| { HasIdSame(rest, t'.list[1..], op.candidates[j].0); }
  }

  // ---------------------------------------------------------------- all runs

  lemma {:induction false} CreatedGrows(states: seq<Table>, ops: seq<Op>, k: nat, n: nat)
    requires IsRun(states, ops) && k <= n < |states|
    ensures states[k].created <= states[n].created
    decreases n
  {
    if k < n {
      CreatedGrows(states, ops, k, n - 1);
    }
  }

  lemma {:induction false} UnbornBefore(states: seq<Table>, ops: seq<Op>, b: nat, n: nat)
    requires IsRun(states, ops) && 0 < n <= |ops| && states[n].created <= b
    ensures Invariant(states[n - 1]) && states[n - 1].created <= b
  {
    InvariantRun(states, ops, n - 1);
    CreatedGrows(states, ops, n - 1, n);
  }

  // Before its creation nothing is on the account of a session.

  lemma {:induction false} NoGets(states: seq<Table>, ops: seq<Op>, b: nat, n: nat)
    requires IsRun(states, ops) && n <= |ops| && states[n].created <= b
    ensures Gets(states, ops, b, n) == 0
    decreases n
  {
    if n > 0 {
      UnbornBefore(states, ops, b, n);
      NoGets(states, ops, b, n - 1);
      if ops[n - 1].Get? {
        NotBorn(states[n - 1], ops[n - 1].id, b);
      }
    }
  }

  lemma {:induction false} NoDerefs(states: seq<Table>, ops: seq<Op>, b: nat, n: nat)
    requires IsRun(states, ops) && n <= |ops| && states[n].created <= b
    ensures Derefs(states, ops, b, n) == 0
    decreases n
  {
    if n > 0 {
      UnbornBefore(states, ops, b, n);
      NoDerefs(states, ops, b, n - 1);
      if ops[n - 1].Deref? {
        NotBorn(states[n - 1], ops[n - 1].id, b);
      }
    }
  }

  lemma {:induction false} NoLookups(states: seq<Table>, ops: seq<Op>, b: nat, n: nat)
    requires IsRun(states, ops) && n <= |ops| && states[n].created <= b
    ensures LastLookup(states, ops, b, n) == 0
    decreases n
  {
    if n > 0 {
      UnbornBefore(states, ops, b, n);
      NoLookups(states, ops, b, n - 1);
      LastOfNotBorn(Lookups(ops[n - 1], states[n]), states[n - 1], b, 0);
    }
  }

  /** The fields of a session are what its account says. */
  ghost predicate OnAccount(states: seq<Table>, ops: seq<Op>, n: nat, x: Session)
    requires IsRun(states, ops) && n <= |ops|
  {
    && x.refs == 1 + Gets(states, ops, x.born, n) - Derefs(states, ops, x.born, n)
    && x.lastRequest == LastLookup(states, ops, x.born, n)
  }

  lemma {:induction false} AccountFollows(states: seq<Table>, ops: seq<Op>, n: nat, p: nat, i: nat)
    requires IsRun(states, ops) && n < |ops| && Follows(states[n], ops[n], states[n + 1], p, i)
    requires OnAccount(states, ops, n, states[n].list[p])
    ensures OnAccount(states, ops, n + 1, states[n + 1].list[i])
  {
    var t, op, x := states[n], ops[n], states[n].list[p];
    InvariantRun(states, ops, n);
    if !op.New? {
      FoundIsIndex(t, op.id, p);
    }
    LastOfIsById(Lookups(op, states[n + 1]), t, p, x.lastRequest);
  }

  lemma {:induction false} AccountBegins(states: seq<Table>, ops: seq<Op>, n: nat, i: nat)
    requires IsRun(states, ops) && n < |ops| && ops[n].New? && Begins(states[n], states[n + 1], i)
    ensures OnAccount(states, ops, n + 1, states[n + 1].list[i])
  {
    var b := states[n].created;
    InvariantRun(states, ops, n);
    NoGets(states, ops, b, n);
    NoDerefs(states, ops, b, n);
    NoLookups(states, ops, b, n);
    LastOfNotBorn(Lookups(ops[n], states[n + 1]), states[n], b, 0);
  }

  /** In every state of every run and of every session in the table: its reference count is one, for
      its creator, and one for each session_get that returned it, less the times it was given back;
      and its last request is the time of the last lookup that found it, by session_get or by the
      draw of a new id, and zero if none has. */
  lemma {:induction false} AccountsAreExact(states: seq<Table>, ops: seq<Op>, n: nat, i: nat)
    requires IsRun(states, ops) && n < |states| && i < |states[n].list|
    ensures var x := states[n].list[i];
      && x.refs == 1 + Gets(states, ops, x.born, n) - Derefs(states, ops, x.born, n)
      && x.lastRequest == LastLookup(states, ops, x.born, n)
    decreases n
  {
    if n > 0 {
      var t, op, t' := states[n - 1], ops[n - 1], states[n];
      InvariantRun(states, ops, n - 1);
      if op.New? && i == 0 {
        NewBegins(t, op, t');
        AccountBegins(states, ops, n - 1, 0);
      } else {
        var p := i;
        if op.New? {
          p := NewFollows(t, op, t', i);
        } else if op.Get? {
          GetFollows(t, op, t', i);
        } else {
          DerefFollows(t, op, t', i);
        }
        AccountsAreExact(states, ops, n - 1, p);
        AccountFollows(states, ops, n - 1, p, i);
      }
    }
  }
}
