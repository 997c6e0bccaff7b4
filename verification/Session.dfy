/** The session table of src/session.c.  Every exported function holds session_mutex throughout,
    so each is one atomic operation on the table.  The clock and the random numbers are inputs. */
module Session {
  import opened Common

  const MAX_SESSIONS: nat := 10000

  /** `born` numbers the sessions in the order they were created. */
  datatype Session = Session(id: string, lastRequest: int, refs: int, born: nat)

  /** The list, newest session first, and how many sessions have ever been created. */
  datatype Table = Table(list: seq<Session>, created: nat)

  const EMPTY := Table([], 0)

  // ---------------------------------------------------------------- specification

  function IndexOf(t: seq<Session>, id: string): (i: nat)
    ensures i <= |t|
    ensures i < |t| ==> t[i].id == id
    ensures forall k :: 0 <= k < i ==> t[k].id != id
  {
    if t == [] || t[0].id == id then 0 else 1 + IndexOf(t[1..], id)
  }

  function TouchAt(t: seq<Session>, i: nat, now: int): seq<Session>
    requires i <= |t|
  {
    if i < |t| then t[i := t[i].(lastRequest := now)] else t
  }

  /** get_session marks the session it finds as just requested. */
  function Touch(t: seq<Session>, id: string, now: int): seq<Session> {
    TouchAt(t, IndexOf(t, id), now)
  }

  /** A random id and the time at which it is looked up. */
  type Candidate = (string, int)

  predicate HasFresh(t: seq<Session>, candidates: seq<Candidate>) {
    exists k :: 0 <= k < |candidates| && IndexOf(t, candidates[k].0) == |t|
  }

  /** generate_session_id draws until the id is free; every session it collides with on the way
      is touched. */
  function Generate(t: seq<Session>, candidates: seq<Candidate>): (seq<Session>, string)
    decreases |candidates|
  {
    if candidates == [] then (t, "")
    else if IndexOf(t, candidates[0].0) == |t| then (t, candidates[0].0)
    else Generate(Touch(t, candidates[0].0, candidates[0].1), candidates[1..])
  }

  /** The session that purge_oldest_session frees: the head, unless some unreferenced session
      behind it was requested strictly earlier; then the earliest requested of those, and of
      several the one nearest to the head. */
  predicate IsVictim(t: seq<Session>, v: nat) {
    && v < |t|
    && (v > 0 ==> t[v].refs == 0 && t[v].lastRequest < t[0].lastRequest)
    && (forall p :: 0 < p < |t| && t[p].refs == 0 ==>
          if p < v then t[v].lastRequest < t[p].lastRequest else t[v].lastRequest <= t[p].lastRequest)
  }

  datatype Op =
    | New(candidates: seq<Candidate>)
    | Get(id: string, now: int)
    | Deref(id: string)

  /** session_deref needs a reference that is held. */
  predicate Allowed(t: Table, op: Op) {
    op.Deref? ==> var i := IndexOf(t.list, op.id); i < |t.list| && t.list[i].refs > 0
  }

  function Create(t: Table, candidates: seq<Candidate>): Table {
    var (list, id) := Generate(t.list, candidates);
    Table([Session(id, 0, 1, t.created)] + list, t.created + 1)
  }

  /** session_get, of the session at `i` */
  function Requested(t: Table, i: nat, now: int): Table
    requires i <= |t.list|
  {
    if i == |t.list| then t
    else t.(list := t.list[i := t.list[i].(lastRequest := now, refs := t.list[i].refs + 1)])
  }

  /** session_deref, of the session at `i` */
  function Dereferenced(t: Table, i: nat): Table
    requires i < |t.list|
  {
    t.(list := t.list[i := t.list[i].(refs := t.list[i].refs - 1)])
  }

  /** The table in which session_new draws an id: a full one has lost the one session that IsVictim
      allows. */
  predicate MadeRoom(t: seq<Session>, rest: seq<Session>, v: nat) {
    if |t| < MAX_SESSIONS then rest == t else IsVictim(t, v) && rest == Without(t, v)
  }

  /** Creation from a table with room, in which one of the ids drawn must be free. */
  predicate Creates(t: Table, rest: seq<Session>, candidates: seq<Candidate>, t': Table) {
    HasFresh(rest, candidates) && t' == Create(t.(list := rest), candidates)
  }

  ghost predicate Next(t: Table, op: Op, t': Table) {
    && Allowed(t, op)
    && match op
       case New(candidates) => exists v, rest :: MadeRoom(t.list, rest, v) && Creates(t, rest, candidates, t')
       case Get(id, now) => t' == Requested(t, IndexOf(t.list, id), now)
       case Deref(id) => t' == Dereferenced(t, IndexOf(t.list, id))
  }

  // ---------------------------------------------------------------- eviction

  lemma VictimUnique(t: seq<Session>, v: nat, w: nat)
    requires IsVictim(t, v) && IsVictim(t, w)
    ensures v == w
  {
    assert v != 0 ==> t[v].refs == 0;
    assert w != 0 ==> t[w].refs == 0;
  }

  /** The victim was requested no later than any unreferenced session, and is unreferenced itself
      unless it is the head; when the head is unreferenced, it is a least recently used one. */
  lemma VictimIsOldest(t: seq<Session>, v: nat)
    requires IsVictim(t, v)
    ensures forall p :: 0 <= p < |t| && t[p].refs == 0 ==> t[v].lastRequest <= t[p].lastRequest
    ensures t[v].refs == 0 || v == 0
    ensures t[0].refs == 0 ==> t[v].refs == 0
  {
  }

  /** Of several unreferenced sessions last requested when the victim was, the newest is the victim. */
  lemma VictimIsFirst(t: seq<Session>, v: nat, p: nat)
    requires IsVictim(t, v) && p < |t| && t[p].refs == 0 && t[p].lastRequest == t[v].lastRequest
    ensures v <= p
  {
  }

  /** session.h promises that a referenced session is not deleted.  It is, exactly when the newest
      session is referenced and no unreferenced session was requested before it. */
  lemma VictimReferenced(t: seq<Session>, v: nat)
    requires IsVictim(t, v)
    ensures t[v].refs != 0 <==>
      t[0].refs != 0 && forall p :: 0 <= p < |t| && t[p].refs == 0 ==> t[0].lastRequest <= t[p].lastRequest
  {
    assert v != 0 ==> t[v].refs == 0;
  }

  /** session_new leaves the last request at zero, so a head that has not been requested yet is the
      victim, referenced or not, however many unreferenced sessions there are. */
  lemma NewestIsVictim(t: seq<Session>, v: nat)
    requires t != [] && t[0].lastRequest == 0 && forall p :: 0 <= p < |t| ==> t[p].lastRequest >= 0
    ensures IsVictim(t, v) <==> v == 0
  {
    if IsVictim(t, v) {
      assert IsVictim(t, 0);
      VictimUnique(t, v, 0);
    }
  }

  /** The branch for "all sessions in use" is dead: every non-empty list has a victim. */
  lemma {:induction false} VictimExists(t: seq<Session>) returns (v: nat)
    requires t != []
    ensures IsVictim(t, v)
    decreases |t|
  {
    var n := |t| - 1;
    if n == 0 {
      v := 0;
    } else {
      v := VictimExists(t[..n]);
      if t[n].lastRequest < t[v].lastRequest && t[n].refs == 0 {
        v := n;
      }
    }
  }

  // ---------------------------------------------------------------- all runs

  ghost predicate Invariant(t: Table) {
    && |t.list| <= MAX_SESSIONS
    && (forall i, j :: 0 <= i < j < |t.list| ==> t.list[i].id != t.list[j].id)
    && (forall i, j :: 0 <= i < j < |t.list| ==> t.list[i].born > t.list[j].born)
    && (forall i :: 0 <= i < |t.list| ==> t.list[i].refs >= 0 && t.list[i].born < t.created)
  }

  /** Two lists of the same sessions that may differ in when these were last requested. */
  predicate SameButTouched(t: seq<Session>, t': seq<Session>) {
    && |t| == |t'|
    && forall i :: 0 <= i < |t| ==> t'[i] == t[i].(lastRequest := t'[i].lastRequest)
  }

  lemma {:induction false} IndexSame(t: seq<Session>, t': seq<Session>, id: string)
    requires SameButTouched(t, t')
    ensures IndexOf(t, id) == IndexOf(t', id)
  {
    assert forall k :: 0 <= k < |t| ==> t'[k].id == t[k].id;
  }

  lemma {:induction false} GenerateFresh(t: seq<Session>, candidates: seq<Candidate>)
    requires HasFresh(t, candidates)
    ensures var (t', id) := Generate(t, candidates);
      SameButTouched(t, t') && IndexOf(t', id) == |t'|
    decreases |candidates|
  {
    var k :| 0 <= k < |candidates| && IndexOf(t, candidates[k].0) == |t|;
    if IndexOf(t, candidates[0].0) < |t| {
      var touched := Touch(t, candidates[0].0, candidates[0].1);
      IndexSame(t, touched, candidates[k].0);
      assert candidates[1..][k - 1] == candidates[k];
      GenerateFresh(touched, candidates[1..]);
    }
  }

  lemma CreateInvariant(t: Table, candidates: seq<Candidate>)
    requires Invariant(t) && |t.list| < MAX_SESSIONS && HasFresh(t.list, candidates)
    ensures Invariant(Create(t, candidates))
  {
    GenerateFresh(t.list, candidates);
  }

  lemma WithoutInvariant(t: Table, v: nat)
    requires Invariant(t) && v < |t.list|
    ensures Invariant(t.(list := Without(t.list, v)))
  {
  }

  lemma InvariantStep(t: Table, op: Op, t': Table)
    requires Invariant(t) && Next(t, op, t')
    ensures Invariant(t')
  {
    if op.New? {
      var v, rest :| MadeRoom(t.list, rest, v) && Creates(t, rest, op.candidates, t');
      if |t.list| == MAX_SESSIONS {
        WithoutInvariant(t, v);
      }
      CreateInvariant(t.(list := rest), op.candidates);
    }
  }

  /** A run of the table: its states, and the operation between each and the next. */
  ghost predicate IsRun(states: seq<Table>, ops: seq<Op>) {
    && |states| == |ops| + 1
    && states[0] == EMPTY
    && forall k :: 0 <= k < |ops| ==> Next(states[k], ops[k], states[k + 1])
  }

  lemma {:induction false} InvariantRun(states: seq<Table>, ops: seq<Op>, k: nat)
    requires IsRun(states, ops) && k < |states|
    ensures Invariant(states[k])
    decreases k
  {
    if k > 0 {
      InvariantRun(states, ops, k - 1);
      InvariantStep(states[k - 1], ops[k - 1], states[k]);
    }
  }

  /** In any run from the empty table: ids stay distinct and the table within its bound, creating
      a session never fails, and it costs another session only when the table is full.  That one
      is unreferenced, or it is the most recently created of the sessions still alive; and no
      unreferenced session was requested before it. */
  lemma EvictionInRun(states: seq<Table>, ops: seq<Op>, k: nat)
    requires IsRun(states, ops) && k < |ops| && ops[k].New?
    ensures var t, t' := states[k].list, states[k + 1].list;
      && t' != [] && t'[0].refs == 1 && t'[0].born == states[k].created
      && |t'| <= MAX_SESSIONS && (forall p :: 0 < p < |t'| ==> t'[p].id != t'[0].id)
      && (|t| < MAX_SESSIONS ==> SameButTouched(t, t'[1..]))
      && (|t| == MAX_SESSIONS ==> exists v ::
            && 0 <= v < |t| && SameButTouched(Without(t, v), t'[1..])
            && (t[v].refs == 0 || forall p :: 0 <= p < |t| && p != v ==> t[p].born < t[v].born)
            && forall p :: 0 <= p < |t| && t[p].refs == 0 ==> t[v].lastRequest <= t[p].lastRequest)
  {
    InvariantRun(states, ops, k);
    InvariantRun(states, ops, k + 1);
    var t, candidates := states[k], ops[k].candidates;
    var v, rest :| MadeRoom(t.list, rest, v) && Creates(t, rest, candidates, states[k + 1]);
    GenerateFresh(rest, candidates);
    if |t.list| == MAX_SESSIONS {
      VictimIsOldest(t.list, v);
    }
  }

  // ---------------------------------------------------------------- losing a new session

  /** Times are not negative. */
  predicate Timed(op: Op) {
    match op
    case New(candidates) => forall k :: 0 <= k < |candidates| ==> candidates[k].1 >= 0
    case Get(_, now) => now >= 0
    case Deref(_) => true
  }

  predicate NonNegative(t: seq<Session>) {
    forall i :: 0 <= i < |t| ==> t[i].lastRequest >= 0
  }

  lemma {:induction false} GenerateNonNegative(t: seq<Session>, candidates: seq<Candidate>)
    requires NonNegative(t) && Timed(New(candidates))
    ensures NonNegative(Generate(t, candidates).0)
    decreases |candidates|
  {
    if candidates != [] && IndexOf(t, candidates[0].0) < |t| {
      GenerateNonNegative(Touch(t, candidates[0].0, candidates[0].1), candidates[1..]);
    }
  }

  lemma NonNegativeStep(t: Table, op: Op, t': Table)
    requires NonNegative(t.list) && Timed(op) && Next(t, op, t')
    ensures NonNegative(t'.list)
  {
    if op.New? {
      var v, rest :| MadeRoom(t.list, rest, v) && Creates(t, rest, op.candidates, t');
      GenerateNonNegative(rest, op.candidates);
    }
  }

  lemma {:induction false} NonNegativeRun(states: seq<Table>, ops: seq<Op>, k: nat)
    requires IsRun(states, ops) && k < |states| && forall i :: 0 <= i < |ops| ==> Timed(ops[i])
    ensures NonNegative(states[k].list)
    decreases k
  {
    if k > 0 {
      NonNegativeRun(states, ops, k - 1);
      NonNegativeStep(states[k - 1], ops[k - 1], states[k]);
    }
  }

  lemma CreateKeeps(t: Table, candidates: seq<Candidate>)
    requires HasFresh(t.list, candidates)
    ensures var t' := Create(t, candidates).list;
      && SameButTouched(t.list, t'[1..])
      && t'[0].refs == 1 && t'[0].lastRequest == 0 && t'[0].born == t.created
  {
    GenerateFresh(t.list, candidates);
  }

  lemma NewestCreated(t: Table, op: Op, t': Table)
    requires op.New? && Next(t, op, t')
    ensures t'.list != [] && t'.list[0].lastRequest == 0 && t'.list[0].refs == 1
  {
  }

  lemma CostsNewest(t: Table, op: Op, t': Table)
    requires op.New? && Next(t, op, t') && |t.list| == MAX_SESSIONS
    requires NonNegative(t.list) && t.list[0].lastRequest == 0
    ensures t' == Create(t.(list := t.list[1..]), op.candidates) && HasFresh(t.list[1..], op.candidates)
  {
    var v, rest :| MadeRoom(t.list, rest, v) && Creates(t, rest, op.candidates, t');
    NewestIsVictim(t.list, v);
    assert Without(t.list, 0) == t.list[1..];
  }

  lemma NewestGone(t: Table, candidates: seq<Candidate>)
    requires Invariant(t) && t.list != [] && HasFresh(t.list[1..], candidates)
    ensures var t' := Create(t.(list := t.list[1..]), candidates).list;
      SameButTouched(t.list[1..], t'[1..]) && forall p :: 0 <= p < |t'| ==> t'[p].born != t.list[0].born
  {
    var t' := Create(t.(list := t.list[1..]), candidates).list;
    CreateKeeps(t.(list := t.list[1..]), candidates);
    forall p | 0 < p < |t'|
      ensures t'[p].born != t.list[0].born
    {
      assert t'[p] == t'[1..][p - 1] && t'[p].born == t.list[1..][p - 1].born == t.list[p].born;
    }
  }

  /** Whenever two sessions are created on a full table with no request between, the second costs
      the first, although its creator still holds it. */
  lemma SecondCostsFirst(states: seq<Table>, ops: seq<Op>, k: nat)
    requires IsRun(states, ops) && k + 1 < |ops| && forall i :: 0 <= i < |ops| ==> Timed(ops[i])
    requires ops[k].New? && ops[k + 1].New? && |states[k + 1].list| == MAX_SESSIONS
    ensures var t, t' := states[k + 1].list, states[k + 2].list;
      && t[0].refs == 1
      && SameButTouched(t[1..], t'[1..])
      && forall p :: 0 <= p < |t'| ==> t'[p].born != t[0].born
  {
    NonNegativeRun(states, ops, k + 1);
    InvariantRun(states, ops, k + 1);
    NewestCreated(states[k], ops[k], states[k + 1]);
    CostsNewest(states[k + 1], ops[k + 1], states[k + 2]);
    NewestGone(states[k + 1], ops[k + 1].candidates);
  }

  // ---------------------------------------------------------------- a run in which it happens

  function HexDigit(d: nat): (c: char)
    requires d < 16
    ensures HexValue(c) == d
  {
    if d < 10 then '0' + d as char else 'a' + (d - 10) as char
  }

  function HexValue(c: char): nat {
    if '0' <= c <= '9' then (c - '0') as nat else if 'a' <= c <= 'f' then (c - 'a') as nat + 10 else 0
  }

  /** The number that a hexadecimal text stands for. */
  function Number(id: string): nat {
    if id == "" then 0 else 16 * Number(id[..|id| - 1]) + HexValue(id[|id| - 1])
  }

  /** The `n`-th id drawn, in hexadecimal. */
  function Id(n: nat): (id: string)
    ensures Number(id) == n
  {
    if n < 16 then
      assert [HexDigit(n)][..0] == "";
      [HexDigit(n)]
    else
      var front := Id(n / 16);
      assert (front + [HexDigit(n % 16)])[..|front|] == front;
      front + [HexDigit(n % 16)]
  }

  /** `n` sessions, none requested, of which only the newest is referenced. */
  function Crowd(n: nat): (t: Table)
    ensures |t.list| == n && forall i :: 0 <= i < n ==> Number(t.list[i].id) == n - 1 - i
  {
    Table(seq(n, i requires 0 <= i < n => Session(Id(n - 1 - i), 0, if i == 0 then 1 else 0, n - 1 - i)), n)
  }

  /** The newest has been released as well. */
  function Idle(n: nat): (t: Table)
    ensures |t.list| == n && forall i :: 0 <= i < n ==> Number(t.list[i].id) == n - 1 - i
  {
    Table(seq(n, i requires 0 <= i < n => Session(Id(n - 1 - i), 0, 0, n - 1 - i)), n)
  }

  lemma {:induction false} ReleasesNewest(n: nat)
    requires n > 0
    ensures Next(Crowd(n), Deref(Id(n - 1)), Idle(n))
  {
    var t := Crowd(n);
    assert IndexOf(t.list, Id(n - 1)) == 0;
    assert Dereferenced(t, 0).list == Idle(n).list;
  }

  lemma {:induction false} NextIdFree(t: seq<Session>, n: nat)
    requires forall i :: 0 <= i < |t| ==> Number(t[i].id) < n
    ensures IndexOf(t, Id(n)) == |t|
    ensures HasFresh(t, [(Id(n), 0)]) && Generate(t, [(Id(n), 0)]) == (t, Id(n))
  {
    assert [(Id(n), 0)][0].0 == Id(n);
  }

  lemma {:induction false} CrowdGrows(n: nat)
    ensures Crowd(n + 1) == Table([Session(Id(n), 0, 1, n)] + Idle(n).list, n + 1)
  {
    var list := [Session(Id(n), 0, 1, n)] + Idle(n).list;
    forall i | 0 <= i < n + 1
      ensures Crowd(n + 1).list[i] == list[i]
    {
      if i > 0 {
        assert list[i] == Idle(n).list[i - 1] == Session(Id(n - i), 0, 0, n - i);
      }
    }
    assert Crowd(n + 1).list == list;
  }

  lemma {:induction false} CreatesOneMore(n: nat)
    requires n < MAX_SESSIONS
    ensures Next(Idle(n), New([(Id(n), 0)]), Crowd(n + 1))
  {
    var t := Idle(n);
    NextIdFree(t.list, n);
    CrowdGrows(n);
    assert MadeRoom(t.list, t.list, 0) && Creates(t, t.list, [(Id(n), 0)], Crowd(n + 1));
  }

  lemma RunThen(states: seq<Table>, ops: seq<Op>, op: Op, t: Table)
    requires IsRun(states, ops) && Next(states[|ops|], op, t)
    ensures IsRun(states + [t], ops + [op])
  {
  }

  lemma {:induction false} ReachCrowd(n: nat) returns (states: seq<Table>, ops: seq<Op>)
    requires 0 < n <= MAX_SESSIONS
    ensures IsRun(states, ops) && states[|ops|] == Crowd(n)
  {
    if n == 1 {
      states, ops := [EMPTY], [];
      assert EMPTY == Idle(0);
    } else {
      states, ops := ReachCrowd(n - 1);
      ReleasesNewest(n - 1);
      RunThen(states, ops, Deref(Id(n - 2)), Idle(n - 1));
      states, ops := states + [Idle(n - 1)], ops + [Deref(Id(n - 2))];
    }
    CreatesOneMore(n - 1);
    RunThen(states, ops, New([(Id(n - 1), 0)]), Crowd(n));
    states, ops := states + [Crowd(n)], ops + [New([(Id(n - 1), 0)])];
  }

  /** A run in which a referenced session is freed: the table is full, its newest session is the
      only one referenced, and creating one more evicts just that one. */
  lemma ReferencedEvicted() returns (states: seq<Table>, ops: seq<Op>)
    ensures IsRun(states, ops) && |ops| > 0 && ops[|ops| - 1].New?
    ensures var t, t' := states[|ops| - 1].list, states[|ops|].list;
      && |t| == MAX_SESSIONS
      && t[0].refs == 1 && (forall p :: 0 < p < |t| ==> t[p].refs == 0)
      && t'[1..] == t[1..] && (forall p :: 0 <= p < |t'| ==> t'[p].id != t[0].id)
  {
    var n := MAX_SESSIONS;
    states, ops := ReachCrowd(n);
    EvictsNewest(n);
    forall p | 0 <= p < |EvictedCrowd(n).list| { EvictedIdGone(n, p); }
    var t := EvictedCrowd(n);
    RunThen(states, ops, New([(Id(n), 0)]), t);
    states, ops := states + [t], ops + [New([(Id(n), 0)])];
  }

  function EvictedCrowd(n: nat): Table
    requires n > 0
  {
    Table([Session(Id(n), 0, 1, n)] + Crowd(n).list[1..], n + 1)
  }

  lemma {:induction false} EvictsNewest(n: nat)
    requires n == MAX_SESSIONS
    ensures Next(Crowd(n), New([(Id(n), 0)]), EvictedCrowd(n))
  {
    var t := Crowd(n);
    var rest := Without(t.list, 0);
    NewestIsVictim(t.list, 0);
    EvictedIsCreated(n);
    assert MadeRoom(t.list, rest, 0) && Creates(t, rest, [(Id(n), 0)], EvictedCrowd(n));
  }

  lemma {:induction false} EvictedIsCreated(n: nat)
    requires n > 0
    ensures var rest := Without(Crowd(n).list, 0); Creates(Crowd(n), rest, [(Id(n), 0)], EvictedCrowd(n))
  {
    var rest := Without(Crowd(n).list, 0);
    assert rest == Crowd(n).list[1..];
    NextIdFree(rest, n);
  }

  lemma EvictedIdGone(n: nat, p: nat)
    requires n > 0 && p < |EvictedCrowd(n).list|
    ensures EvictedCrowd(n).list[p].id != Crowd(n).list[0].id
  {
    assert p > 0 ==> EvictedCrowd(n).list[p] == Crowd(n).list[p];
  }
}
