/** The heap side of src/session.c: the list behind `sessions`, linked through prev and next, and
    the counter n_sessions.  Each method is proved to do to the list what Session says. */
module SessionTable {
  import opened Common
  import opened Spec = Session

  class Node {
    const id: string
    var lastRequest: int
    var refs: int
    ghost const born: nat
    var prev: Node?
    var next: Node?

    /** malloc, memset and the id and first reference of session_new */
    constructor (id: string, ghost born: nat)
      ensures this.id == id && this.born == born && lastRequest == 0 && refs == 1
      ensures prev == null && next == null
    {
      this.id, this.born := id, born;
      lastRequest, refs, prev, next := 0, 1, null, null;
    }

    ghost function View(): Session
      reads this`lastRequest, this`refs
    {
      Session(id, lastRequest, refs, born)
    }
  }

  /** One draw of generate_session_id. */
  lemma {:induction false} GenerateStep(t: seq<Session>, candidates: seq<Candidate>, k: nat)
    requires k <= |candidates| && HasFresh(t, candidates[k..])
    ensures k < |candidates|
    ensures IndexOf(t, candidates[k].0) == |t| ==>
      Generate(t, candidates[k..]) == (t, candidates[k].0) && Touch(t, candidates[k].0, candidates[k].1) == t
    ensures IndexOf(t, candidates[k].0) < |t| ==>
      var touched := Touch(t, candidates[k].0, candidates[k].1);
      && HasFresh(touched, candidates[k + 1..])
      && Generate(t, candidates[k..]) == Generate(touched, candidates[k + 1..])
  {
    var f :| 0 <= f < |candidates[k..]| && IndexOf(t, candidates[k..][f].0) == |t|;
    assert candidates[k..][0] == candidates[k] && candidates[k..][1..] == candidates[k + 1..];
    if IndexOf(t, candidates[k].0) < |t| {
      IndexSame(t, Touch(t, candidates[k].0, candidates[k].1), candidates[k..][f].0);
      assert candidates[k + 1..][f - 1] == candidates[k..][f];
    }
  }

  class Sessions {
    var sessions: Node?
    var nSessions: int
    ghost var nodes: seq<Node>
    ghost var list: seq<Session>
    ghost var created: nat

    /** A walk along next visits `nodes`, a walk along prev visits them backwards, and no node is
        visited twice. */
    ghost predicate Linked()
      reads this`sessions, this`nodes, nodes`prev, nodes`next
    {
      && (forall i, j :: 0 <= i < j < |nodes| ==> nodes[i] != nodes[j])
      && (forall i, j :: 0 <= i < j < |nodes| && j == i + 1 ==> nodes[i].next == nodes[j] && nodes[j].prev == nodes[i])
      && (nodes == [] ==> sessions == null)
      && (nodes != [] ==> sessions == nodes[0] && nodes[0].prev == null && nodes[|nodes| - 1].next == null)
    }

    /** `list` is what the nodes hold. */
    ghost predicate Valid()
      reads this, nodes
    {
      && Linked()
      && nSessions == |nodes| == |list|
      && forall i :: 0 <= i < |nodes| ==> nodes[i].View() == list[i]
    }

    ghost function View(): Table
      reads this
    {
      Table(list, created)
    }

    constructor ()
      ensures Valid() && View() == EMPTY
    {
      sessions, nSessions, nodes, list, created := null, 0, [], [], 0;
    }

    /** The walk of get_session. */
    method Find(id: string) returns (session: Node?, ghost i: nat)
      requires Valid()
      ensures i == IndexOf(list, id) && session == if i < |nodes| then nodes[i] else null
    {
      session, i := sessions, 0;
      while session != null
        invariant 0 <= i <= |nodes| && session == (if i < |nodes| then nodes[i] else null)
        invariant forall k :: 0 <= k < i ==> list[k].id != id
        decreases |nodes| - i
      {
        assert session.View() == list[i];
        if session.id == id {
          break;
        }
        session, i := session.next, i + 1;
      }
    }

    method Mark(session: Node?, ghost i: nat, now: int)
      requires Valid() && i <= |nodes| && session == if i < |nodes| then nodes[i] else null
      modifies this`list, nodes`lastRequest
      ensures Valid() && list == TouchAt(old(list), i, now)
    {
      if session != null {
        session.lastRequest := now;
        list := list[i := list[i].(lastRequest := now)];
      }
    }

    /** get_session */
    method Lookup(id: string, now: int) returns (session: Node?, ghost i: nat)
      requires Valid()
      modifies this`list, nodes`lastRequest
      ensures i == IndexOf(old(list), id) && session == if i < |nodes| then nodes[i] else null
      ensures Valid() && list == TouchAt(old(list), i, now)
    {
      session, i := Find(id);
      Mark(session, i, now);
    }

    /** generate_session_id */
    method GenerateId(candidates: seq<Candidate>) returns (id: string)
      requires Valid() && HasFresh(list, candidates)
      modifies this`list, nodes`lastRequest
      ensures Valid() && (list, id) == Generate(old(list), candidates)
    {
      var k := 0;
      while true
        invariant 0 <= k <= |candidates| && Valid()
        invariant HasFresh(list, candidates[k..])
        invariant Generate(list, candidates[k..]) == Generate(old(list), candidates)
        decreases |candidates| - k
      {
        GenerateStep(list, candidates, k);
        id := candidates[k].0;
        var found;
        ghost var i;
        found, i := Lookup(id, candidates[k].1);
        if found == null {
          break;
        }
        k := k + 1;
      }
    }

    /** The loop of purge_oldest_session. */
    method FindOldest() returns (oldest: Node?, ghost v: nat)
      requires Valid()
      ensures oldest == null <==> nodes == []
      ensures oldest != null ==> IsVictim(list, v) && oldest == nodes[v]
    {
      oldest, v := null, 0;
      var p := sessions;
      ghost var k := 0;
      while p != null
        invariant 0 <= k <= |nodes| && p == (if k < |nodes| then nodes[k] else null)
        invariant if k == 0 then oldest == null else IsVictim(list[..k], v) && oldest == nodes[v]
        decreases |nodes| - k
      {
        assert p.View() == list[k] && (oldest != null ==> oldest.View() == list[v]);
        if oldest == null || (p.lastRequest < oldest.lastRequest && p.refs == 0) {
          oldest, v := p, k;
        }
        p, k := p.next, k + 1;
      }
      assert list[..k] == list;
    }

    method Unlink(oldest: Node, ghost v: nat)
      requires Linked() && v < |nodes| && nodes[v] == oldest
      modifies this`sessions, this`nodes, nodes`prev, nodes`next
      ensures Linked() && nodes == Without(old(nodes), v)
    {
      ghost var was, n := nodes, |nodes|;
      assert oldest.prev == if v == 0 then null else was[v - 1];
      assert oldest.next == if v == n - 1 then null else was[v + 1];
      if oldest.prev != null {
        oldest.prev.next := oldest.next;
      }
      if oldest.next != null {
        oldest.next.prev := oldest.prev;
      }
      if sessions == oldest {
        sessions := oldest.next;
      }
      nodes := Without(was, v);
      assert 0 < v < n - 1 ==> was[v - 1].next == was[v + 1] && was[v + 1].prev == was[v - 1];
      assert forall i, j :: 0 <= i < j < |nodes| && j == i + 1 ==>
        nodes[i].next == nodes[j] && nodes[j].prev == nodes[i];
      assert nodes != [] ==> sessions == nodes[0] && nodes[0].prev == null && nodes[|nodes| - 1].next == null;
    }

    /** The second half of purge_oldest_session */
    method Remove(oldest: Node, ghost v: nat)
      requires Valid() && v < |nodes| && nodes[v] == oldest
      modifies this`sessions, this`nSessions, this`nodes, this`list, nodes`prev, nodes`next
      ensures Valid() && nodes == Without(old(nodes), v) && list == Without(old(list), v)
    {
      Unlink(oldest, v);
      nSessions := nSessions - 1;
      list := Without(list, v);
    }

    /** purge_oldest_session: false when there is nothing to purge. */
    method PurgeOldest() returns (purged: bool, ghost v: nat)
      requires Valid()
      modifies this`sessions, this`nSessions, this`nodes, this`list, nodes`prev, nodes`next
      ensures Valid() && (purged <==> old(nodes) != [])
      ensures purged ==> IsVictim(old(list), v) && nodes == Without(old(nodes), v) && list == Without(old(list), v)
    {
      var oldest;
      oldest, v := FindOldest();
      if oldest == null {
        purged := false;
      } else {
        Remove(oldest, v);
        purged := true;
      }
    }

    method Link(session: Node)
      requires Linked() && session !in nodes && session.prev == null && session.next == null
      modifies this`sessions, this`nodes, session`next, nodes`prev
      ensures Linked() && nodes == [session] + old(nodes)
    {
      if sessions != null {
        session.next := sessions;
        sessions.prev := session;
      }
      sessions := session;
      nodes := [session] + nodes;
    }

    /** The loop at the top of session_new: from a table within its bound it purges at most once. */
    method MakeRoom() returns (ghost v: nat)
      requires Valid() && |list| <= MAX_SESSIONS
      modifies this`sessions, this`nSessions, this`nodes, this`list, nodes`prev, nodes`next
      ensures Valid() && |list| < MAX_SESSIONS
      ensures if |old(list)| < MAX_SESSIONS then list == old(list) && nodes == old(nodes)
        else IsVictim(old(list), v) && list == Without(old(list), v) && nodes == Without(old(nodes), v)
    {
      v := 0;
      while nSessions >= MAX_SESSIONS
        invariant Valid()
        invariant (list == old(list) && nodes == old(nodes))
          || (|list| < MAX_SESSIONS <= |old(list)|
              && IsVictim(old(list), v) && list == Without(old(list), v) && nodes == Without(old(nodes), v))
        decreases |list|
      {
        var purged;
        purged, v := PurgeOldest();
        if !purged {
          break;
        }
      }
    }

    method Insert(session: Node)
      requires Valid() && session !in nodes && session.prev == null && session.next == null
      modifies this, session`next, nodes`prev
      ensures Valid() && nodes == [session] + old(nodes) && list == [session.View()] + old(list)
      ensures created == old(created) + 1
    {
      Link(session);
      nSessions := nSessions + 1;
      list := [session.View()] + list;
      created := created + 1;
    }

    /** session_new, once there is room */
    method Add(candidates: seq<Candidate>) returns (session: Node)
      requires Valid() && HasFresh(list, candidates)
      modifies this, nodes
      ensures Valid() && View() == Create(old(View()), candidates)
      ensures nodes != [] && session == nodes[0]
    {
      var id := GenerateId(candidates);
      session := new Node(id, created);
      Insert(session);
    }

    /** session_new: one of the ids drawn must be free once there is room. */
    method New(candidates: seq<Candidate>) returns (session: Node)
      requires Valid() && |list| <= MAX_SESSIONS
      requires forall v, rest :: MadeRoom(list, rest, v) ==> HasFresh(rest, candidates)
      modifies this, nodes
      ensures Valid() && Next(old(View()), Op.New(candidates), View())
      ensures nodes != [] && session == nodes[0]
    {
      ghost var v := MakeRoom();
      ghost var rest := list;
      assert MadeRoom(old(list), rest, v);
      session := Add(candidates);
      assert Creates(old(View()), rest, candidates, View());
    }

    method Reference(session: Node, ghost i: nat)
      requires Valid() && i < |nodes| && session == nodes[i]
      modifies this`list, session`refs
      ensures Valid() && list == old(list)[i := old(list)[i].(refs := old(list)[i].refs + 1)]
    {
      session.refs := session.refs + 1;
      list := list[i := list[i].(refs := list[i].refs + 1)];
    }

    /** session_get */
    method Get(id: string, now: int) returns (session: Node?)
      requires Valid()
      modifies this`list, nodes`lastRequest, nodes`refs
      ensures Valid() && Next(old(View()), Op.Get(id, now), View())
      ensures session == var i := IndexOf(old(list), id); if i < |nodes| then nodes[i] else null
      ensures forall x :: x in old(nodes) && x == session ==> x.refs == old(x.refs) + 1 && x.lastRequest == now
    {
      ghost var i;
      session, i := Lookup(id, now);
      if session != null {
        Reference(session, i);
        assert View() == Requested(old(View()), i, now);
      }
    }

    /** session_deref of a session that is still in the table, or of none; a count that is zero
        goes below zero, which is outside what Session allows. */
    method Deref(session: Node?, ghost i: nat)
      requires Valid()
      requires session != null ==> i < |nodes| && session == nodes[i]
      modifies this`list, nodes`refs
      ensures Valid() && nodes == old(nodes)
      ensures View() == if session == null then old(View()) else Dereferenced(old(View()), i)
      ensures session != null && old(list)[i].refs > 0 && IndexOf(old(list), session.id) == i ==>
        Next(old(View()), Op.Deref(session.id), View())
    {
      if session == null {
        return;
      }
      assert session.View() == list[i];
      session.refs := session.refs - 1;
      list := list[i := list[i].(refs := list[i].refs - 1)];
    }
  }
}
