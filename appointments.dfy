/**
 * The appointment routes (backend/routes/appointments.py): every
 * session's appointments in one list, each tagged with its session id,
 * and the appointments of one session.
 */
module Appointments {
  import opened MemoryService
  import opened Conversation

  const SessionKey := "session_id"

  /** `{"session_id": id, **appointment}`: the appointment's own keys come second and win. */
  function Tag(id: string, appointment: Record): (r: Record)
    ensures r.Keys == appointment.Keys + {SessionKey}
    ensures forall k :: k in appointment ==> r[k] == appointment[k]
    ensures SessionKey !in appointment ==> r[SessionKey] == id
  {
    map[SessionKey := id] + appointment
  }

  /** One session's appointments, tagged, in their stored order. */
  function Tagged(id: string, appointments: seq<Record>): (r: seq<Record>)
    ensures |r| == |appointments|
    ensures forall j :: 0 <= j < |r| ==> r[j] == Tag(id, appointments[j])
  {
    if appointments == [] then []
    else Tagged(id, appointments[..|appointments| - 1]) + [Tag(id, appointments[|appointments| - 1])]
  }

  /** Every id in `order` names a session. */
  predicate Covers(order: seq<string>, sessions: map<string, Session>) {
    forall i :: 0 <= i < |order| ==> order[i] in sessions
  }

  /** The listing: the sessions in store order, each contributing its tagged appointments. */
  function Flatten(order: seq<string>, sessions: map<string, Session>): seq<Record>
    requires Covers(order, sessions)
  {
    if order == [] then []
    else
      var last := order[|order| - 1];
      Flatten(order[..|order| - 1], sessions) + Tagged(last, sessions[last].appointments)
  }

  /** The number of appointments the sessions in `order` hold. */
  function Total(order: seq<string>, sessions: map<string, Session>): nat
    requires Covers(order, sessions)
  {
    if order == [] then 0
    else Total(order[..|order| - 1], sessions) + |sessions[order[|order| - 1]].appointments|
  }

  /** `list_appointments`: the nested loops appending one tagged copy per stored appointment. */
  method ListAppointments(memory: ConversationMemory) returns (appointments: seq<Record>, count: nat)
    requires memory.Valid()
    ensures appointments == Flatten(memory.order, memory.sessions)
    ensures count == |appointments| == Total(memory.order, memory.sessions)
  {
    ghost var order := memory.order;
    CoveredByStore(memory);
    appointments := [];
    var i := 0;
    while i < |memory.order|
      invariant 0 <= i <= |order|
      invariant appointments == Flatten(order[..i], memory.sessions)
    {
      var id := memory.order[i];
      var stored := memory.sessions[id].appointments;
      FlattenStep(order, memory.sessions, i);
      ghost var listed := appointments;
      var j := 0;
      while j < |stored|
        invariant 0 <= j <= |stored|
        invariant appointments == listed + Tagged(id, stored[..j])
      {
        TaggedStep(id, stored, j);
        AppendAssoc(listed, Tagged(id, stored[..j]), [Tag(id, stored[j])]);
        appointments := appointments + [Tag(id, stored[j])];
        j := j + 1;
      }
      assert stored[..j] == stored;
      i := i + 1;
    }
    assert order[..i] == order;
    FlattenLength(order, memory.sessions);
    count := |appointments|;
  }

  lemma AppendAssoc<T>(a: seq<T>, b: seq<T>, c: seq<T>)
    ensures (a + b) + c == a + (b + c)
  {
  }

  lemma SplitAt<T>(s: seq<T>, k: nat)
    requires k <= |s|
    ensures s[..k] + s[k..] == s
  {
  }

  lemma CoveredByStore(memory: ConversationMemory)
    requires memory.Valid()
    ensures Covers(memory.order, memory.sessions)
  {
    forall i | 0 <= i < |memory.order|
      ensures memory.order[i] in memory.sessions
    {
      assert memory.order[i] in memory.order;
    }
  }

  lemma FlattenStep(order: seq<string>, sessions: map<string, Session>, i: nat)
    requires Covers(order, sessions) && i < |order|
    ensures Covers(order[..i + 1], sessions) && Covers(order[..i], sessions)
    ensures Flatten(order[..i + 1], sessions) == Flatten(order[..i], sessions) + Tagged(order[i], sessions[order[i]].appointments)
  {
    assert order[..i + 1][..i] == order[..i];
  }

  lemma TaggedStep(id: string, appointments: seq<Record>, j: nat)
    requires j < |appointments|
    ensures Tagged(id, appointments[..j + 1]) == Tagged(id, appointments[..j]) + [Tag(id, appointments[j])]
  {
    assert appointments[..j + 1][..j] == appointments[..j];
  }

  /** The list holds exactly as many entries as the sessions hold appointments. */
  lemma {:induction false} FlattenLength(order: seq<string>, sessions: map<string, Session>)
    requires Covers(order, sessions)
    ensures |Flatten(order, sessions)| == Total(order, sessions)
  {
    if order != [] {
      FlattenLength(order[..|order| - 1], sessions);
    }
  }

  /** Listing two runs of sessions lists the first run's entries, then the second's. */
  lemma {:induction false} FlattenAppend(a: seq<string>, b: seq<string>, sessions: map<string, Session>)
    requires Covers(a, sessions) && Covers(b, sessions)
    ensures Covers(a + b, sessions)
    ensures Flatten(a + b, sessions) == Flatten(a, sessions) + Flatten(b, sessions)
  {
    assert Covers(a + b, sessions) by {
      forall i | 0 <= i < |a + b| ensures (a + b)[i] in sessions {
        if i >= |a| { assert (a + b)[i] == b[i - |a|]; }
      }
    }
    if b != [] {
      var last := b[|b| - 1];
      assert (a + b)[..|a + b| - 1] == a + b[..|b| - 1];
      assert Covers(b[..|b| - 1], sessions);
      FlattenAppend(a, b[..|b| - 1], sessions);
    } else {
      assert a + b == a;
    }
  }

  /**
   * Every stored appointment is listed, tagged with its own session, at
   * the position its session and its own index give.
   */
  lemma {:induction false} EntryPosition(order: seq<string>, sessions: map<string, Session>, i: nat, j: nat)
    requires Covers(order, sessions) && i < |order| && j < |sessions[order[i]].appointments|
    ensures Covers(order[..i], sessions)
    ensures Total(order[..i], sessions) + j < |Flatten(order, sessions)|
    ensures Flatten(order, sessions)[Total(order[..i], sessions) + j] == Tag(order[i], sessions[order[i]].appointments[j])
  {
    FlattenStep(order, sessions, i);
    FlattenLength(order[..i], sessions);
    SplitAt(order, i + 1);
    assert Covers(order[i + 1..], sessions);
    FlattenAppend(order[..i + 1], order[i + 1..], sessions);
  }

  /** Conversely, every entry is some session's appointment, tagged with that session. */
  lemma {:induction false} EntryOrigin(order: seq<string>, sessions: map<string, Session>, n: nat)
    requires Covers(order, sessions) && n < |Flatten(order, sessions)|
    ensures exists i, j :: (0 <= i < |order| && 0 <= j < |sessions[order[i]].appointments|
      && Flatten(order, sessions)[n] == Tag(order[i], sessions[order[i]].appointments[j]))
  {
    var k := |order| - 1;
    var rest := Flatten(order[..k], sessions);
    if n < |rest| {
      EntryOrigin(order[..k], sessions, n);
      var i, j :| 0 <= i < k && 0 <= j < |sessions[order[..k][i]].appointments|
        && rest[n] == Tag(order[..k][i], sessions[order[..k][i]].appointments[j]);
      assert order[..k][i] == order[i];
    } else {
      var j := n - |rest|;
      assert Flatten(order, sessions)[n] == Tag(order[k], sessions[order[k]].appointments[j]);
    }
  }

  /** `sessions` after `add_appointment` on the known session `id`. */
  function Booked(sessions: map<string, Session>, id: string, appointment: Record): map<string, Session>
    requires id in sessions
  {
    sessions[id := sessions[id].(appointments := sessions[id].appointments + [appointment])]
  }

  /** One more stored appointment lists exactly one more entry, when its session is in the order once. */
  lemma {:induction false} BookingListsOneMore(order: seq<string>, sessions: map<string, Session>, id: string, appointment: Record)
    requires Covers(order, sessions) && id in sessions
    requires forall i, j :: 0 <= i < j < |order| ==> order[i] != order[j]
    ensures Covers(order, Booked(sessions, id, appointment))
    ensures Total(order, Booked(sessions, id, appointment)) == Total(order, sessions) + (if id in order then 1 else 0)
  {
    var booked := Booked(sessions, id, appointment);
    assert Covers(order, booked);
    if order != [] {
      var k := |order| - 1;
      assert Covers(order[..k], sessions);
      BookingListsOneMore(order[..k], sessions, id, appointment);
      assert id in order <==> id in order[..k] || order[k] == id;
      if order[k] == id {
        assert id !in order[..k];
      }
    }
  }

  /** `get_session_appointments`: the stored list, untagged, or not found for an unknown id. */
  function GetSessionAppointments(memory: ConversationMemory, id: string): (r: Lookup<seq<Record>>)
    reads memory
    ensures r.Found? <==> id in memory.sessions
    ensures r.Found? ==> r.value == memory.sessions[id].appointments
  {
    if id !in memory.sessions then NotFound else Found(memory.sessions[id].appointments)
  }
}
