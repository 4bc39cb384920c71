/**
 * `ConversationMemory` (backend/services/memory_service.py): the session
 * store, a dictionary from session id to the session's creation time,
 * messages, metadata and appointments, written out in full after every
 * change.  The JSON file becomes a ghost field holding the last store
 * written; the clock is a parameter, its readings opaque strings.
 */
module MemoryService {
  import opened Wrappers
  import opened LlmService

  /** A stored message `{"role", "content", "timestamp"}`. */
  datatype Message = Message(role: string, content: string, timestamp: string)

  /** A metadata or appointment dictionary. */
  type Record = map<string, string>

  /** One session: `{"created_at", "messages", "metadata", "appointments"}`. */
  datatype Session = Session(createdAt: string, messages: seq<Message>, metadata: Record, appointments: seq<Record>)

  /** The whole store as `json.dump` writes it: the sessions, in insertion order. */
  datatype Store = Store(order: seq<string>, sessions: map<string, Session>)

  /** The ids in `order` are distinct and are exactly the keys of `sessions`. */
  ghost predicate WellFormed(s: Store) {
    (forall i, j :: 0 <= i < j < |s.order| ==> s.order[i] != s.order[j])
    && (forall id :: id in s.sessions <==> id in s.order)
  }

  const BookedAt := "booked_at"

  /** `after` is `before` with, at most, the session `id` added or replaced. */
  ghost predicate OnlyChanged(before: map<string, Session>, after: map<string, Session>, id: string) {
    forall k :: k != id ==> (k in after <==> k in before) && (k in after ==> after[k] == before[k])
  }

  lemma UpdateChangesOne(m: map<string, Session>, id: string, s: Session)
    ensures OnlyChanged(m, m[id := s], id)
  {
  }

  /** Writing a key twice leaves the second value. */
  lemma Overwrite(m: map<string, Session>, id: string, first: Session, second: Session)
    ensures m[id := first][id := second] == m[id := second]
  {
  }

  function NewSession(now: string): Session {
    Session(now, [], map[], [])
  }

  /** The role/content view of the messages handed to the LLM. */
  function Project(messages: seq<Message>): (h: seq<Turn>)
    ensures |h| == |messages|
    ensures forall i :: 0 <= i < |messages| ==> h[i] == Turn(messages[i].role, messages[i].content)
  {
    if messages == [] then [] else Project(messages[..|messages| - 1]) + [Turn(messages[|messages| - 1].role, messages[|messages| - 1].content)]
  }

  /** Adding a message adds its projection at the end of the history. */
  lemma ProjectAppend(messages: seq<Message>, m: Message)
    ensures Project(messages + [m]) == Project(messages) + [Turn(m.role, m.content)]
  {
    assert (messages + [m])[..|messages|] == messages;
  }

  class ConversationMemory {
    /** `self.sessions`, with the dictionary's insertion order kept in `order`. */
    var sessions: map<string, Session>
    var order: seq<string>
    /** What the store file holds: None when it is missing or unreadable. */
    ghost var persisted: Option<Store>

    function Snapshot(): Store
      reads this
    {
      Store(order, sessions)
    }

    ghost predicate Valid()
      reads this
    {
      WellFormed(Snapshot())
    }

    /** The store, as `_load_data` finds it: the file's contents, or {} when missing or unreadable. */
    constructor (onDisk: Option<Store>)
      requires onDisk.Some? ==> WellFormed(onDisk.value)
      ensures Valid()
      ensures Snapshot() == if onDisk.Some? then onDisk.value else Store([], map[])
      ensures persisted == onDisk
    {
      if onDisk.Some? {
        order := onDisk.value.order;
        sessions := onDisk.value.sessions;
      } else {
        order := [];
        sessions := map[];
      }
      persisted := onDisk;
    }

    /** `_save_data`: the whole store is written. */
    method Save()
      modifies this
      ensures sessions == old(sessions) && order == old(order)
      ensures persisted == Some(Snapshot())
    {
      persisted := Some(Snapshot());
    }

    /** `create_session`: a new id gets an empty session and the store is written; a known id changes nothing. */
    method CreateSession(id: string, now: string)
      requires Valid()
      modifies this
      ensures Valid()
      ensures OnlyChanged(old(sessions), sessions, id)
      ensures id in old(sessions) ==>
        sessions == old(sessions) && order == old(order) && persisted == old(persisted)
      ensures id !in old(sessions) ==>
        sessions == old(sessions)[id := NewSession(now)] && order == old(order) + [id]
        && persisted == Some(Snapshot())
    {
      if id !in sessions {
        sessions := sessions[id := NewSession(now)];
        order := order + [id];
        Save();
      }
    }

    /** The session `id` names, or the one a lazy `create_session` would make. */
    function SessionOrNew(id: string, now: string): Session
      reads this
    {
      if id in sessions then sessions[id] else NewSession(now)
    }

    /** The insertion order once `id` is known: new ids go last. */
    function OrderWith(id: string): seq<string>
      reads this
    {
      if id in sessions then order else order + [id]
    }

    /** Creates the session if needed, through `create_session`, which saves a new session. */
    method Ensure(id: string, now: string)
      requires Valid()
      modifies this
      ensures Valid()
      ensures sessions == old(sessions)[id := old(SessionOrNew(id, now))]
      ensures order == old(OrderWith(id))
      ensures id !in old(sessions) ==> persisted == Some(Snapshot())
      ensures id in old(sessions) ==> persisted == old(persisted)
    {
      CreateSession(id, now);
    }

    /** Puts the changed session back and writes the store. */
    method Replace(id: string, s: Session)
      requires Valid() && id in sessions
      modifies this
      ensures Valid()
      ensures sessions == old(sessions)[id := s] && order == old(order)
      ensures persisted == Some(Snapshot())
    {
      sessions := sessions[id := s];
      Save();
    }

    /** `add_message`: one message appended at the end of the session, created if absent. */
    method AddMessage(id: string, role: string, content: string, now: string)
      requires Valid()
      modifies this
      ensures Valid()
      ensures OnlyChanged(old(sessions), sessions, id)
      ensures var s := old(SessionOrNew(id, now));
        sessions == old(sessions)[id := s.(messages := s.messages + [Message(role, content, now)])]
      ensures order == old(OrderWith(id))
      ensures persisted == Some(Snapshot())
      ensures GetHistory(id) == old(GetHistory(id)) + [Turn(role, content)]
    {
      Ensure(id, now);
      var s := sessions[id];
      ProjectAppend(s.messages, Message(role, content, now));
      Replace(id, s.(messages := s.messages + [Message(role, content, now)]));
      Overwrite(old(sessions), id, s, sessions[id]);
      UpdateChangesOne(old(sessions), id, sessions[id]);
    }

    /** `get_history`: the role/content of every message, in order; nothing for an unknown id. */
    function GetHistory(id: string): (h: seq<Turn>)
      reads this
      ensures id !in sessions ==> h == []
      ensures id in sessions ==> (|h| == |sessions[id].messages|
        && forall i :: 0 <= i < |h| ==> h[i] == Turn(sessions[id].messages[i].role, sessions[id].messages[i].content))
    {
      if id in sessions then Project(sessions[id].messages) else []
    }

    /** `update_metadata`: `dict.update`, the new keys winning, the other old keys kept. */
    method UpdateMetadata(id: string, metadata: Record, now: string)
      requires Valid()
      modifies this
      ensures Valid()
      ensures OnlyChanged(old(sessions), sessions, id)
      ensures var s := old(SessionOrNew(id, now));
        sessions == old(sessions)[id := s.(metadata := s.metadata + metadata)]
      ensures order == old(OrderWith(id))
      ensures persisted == Some(Snapshot())
    {
      Ensure(id, now);
      var s := sessions[id];
      Replace(id, s.(metadata := s.metadata + metadata));
      Overwrite(old(sessions), id, s, sessions[id]);
      UpdateChangesOne(old(sessions), id, sessions[id]);
    }

    /**
     * `add_appointment`: the appointment gains `booked_at` and is appended.
     * Python writes `booked_at` into the caller's dictionary; `stamped` is
     * that dictionary after the call.
     */
    method AddAppointment(id: string, appointment: Record, now: string) returns (stamped: Record)
      requires Valid()
      modifies this
      ensures stamped == appointment[BookedAt := now]
      ensures Valid()
      ensures OnlyChanged(old(sessions), sessions, id)
      ensures var s := old(SessionOrNew(id, now));
        sessions == old(sessions)[id := s.(appointments := s.appointments + [stamped])]
      ensures order == old(OrderWith(id))
      ensures persisted == Some(Snapshot())
    {
      stamped := appointment[BookedAt := now];
      Ensure(id, now);
      var s := sessions[id];
      Replace(id, s.(appointments := s.appointments + [stamped]));
      Overwrite(old(sessions), id, s, sessions[id]);
      UpdateChangesOne(old(sessions), id, sessions[id]);
    }
  }

  /**
   * A store written and read back gives the same history: a new instance
   * opened on `onDisk`, what reading the file returns, which is the snapshot last written.
   */
  method Reload(memory: ConversationMemory, onDisk: Option<Store>, id: string) returns (reloaded: ConversationMemory)
    requires memory.Valid() && memory.persisted == Some(memory.Snapshot())
    requires onDisk == memory.persisted
    ensures reloaded.Valid() && reloaded.Snapshot() == memory.Snapshot()
    ensures reloaded.GetHistory(id) == memory.GetHistory(id)
  {
    reloaded := new ConversationMemory(onDisk);
  }

  /** `update_metadata` keeps the old keys it does not mention and takes every new value. */
  lemma MergeKeepsAndOverrides(before: Record, update: Record, key: string)
    ensures key in update ==> key in before + update && (before + update)[key] == update[key]
    ensures key !in update && key in before ==> key in before + update && (before + update)[key] == before[key]
    ensures key in before + update <==> key in before || key in update
  {
  }
}
