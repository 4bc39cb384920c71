/**
 * The conversation routes (backend/routes/conversation.py): one spoken
 * turn, the greeting and the history lookup, over one shared
 * `ConversationMemory`.  Speech-to-text, the LLM, text-to-speech and the
 * random session id are parameters; the confirmation email is returned as
 * the message that would be sent, since its result never changes the turn.
 */
module Conversation {
  import opened Wrappers
  import opened LlmService
  import opened MemoryService

  const Greeting := "Hello! I'm Sarah, the AI receptionist at SmileCare Dental. How may I help you today?"
  const AudioRoute := "/api/conversation/audio/"

  /** What a route hands back: its JSON body, or HTTP 500 once an exception escapes. */
  datatype Outcome<T> = Ok(value: T) | ServerError

  /** A lookup by session id: the value, or HTTP 404 "Session not found". */
  datatype Lookup<T> = Found(value: T) | NotFound

  /** The body of a completed turn. */
  datatype TurnResult = TurnResult(
    sessionId: string, userText: string, assistantText: string,
    intent: string, metadata: Option<Record>, audioUrl: string)

  /** The body of a greeting. */
  datatype GreetingResult = GreetingResult(sessionId: string, text: string, audioUrl: string)

  /** `if not session_id: session_id = str(uuid.uuid4())`: a missing or empty id is replaced. */
  function ChooseId(requested: Option<string>, freshId: string): (id: string)
    ensures id == freshId || requested == Some(id)
    ensures freshId != [] ==> id != []
    ensures requested.Some? && requested.value != [] ==> id == requested.value
  {
    if requested.None? || requested.value == [] then freshId else requested.value
  }

  /** The URL under which the synthesized audio file is served. */
  function AudioUrl(fileName: string): string {
    AudioRoute + fileName
  }

  /** The reply the LLM gives for `userText`, seeing the stored history followed by that utterance. */
  function TurnReply(history: seq<Turn>, userText: string, model: string -> Option<string>): LlmReply {
    Respond(model(Prompt(userText, history + [Turn("user", userText)])))
  }

  /**
   * The history the LLM sees already ends with the utterance, so the
   * context block's last line carries it, and the prompt's final
   * `Patient:` line repeats it.
   */
  lemma ContextEndsWithUtterance(history: seq<Turn>, userText: string) returns (earlier: string)
    ensures Context(history + [Turn("user", userText)]) == "Previous conversation:\n" + earlier + Line(Turn("user", userText)) + "\n"
  {
    var h := history + [Turn("user", userText)];
    var r := Recent(h);
    earlier := Lines(r[..|r| - 1]);
    LastLine(r, Turn("user", userText));
    assert Context(h) == "Previous conversation:\n" + Lines(r) + "\n";
    AppendMiddle("Previous conversation:\n", earlier, Line(Turn("user", userText)), "\n");
  }

  lemma LastLine(r: seq<Turn>, t: Turn)
    requires r != [] && r[|r| - 1] == t
    ensures Lines(r) == Lines(r[..|r| - 1]) + Line(t)
  {
  }

  lemma AppendMiddle(a: string, b: string, c: string, d: string)
    ensures a + (b + c) + d == a + b + c + d
  {
  }

  /** The line of a user turn. */
  lemma UserLine(userText: string)
    ensures Line(Turn("user", userText)) == "Patient: " + userText + "\n"
  {
  }

  /** The guard of the booking step: `intent == "book_appointment" and metadata` (an empty dict is falsy). */
  predicate Books(reply: LlmReply) {
    reply.intent == BookAppointment && reply.metadata.Some? && reply.metadata.value != map[]
  }

  /** `after` is `before` with the two messages of a turn and, when booked, the merge and the stamped appointment. */
  predicate AfterTurn(before: Session, after: Session, userText: string, reply: LlmReply, now: string) {
    after.createdAt == before.createdAt
    && after.messages == before.messages + [Message("user", userText, now), Message("assistant", reply.response, now)]
    && (if Books(reply) then
          after.metadata == before.metadata + reply.metadata.value
          && after.appointments == before.appointments + [reply.metadata.value[BookedAt := now]]
        else
          after.metadata == before.metadata && after.appointments == before.appointments)
  }

  /** Changing the sessions twice, each time at most at `id`, changes at most `id`. */
  lemma OnlyChangedTwice(a: map<string, Session>, b: map<string, Session>, c: map<string, Session>, id: string)
    requires OnlyChanged(a, b, id) && OnlyChanged(b, c, id)
    ensures OnlyChanged(a, c, id)
  {
  }

  /** Two appends are one append of both. */
  lemma AppendTwo<T>(a: seq<T>, x: T, y: T)
    ensures (a + [x]) + [y] == a + [x, y]
  {
  }

  /**
   * The first half of the store calls of `process_voice`: the user message,
   * the history, the LLM and the assistant message.
   */
  method Exchange(memory: ConversationMemory, id: string, userText: string, model: string -> Option<string>, now: string)
    returns (reply: LlmReply)
    requires memory.Valid()
    modifies memory
    ensures reply == TurnReply(old(memory.GetHistory(id)), userText, model)
    ensures memory.Valid()
    ensures var s := old(memory.SessionOrNew(id, now));
      memory.sessions == old(memory.sessions)[id := s.(messages := s.messages + [Message("user", userText, now), Message("assistant", reply.response, now)])]
    ensures memory.order == old(memory.OrderWith(id))
    ensures memory.persisted == Some(memory.Snapshot())
    ensures memory.GetHistory(id) == old(memory.GetHistory(id)) + [Turn("user", userText), Turn("assistant", reply.response)]
  {
    ghost var s0 := memory.SessionOrNew(id, now);
    ghost var m0 := memory.sessions;
    ghost var h0 := memory.GetHistory(id);
    memory.AddMessage(id, "user", userText, now);
    ghost var s1 := memory.sessions[id];
    var history := memory.GetHistory(id);
    reply := GetResponse(userText, history, model);
    memory.AddMessage(id, "assistant", reply.response, now);
    AppendTwo(s0.messages, Message("user", userText, now), Message("assistant", reply.response, now));
    AppendTwo(h0, Turn("user", userText), Turn("assistant", reply.response));
    Overwrite(m0, id, s1, memory.sessions[id]);
  }

  /** The booking step of `process_voice`: the metadata merge, then the stamped appointment. */
  method Book(memory: ConversationMemory, id: string, metadata: Record, now: string)
    returns (stamped: Record)
    requires memory.Valid() && id in memory.sessions
    modifies memory
    ensures stamped == metadata[BookedAt := now]
    ensures memory.Valid()
    ensures var s := old(memory.sessions[id]);
      memory.sessions == old(memory.sessions)[id := s.(metadata := s.metadata + metadata, appointments := s.appointments + [stamped])]
    ensures memory.order == old(memory.order)
    ensures memory.persisted == Some(memory.Snapshot())
  {
    ghost var m0 := memory.sessions;
    memory.UpdateMetadata(id, metadata, now);
    ghost var s1 := memory.sessions[id];
    stamped := memory.AddAppointment(id, metadata, now);
    Overwrite(m0, id, s1, memory.sessions[id]);
  }

  /**
   * The store calls of `process_voice` for one transcribed utterance: the
   * user message, the history, the LLM, the assistant message and, if the
   * reply books, the metadata merge and the appointment.  `stamped` is the
   * metadata dictionary after `add_appointment` wrote `booked_at` into it.
   */
  method Converse(memory: ConversationMemory, id: string, userText: string, model: string -> Option<string>, now: string)
    returns (reply: LlmReply, stamped: Option<Record>)
    requires memory.Valid()
    modifies memory
    ensures reply == TurnReply(old(memory.GetHistory(id)), userText, model)
    ensures stamped == if Books(reply) then Some(reply.metadata.value[BookedAt := now]) else None
    ensures memory.Valid()
    ensures id in memory.sessions
    ensures AfterTurn(old(memory.SessionOrNew(id, now)), memory.sessions[id], userText, reply, now)
    ensures OnlyChanged(old(memory.sessions), memory.sessions, id)
    ensures memory.order == old(memory.OrderWith(id))
    ensures memory.persisted == Some(memory.Snapshot())
    ensures memory.GetHistory(id) == old(memory.GetHistory(id)) + [Turn("user", userText), Turn("assistant", reply.response)]
  {
    ghost var m0 := memory.sessions;
    reply := Exchange(memory, id, userText, model, now);
    ghost var s1 := memory.sessions[id];
    ghost var h1 := memory.GetHistory(id);
    if reply.intent == BookAppointment && reply.metadata.Some? && reply.metadata.value != map[] {
      var appointment := Book(memory, id, reply.metadata.value, now);
      Overwrite(m0, id, s1, memory.sessions[id]);
      assert memory.GetHistory(id) == h1;
      stamped := Some(appointment);
    } else {
      stamped := None;
    }
    UpdateChangesOne(m0, id, memory.sessions[id]);
  }

  /**
   * `process_voice`: a failed transcription changes nothing; otherwise the
   * store calls of `Converse` happen, the confirmation goes to the booked
   * email address if there is one, and only then can speech synthesis fail.
   */
  method ProcessVoice(memory: ConversationMemory, requested: Option<string>, freshId: string,
                      transcript: Option<string>, model: string -> Option<string>,
                      tts: string -> Option<string>, now: string)
    returns (out: Outcome<TurnResult>, mail: Option<(string, Record)>)
    requires memory.Valid()
    modifies memory
    ensures memory.Valid()
    ensures transcript.None? ==>
      out == ServerError && mail == None
      && memory.sessions == old(memory.sessions) && memory.order == old(memory.order)
      && memory.persisted == old(memory.persisted)
    ensures transcript.Some? ==>
      var id := ChooseId(requested, freshId);
      var reply := TurnReply(old(memory.GetHistory(id)), transcript.value, model);
      id in memory.sessions
      && AfterTurn(old(memory.SessionOrNew(id, now)), memory.sessions[id], transcript.value, reply, now)
      && OnlyChanged(old(memory.sessions), memory.sessions, id)
      && memory.order == old(memory.OrderWith(id))
      && memory.persisted == Some(memory.Snapshot())
    ensures transcript.Some? ==>
      var id := ChooseId(requested, freshId);
      var reply := TurnReply(old(memory.GetHistory(id)), transcript.value, model);
      var metadata := if Books(reply) then Some(reply.metadata.value[BookedAt := now]) else reply.metadata;
      (out.Ok? <==> tts(reply.response).Some?)
      && (out.Ok? ==> out.value == TurnResult(id, transcript.value, reply.response, IntentName(reply.intent),
                                              metadata, AudioUrl(tts(reply.response).value)))
      && mail == if Books(reply) && "email" in metadata.value then Some((metadata.value["email"], metadata.value)) else None
  {
    if transcript.None? {
      return ServerError, None;
    }
    var id := ChooseId(requested, freshId);
    var reply, stamped := Converse(memory, id, transcript.value, model, now);
    out, mail := Reply(id, transcript.value, reply, stamped, tts);
  }

  /**
   * The end of `process_voice` once the store calls are done: the
   * confirmation email when the booked metadata has an address, then
   * speech synthesis, then the response body.
   */
  method Reply(id: string, userText: string, reply: LlmReply, stamped: Option<Record>, tts: string -> Option<string>)
    returns (out: Outcome<TurnResult>, mail: Option<(string, Record)>)
    ensures var metadata := if stamped.Some? then stamped else reply.metadata;
      (out.Ok? <==> tts(reply.response).Some?)
      && (out.Ok? ==> out.value == TurnResult(id, userText, reply.response, IntentName(reply.intent),
                                              metadata, AudioUrl(tts(reply.response).value)))
    ensures mail.Some? <==> stamped.Some? && "email" in stamped.value
    ensures mail.Some? ==> mail.value == (stamped.value["email"], stamped.value)
  {
    var metadata := if stamped.Some? then stamped else reply.metadata;
    mail := None;
    if stamped.Some? && "email" in stamped.value {
      mail := Some((stamped.value["email"], stamped.value));
    }
    var audio := tts(reply.response);
    if audio.None? {
      return ServerError, mail;
    }
    out := Ok(TurnResult(id, userText, reply.response, IntentName(reply.intent), metadata, AudioUrl(audio.value)));
  }

  /**
   * `get_greeting`: the session is created if new and the greeting is
   * appended as an assistant message, before speech synthesis can fail.
   */
  method GetGreeting(memory: ConversationMemory, requested: Option<string>, freshId: string,
                     tts: string -> Option<string>, now: string)
    returns (out: Outcome<GreetingResult>)
    requires memory.Valid()
    modifies memory
    ensures memory.Valid()
    ensures var id := ChooseId(requested, freshId);
      id in memory.sessions
      && memory.GetHistory(id) == old(memory.GetHistory(id)) + [Turn("assistant", Greeting)]
      && memory.sessions[id].metadata == old(memory.SessionOrNew(id, now)).metadata
      && memory.sessions[id].appointments == old(memory.SessionOrNew(id, now)).appointments
      && OnlyChanged(old(memory.sessions), memory.sessions, id)
      && memory.order == old(memory.OrderWith(id))
      && memory.persisted == Some(memory.Snapshot())
    ensures var id := ChooseId(requested, freshId);
      id !in old(memory.sessions) ==> memory.GetHistory(id) == [Turn("assistant", Greeting)]
    ensures out.Ok? <==> tts(Greeting).Some?
    ensures out.Ok? ==> out.value == GreetingResult(ChooseId(requested, freshId), Greeting, AudioUrl(tts(Greeting).value))
  {
    var id := ChooseId(requested, freshId);
    ghost var m0 := memory.sessions;
    memory.CreateSession(id, now);
    ghost var m1 := memory.sessions;
    memory.AddMessage(id, "assistant", Greeting, now);
    OnlyChangedTwice(m0, m1, memory.sessions, id);
    var audio := tts(Greeting);
    if audio.None? {
      return ServerError;
    }
    out := Ok(GreetingResult(id, Greeting, AudioUrl(audio.value)));
  }

  /** `get_conversation_history`: the stored session, or not found for an id never created. */
  function GetConversationHistory(memory: ConversationMemory, id: string): (r: Lookup<Session>)
    reads memory
    ensures r.Found? <==> id in memory.sessions
    ensures r.Found? ==> r.value == memory.sessions[id]
  {
    if id !in memory.sessions then NotFound else Found(memory.sessions[id])
  }

  /** An empty session is found, not reported missing: only an unknown id is not found. */
  lemma EmptySessionFound(memory: ConversationMemory, id: string)
    requires id in memory.sessions && memory.sessions[id].messages == []
    ensures GetConversationHistory(memory, id).Found?
    ensures memory.GetHistory(id) == []
  {
  }

  /** An unknown id is not found, although its history would read as empty. */
  lemma UnknownSessionNotFound(memory: ConversationMemory, id: string)
    requires id !in memory.sessions
    ensures GetConversationHistory(memory, id) == NotFound
    ensures memory.GetHistory(id) == []
  {
  }
}
