/**
 * `LLMService.get_response` (backend/services/llm_service.py): the prompt
 * built from the last six turns, and what is made of the model's reply —
 * the hidden APPOINTMENT_READY ... END_APPOINTMENT block, the booking intent,
 * the text the patient sees, and the apology when anything fails.
 * The model itself is a parameter: a function from prompt to reply, where
 * None stands for an exception raised by the client.
 */
module LlmService {
  import opened Wrappers
  import opened Text

  /** One entry of the conversation history: `{"role": ..., "content": ...}`. */
  datatype Turn = Turn(role: string, content: string)

  /** The three intents the service reports. */
  datatype Intent = Conversation | BookAppointment | Error

  /** The result dictionary `{"response", "intent", "metadata"}`. */
  datatype LlmReply = LlmReply(response: string, intent: Intent, metadata: Option<map<string, string>>)

  const Ready := "APPOINTMENT_READY"
  const End := "END_APPOINTMENT"
  const Apology := "I'm having technical difficulties. Could you please repeat that?"

  /** The slots a booking needs. */
  const RequiredFields: seq<string> := ["name", "email", "service", "date", "time", "dentist"]

  /** How many of the latest turns the prompt repeats. */
  const ContextWindow := 6

  /** The reply when the model fails or says nothing. */
  const Fallback := LlmReply(Apology, Error, None)

  /** The intent as the string the service returns. */
  function IntentName(i: Intent): (s: string)
    ensures s == "conversation" || s == "book_appointment" || s == "error"
  {
    match i
    case Conversation => "conversation"
    case BookAppointment => "book_appointment"
    case Error => "error"
  }

  /** The three intents have three different names. */
  lemma IntentNamesDiffer(i: Intent, j: Intent)
    ensures IntentName(i) == IntentName(j) <==> i == j
  {
    if i != j {
      assert IntentName(i)[0] != IntentName(j)[0];
    }
  }

  // ---------------------------------------------------------------- the prompt

  /** `history[-6:]`. */
  function Recent(history: seq<Turn>): (r: seq<Turn>)
    ensures |r| == if |history| <= ContextWindow then |history| else ContextWindow
    ensures r == history[|history| - |r|..]
  {
    if |history| <= ContextWindow then history else history[|history| - ContextWindow..]
  }

  function RoleLabel(role: string): string {
    if role == "user" then "Patient" else "Sarah"
  }

  /** The line one turn contributes: "<Role>: <content>\n". */
  function Line(t: Turn): string {
    RoleLabel(t.role) + ": " + t.content + "\n"
  }

  /** The lines of several turns, in order. */
  function Lines(turns: seq<Turn>): string {
    if turns == [] then "" else Lines(turns[..|turns| - 1]) + Line(turns[|turns| - 1])
  }

  /** The context block: empty without history, else a header, the recent lines and a blank line. */
  function Context(history: seq<Turn>): string {
    if history == [] then "" else "Previous conversation:\n" + Lines(Recent(history)) + "\n"
  }

  /** `full_prompt`. */
  function Prompt(userMessage: string, history: seq<Turn>): string {
    Context(history) + "Patient: " + userMessage + "\nSarah:"
  }

  /** The context is built by appending one line per recent turn (lines 109-118). */
  method BuildPrompt(userMessage: string, history: seq<Turn>) returns (prompt: string)
    ensures prompt == Prompt(userMessage, history)
  {
    var context := "";
    if history != [] {
      context := "Previous conversation:\n";
      var recent := Recent(history);
      var i := 0;
      while i < |recent|
        invariant 0 <= i <= |recent|
        invariant context == "Previous conversation:\n" + Lines(recent[..i])
      {
        var role := if recent[i].role == "user" then "Patient" else "Sarah";
        var line := role + ": " + recent[i].content + "\n";
        LinesStep(recent, i);
        AppendAssoc("Previous conversation:\n", Lines(recent[..i]), line);
        context := context + line;
        i := i + 1;
      }
      assert recent[..|recent|] == recent;
      context := context + "\n";
    }
    prompt := context + "Patient: " + userMessage + "\nSarah:";
  }

  lemma LinesStep(turns: seq<Turn>, i: nat)
    requires i < |turns|
    ensures Lines(turns[..i + 1]) == Lines(turns[..i]) + Line(turns[i])
  {
    assert turns[..i + 1][..i] == turns[..i];
  }

  lemma AppendAssoc(a: string, b: string, c: string)
    ensures (a + b) + c == a + (b + c)
  {
  }

  /** Without history the prompt is the patient's line alone. */
  lemma PromptWithoutHistory(userMessage: string)
    ensures Prompt(userMessage, []) == "Patient: " + userMessage + "\nSarah:"
  {
  }

  /** The lines of two runs of turns are the lines of the first, then of the second. */
  lemma {:induction false} LinesAppend(a: seq<Turn>, b: seq<Turn>)
    decreases |b|
    ensures Lines(a + b) == Lines(a) + Lines(b)
  {
    if b == [] {
      assert a + b == a;
    } else {
      var b', last := b[..|b| - 1], b[|b| - 1];
      assert (a + b)[..|a + b| - 1] == a + b';
      assert (a + b)[|a + b| - 1] == last;
      assert Lines(a + b) == Lines(a + b') + Line(last);
      LinesAppend(a, b');
      AppendAssoc(Lines(a), Lines(b'), Line(last));
    }
  }

  /** Read from the front: the first turn's line, then the lines of the rest. */
  lemma LinesFromFront(t: Turn, rest: seq<Turn>)
    ensures Lines([t] + rest) == Line(t) + Lines(rest)
  {
    LinesAppend([t], rest);
    assert [t][..0] == [];
    assert Lines([t]) == "" + Line(t);
  }

  /** Only the last six turns matter: older history never reaches the prompt. */
  lemma PromptIgnoresOlderTurns(userMessage: string, older: seq<Turn>, history: seq<Turn>)
    requires |history| >= ContextWindow
    ensures Prompt(userMessage, older + history) == Prompt(userMessage, history)
  {
    var h := older + history;
    SuffixOfAppend(older, history, ContextWindow);
    assert Recent(h) == Recent(history);
  }

  lemma SuffixOfAppend<T>(a: seq<T>, b: seq<T>, n: nat)
    requires n <= |b|
    ensures (a + b)[|a + b| - n..] == b[|b| - n..]
  {
  }

  /** With up to six turns every one of them is repeated, in order. */
  lemma PromptRepeatsShortHistory(userMessage: string, history: seq<Turn>)
    requires 0 < |history| <= ContextWindow
    ensures Prompt(userMessage, history)
      == "Previous conversation:\n" + Lines(history) + "\n" + "Patient: " + userMessage + "\nSarah:"
  {
  }

  // ---------------------------------------------------------------- the appointment block

  /**
   * One line of the block: stripped, it must hold a ':' and must not mention
   * "APPOINTMENT"; the key is the stripped, lower-cased text before the first
   * ':' and the value the stripped rest.
   */
  function ParseLine(raw: string): Option<(string, string)> {
    KeyValue(Strip(raw))
  }

  /** `line.split(":", 1)` into a key and a value, for a line already stripped. */
  function KeyValue(line: string): Option<(string, string)> {
    if ':' in line && !Contains(line, "APPOINTMENT") then
      match IndexFrom(line, ':', 0)
      case None => None
      case Some(k) => Some((Lower(Strip(line[..k])), Strip(line[k + 1..])))
    else None
  }

  /** A parsed line: its key and value come from the text around its first ':'. */
  lemma KeyValueSplits(line: string)
    requires KeyValue(line).Some?
    ensures var (key, value) := KeyValue(line).value;
      exists pre, post :: line == pre + ":" + post && ':' !in pre
        && key == Lower(Strip(pre)) && value == Strip(post)
  {
    var k := IndexFrom(line, ':', 0).value;
    var pre, post := line[..k], line[k + 1..];
    assert line == pre + ":" + post;
    assert ':' !in pre;
  }

  /** Conversely, a line "pre:post" with no ':' in pre and no "APPOINTMENT" anywhere is parsed. */
  lemma SplitsKeyValue(line: string, pre: string, post: string)
    requires line == pre + ":" + post && ':' !in pre
    requires !Contains(line, "APPOINTMENT")
    ensures KeyValue(line) == Some((Lower(Strip(pre)), Strip(post)))
  {
    assert line[|pre|] == ':';
    assert IndexFrom(line, ':', 0) == Some(|pre|);
    assert line[..|pre|] == pre && line[|pre| + 1..] == post;
  }

  /** What a line adds to the map: a later key overwrites an earlier one. */
  function Enter(m: map<string, string>, raw: string): map<string, string> {
    match ParseLine(raw)
    case None => m
    case Some((key, value)) => m[key := value]
  }

  /** The map the lines of the block build, first line first. */
  function Parsed(lines: seq<string>): map<string, string> {
    if lines == [] then map[] else Enter(Parsed(lines[..|lines| - 1]), lines[|lines| - 1])
  }

  /** The metadata loop (lines 151-159): every line of the block is parsed and entered in turn. */
  method ParseBlock(block: string) returns (metadata: map<string, string>)
    ensures metadata == Parsed(SplitLines(block))
  {
    var lines := SplitLines(block);
    metadata := map[];
    var i := 0;
    while i < |lines|
      invariant 0 <= i <= |lines|
      invariant metadata == Parsed(lines[..i])
    {
      ParsedStep(lines, i);
      var entry := ParseLine(lines[i]);
      if entry.Some? {
        var (key, value) := entry.value;
        metadata := metadata[key := value];
      }
      i := i + 1;
    }
    assert lines[..|lines|] == lines;
  }

  lemma ParsedStep(lines: seq<string>, i: nat)
    requires i < |lines|
    ensures Parsed(lines[..i + 1]) == Enter(Parsed(lines[..i]), lines[i])
  {
    assert lines[..i + 1][..i] == lines[..i];
  }

  /** Line `j` carries `key`. */
  predicate HasKey(lines: seq<string>, j: int, key: string) {
    0 <= j < |lines| && ParseLine(lines[j]).Some? && ParseLine(lines[j]).value.0 == key
  }

  /** Every key of the map comes from some line ... */
  lemma {:induction false} ParsedKeyFromLine(lines: seq<string>, key: string)
    requires key in Parsed(lines)
    decreases |lines|
    ensures exists j :: HasKey(lines, j, key)
  {
    var n := |lines| - 1;
    var init := lines[..n];
    if !HasKey(lines, n, key) {
      ParsedKeyFromLine(init, key);
      var j :| HasKey(init, j, key);
      assert init[j] == lines[j];
      assert HasKey(lines, j, key);
    }
  }

  /** ... and every line's key is in the map. */
  lemma {:induction false} LineKeyInParsed(lines: seq<string>, j: int, key: string)
    requires HasKey(lines, j, key)
    decreases |lines|
    ensures key in Parsed(lines)
  {
    var n := |lines| - 1;
    if j < n {
      var init := lines[..n];
      assert init[j] == lines[j];
      assert HasKey(init, j, key);
      LineKeyInParsed(init, j, key);
    }
  }

  /** The keys of the map are exactly the keys of the parsed lines. */
  lemma ParsedKeys(lines: seq<string>, key: string)
    ensures key in Parsed(lines) <==> exists j :: HasKey(lines, j, key)
  {
    if key in Parsed(lines) {
      ParsedKeyFromLine(lines, key);
    }
    if exists j :: HasKey(lines, j, key) {
      var j :| HasKey(lines, j, key);
      LineKeyInParsed(lines, j, key);
    }
  }

  /** A key's value is the one on the last line that carries the key. */
  lemma {:induction false} ParsedLastWins(lines: seq<string>, j: nat)
    requires j < |lines| && ParseLine(lines[j]).Some?
    requires forall i :: j < i < |lines| && ParseLine(lines[i]).Some? ==> ParseLine(lines[i]).value.0 != ParseLine(lines[j]).value.0
    decreases |lines|
    ensures ParseLine(lines[j]).value.0 in Parsed(lines)
    ensures Parsed(lines)[ParseLine(lines[j]).value.0] == ParseLine(lines[j]).value.1
  {
    var init := lines[..|lines| - 1];
    if j < |lines| - 1 {
      assert init[j] == lines[j];
      ParsedLastWins(init, j);
    }
  }

  // ---------------------------------------------------------------- the reply

  /** The hidden block: from the first APPOINTMENT_READY to the end of the first END_APPOINTMENT (empty if that comes first). */
  function Block(a: string): string
    requires Contains(a, Ready) && Contains(a, End)
  {
    var start := Find(a, Ready).value;
    var stop := Find(a, End).value + |End|;
    if start <= stop then a[start..stop] else []
  }

  /** The block's map holds every required slot (and, so, is not empty). */
  predicate Complete(metadata: map<string, string>) {
    metadata != map[] && forall f :: f in RequiredFields ==> f in metadata
  }

  /** The last cleanup: text still carrying either marker is cut before the first APPOINTMENT_READY. */
  function Cleanup(message: string): string {
    if Contains(message, Ready) || Contains(message, End) then Strip(Before(message, Ready)) else message
  }

  /** What `get_response` makes of the reply text (`response.text or ""`). */
  function Interpret(text: string): LlmReply {
    var a := Strip(text);
    if a == [] then Fallback
    else if Contains(a, Ready) && Contains(a, End) then
      var metadata := Parsed(SplitLines(Block(a)));
      var visible := Cleanup(Strip(a[..Find(a, Ready).value]));
      if Complete(metadata) then LlmReply(visible, BookAppointment, Some(metadata))
      else LlmReply(visible, Conversation, None)
    else LlmReply(Cleanup(a), Conversation, None)
  }

  /** What `get_response` returns for a model outcome: None is a raised exception. */
  function Respond(reply: Option<string>): LlmReply {
    match reply
    case None => Fallback
    case Some(text) => Interpret(text)
  }

  /** `get_response`, with the model call passed in. */
  method GetResponse(userMessage: string, history: seq<Turn>, model: string -> Option<string>) returns (r: LlmReply)
    ensures r == Respond(model(Prompt(userMessage, history)))
  {
    var prompt := BuildPrompt(userMessage, history);
    var reply := model(prompt);
    if reply.None? {
      return Fallback;
    }
    var message := Strip(reply.value);
    if message == [] {
      return Fallback;
    }
    var intent := Conversation;
    var metadata: Option<map<string, string>> := None;
    if Contains(message, Ready) && Contains(message, End) {
      intent := BookAppointment;
      var start := Find(message, Ready).value;
      var stop := Find(message, End).value + |End|;
      var block := if start <= stop then message[start..stop] else [];
      var fields := ParseBlock(block);
      if Complete(fields) {
        metadata := Some(fields);
      } else {
        intent := Conversation;
        metadata := None;
      }
      message := Strip(message[..start]);
    }
    if Contains(message, Ready) || Contains(message, End) {
      message := Strip(Before(message, Ready));
    }
    r := LlmReply(message, intent, metadata);
  }

  // ---------------------------------------------------------------- what the reply promises

  /** An exception, or a reply that is empty after stripping, gives the apology with intent "error". */
  lemma FailureGivesApology(reply: Option<string>)
    requires reply.None? || Strip(reply.value) == []
    ensures Respond(reply) == LlmReply(Apology, Error, None)
  {
  }

  /** ... and intent "error" arises in no other way. */
  lemma ErrorOnlyOnFailure(reply: Option<string>)
    requires Respond(reply).intent == Error
    ensures reply.None? || Strip(reply.value) == []
    ensures Respond(reply) == Fallback
  {
  }

  /** Metadata is returned exactly when the intent is booking. */
  lemma MetadataIffBooking(reply: Option<string>)
    ensures Respond(reply).metadata.Some? <==> Respond(reply).intent == BookAppointment
  {
  }

  /**
   * Booking happens exactly when the stripped reply holds both markers and
   * the block names all six slots; the metadata is then the block's map.
   */
  lemma BookingIffComplete(text: string)
    ensures var a := Strip(text);
      Interpret(text).intent == BookAppointment <==>
        a != [] && Contains(a, Ready) && Contains(a, End) && Complete(Parsed(SplitLines(Block(a))))
    ensures Interpret(text).intent == BookAppointment ==>
      Interpret(text).metadata == Some(Parsed(SplitLines(Block(Strip(text)))))
  {
  }

  /** Without both markers the turn is plain conversation. */
  lemma NoBlockNoBooking(text: string)
    requires Strip(text) != []
    requires !(Contains(Strip(text), Ready) && Contains(Strip(text), End))
    ensures Interpret(text).intent == Conversation && Interpret(text).metadata.None?
  {
  }

  /** A stripped text without APPOINTMENT_READY passes the cleanup unchanged. */
  lemma CleanupKeeps(m: string)
    requires Strip(m) == m && !Contains(m, Ready)
    ensures Cleanup(m) == m
  {
    assert Before(m, Ready) == m;
  }

  /** The text before the first occurrence of a pattern, stripped, does not hold the pattern. */
  lemma StrippedPrefixLacks(a: string, p: string)
    requires p != [] && Find(a, p).Some?
    ensures !Contains(Strip(a[..Find(a, p).value]), p)
    ensures Strip(Strip(a[..Find(a, p).value])) == Strip(a[..Find(a, p).value])
  {
    var x := a[..Find(a, p).value];
    BeforeLacks(a, p);
    StripIdempotent(x);
    StripLacks(x, p);
  }

  /** Stripping cannot create an occurrence. */
  lemma StripLacks(x: string, p: string)
    requires !Contains(x, p)
    ensures !Contains(Strip(x), p)
  {
    var i := SkipSpaces(x, 0);
    var r := Strip(x);
    if Contains(r, p) {
      ContainsSlice(x, i, i + |r|, p);
    }
  }

  /** A reply with only END_APPOINTMENT keeps it: the visible text is the stripped reply unchanged. */
  lemma StrayEndKept(text: string)
    requires Contains(Strip(text), End) && !Contains(Strip(text), Ready)
    ensures Interpret(text) == LlmReply(Strip(text), Conversation, None)
  {
    StripIdempotent(text);
    CleanupKeeps(Strip(text));
  }

  /** Whenever APPOINTMENT_READY occurs, the visible text is what precedes its first occurrence, stripped. */
  lemma VisibleBeforeReady(text: string)
    requires Contains(Strip(text), Ready)
    ensures var a := Strip(text);
      Interpret(text).response == Strip(a[..Find(a, Ready).value])
  {
    var a := Strip(text);
    var x := Strip(a[..Find(a, Ready).value]);
    StrippedPrefixLacks(a, Ready);
    if Contains(a, End) {
      CleanupKeeps(x);
    } else {
      assert Before(a, Ready) == a[..Find(a, Ready).value];
    }
  }

  /** Apart from the apology, the patient never hears APPOINTMENT_READY. */
  lemma VisibleLacksReady(reply: Option<string>)
    requires Respond(reply).intent != Error
    ensures !Contains(Respond(reply).response, Ready)
  {
    var text := reply.value;
    var a := Strip(text);
    if Contains(a, Ready) {
      VisibleBeforeReady(text);
      StrippedPrefixLacks(a, Ready);
    } else {
      StripIdempotent(text);
      CleanupKeeps(a);
    }
  }

  /** Apart from the apology, the visible text is a prefix of the stripped reply, stripped. */
  lemma VisibleIsTrimmedPrefix(text: string)
    requires Strip(text) != []
    ensures exists k :: 0 <= k <= |Strip(text)| && Interpret(text).response == Strip(Strip(text)[..k])
  {
    var a := Strip(text);
    if Contains(a, Ready) {
      VisibleBeforeReady(text);
    } else {
      StripIdempotent(text);
      CleanupKeeps(a);
      assert a[..|a|] == a;
    }
  }
}
