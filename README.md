# SmileCare voice receptionist — a Dafny model of the backend core

The backend takes one spoken patient utterance per request. It transcribes
it, asks an LLM for the receptionist's reply, turns the reply into speech,
and keeps the conversation state in a JSON file. The part this project
models is that core:

- **The LLM reply protocol** (`llm_service.dfy`, module `LlmService`).
  - The prompt is built from the last six turns.
  - An `APPOINTMENT_READY` … `END_APPOINTMENT` block is cut out of the
    model's text.
  - The block's `key: value` lines are parsed and checked for the six
    required fields.
  - The stray markers are removed.
  - The fixed apology is the fallback when the model fails or answers
    with nothing.
- **The session store** (`memory_service.dfy`, class
  `MemoryService.ConversationMemory`). It maps session ids to sessions.
  - Each session holds its creation time, its messages, its collected
    metadata and its booked appointments.
  - Sessions are created lazily.
  - Messages and appointments are only appended. Metadata is merged
    with `dict.update`.
  - `add_appointment` writes `booked_at` into the caller's dictionary.
  - The whole store is written after every change.
- **The date and time normalisation** (`date_parser.dfy`):
  `parse_date`, `parse_time`, `format_12h_to_24h`, `format_datetime`,
  `get_day_of_week` and `is_weekend`.
- **The slot validators** (`validators.dfy`): email, date window, time
  window, phone, service and dentist.
- **The routes.**
  - `conversation.dfy` covers the order of the store calls in one
    `process_voice` turn, the greeting and the history lookup.
  - `appointments.dfy` covers the flattened appointment list, as nested
    loops proved against a `Flatten` function, and the per-session
    lookup.

Supporting modules:

- `wrappers.dfy` holds `Option`.
- `text.dfy` models the Python `str` operations the core uses, by index:
  - `strip`, whose whitespace is the ASCII characters `str.isspace`
    accepts;
  - `lower` on ASCII letters;
  - `in` and `find`;
  - `splitlines`, where `\r\n` is one line break and the break
    characters are 10–13 and 28–30;
  - `split` on one character;
  - decimal digits.
- `calendar.dfy` models the proleptic Gregorian calendar.
  - It computes day numbers and weekdays, with Monday = 0.
  - It models the `strptime` field parsing used here: numeric fields
    only, `%Y` exactly four digits, `%m`/`%d`/`%H`/`%M` one or two.
  - It models `%Y-%m-%d`, `%A` and `%B` formatting.

## Inputs the model takes

- **The clock** is a parameter.
  - `now` is an opaque timestamp string.
  - `today` is a `Calendar.Date`.
- **The LLM** is a parameter `model: string -> Option<string>` from
  prompt to reply text. `None` stands for any exception from the client.
- **Speech.**
  - Speech-to-text is an `Option<string>` transcript; `None` means the
    transcription raised.
  - Text-to-speech is a function to an optional audio file name; `None`
    means it raised or wrote no file.
- **The new session id** (`uuid4`) is the parameter `freshId`.
- **The JSON file** is the ghost field `persisted`. `None` means that no
  store file has been written, or that it cannot be read.

Three points about the code deserve a note:

- **`parse_time`.** The phrase table at date_parser.py:69 maps
  "afternoon" to 14:00, and test_date_parser.py:33 expects that. But
  "noon" is tried first and matches inside "afternoon", so the code
  returns 12:00. The model follows the code; see Findings.
- **Appointments.** Appointments carry no identifier. `add_appointment`
  stores the caller's metadata plus `booked_at`
  (memory_service.py:79-86), and so does the model.
- **Phone separators.** The character class at validators.py:79 is read
  as whitespace, `-`, `(` and `)`. test_validators.py:55 needs
  "(555) 123-4567" to be accepted, which only that reading allows.

## Model

| member | source | states |
|---|---|---|
| LlmService.IntentName | backend/services/llm_service.py:182-196 | the intent of every reply is "conversation", "book_appointment" or "error" |
| LlmService.IntentNamesDiffer | backend/services/llm_service.py:137-143 | the three intents have three different names |
| LlmService.Recent | backend/services/llm_service.py:112 | `history[-6:]` is the suffix of length min(6, \|history\|) |
| LlmService.BuildPrompt | backend/services/llm_service.py:108-118 | the `+=` loop over the recent turns builds exactly `Prompt(user_message, history)` |
| LlmService.PromptWithoutHistory | backend/services/llm_service.py:109-118 | with no history the prompt is exactly "Patient: " + message + "\nSarah:" |
| LlmService.PromptRepeatsShortHistory | backend/services/llm_service.py:110-118 | with 1..6 turns the prompt is the header, one "<Role>: <content>\n" line per turn in order, a blank line, then the patient line |
| LlmService.LinesAppend | backend/services/llm_service.py:112-114 | the lines of two runs of turns are the first run's lines followed by the second's |
| LlmService.LinesFromFront | backend/services/llm_service.py:112-114 | the first turn's line comes first |
| LlmService.PromptIgnoresOlderTurns | backend/services/llm_service.py:112 | once six or more turns are stored, the older turns do not affect the prompt |
| LlmService.KeyValueSplits | backend/services/llm_service.py:154-159 | a parsed line is `pre + ":" + post` with no ':' in `pre`; the key is `pre` stripped and lower-cased and the value is `post` stripped |
| LlmService.SplitsKeyValue | backend/services/llm_service.py:154-159 | conversely, every such line without "APPOINTMENT" yields that key and value |
| LlmService.ParseBlock | backend/services/llm_service.py:151-159 | the line loop fills exactly `Parsed(splitlines(block))` |
| LlmService.ParsedKeyFromLine | backend/services/llm_service.py:153-159 | every key in the parsed map comes from some line of the block |
| LlmService.LineKeyInParsed | backend/services/llm_service.py:153-159 | every key some line yields is in the parsed map |
| LlmService.ParsedKeys | backend/services/llm_service.py:153-159 | a key is in the parsed map iff some line of the block yields it |
| LlmService.ParsedLastWins | backend/services/llm_service.py:159 | a key's value is the one from the last line that yields that key |
| LlmService.GetResponse | backend/services/llm_service.py:103-196 | the method's steps (prompt, model call, strip, marker test, block, completeness, cleanup, fallback) give `Respond(model(Prompt(message, history)))` |
| LlmService.FailureGivesApology | backend/services/llm_service.py:130-132 | an exception, or a reply that strips to nothing, gives exactly the apology with intent "error" and no metadata |
| LlmService.ErrorOnlyOnFailure | backend/services/llm_service.py:188-196 | intent "error" happens only in those cases, and then the reply is the fixed fallback |
| LlmService.MetadataIffBooking | backend/services/llm_service.py:165-172 | metadata is present iff the intent is "book_appointment" |
| LlmService.BookingIffComplete | backend/services/llm_service.py:141-172 | booking iff both markers occur and the block's parsed map has all six required fields; the metadata is then that whole map, extra keys included |
| LlmService.NoBlockNoBooking | backend/services/llm_service.py:137-141 | without both markers the intent is "conversation" with no metadata |
| LlmService.StrayEndKept | backend/services/llm_service.py:178-179 | a reply with `END_APPOINTMENT` but no `APPOINTMENT_READY` is returned stripped but otherwise whole, marker included |
| LlmService.VisibleBeforeReady | backend/services/llm_service.py:175-179 | when `APPOINTMENT_READY` occurs, the visible reply is the stripped text before its first occurrence, whatever the parse gave |
| LlmService.VisibleLacksReady | backend/services/llm_service.py:174-179 | a non-error visible reply never contains `APPOINTMENT_READY` |
| LlmService.VisibleIsTrimmedPrefix | backend/services/llm_service.py:174-179 | the visible reply is always a stripped prefix of the stripped model text |
| LlmService.CleanupKeeps | backend/services/llm_service.py:178-179 | the safety cleanup leaves a stripped text without `APPOINTMENT_READY` unchanged |
| MemoryService.ConversationMemory.constructor | backend/services/memory_service.py:20-30 | the store starts as the file's contents, or empty when the file is missing or unreadable |
| MemoryService.ConversationMemory.Save | backend/services/memory_service.py:32-35 | the file afterwards holds the whole store, which is unchanged |
| MemoryService.ConversationMemory.CreateSession | backend/services/memory_service.py:37-46 | a known id changes nothing, not even the file; a new id gets an empty session at the end of the order and the store is written |
| MemoryService.ConversationMemory.Ensure | backend/services/memory_service.py:50-51 | the lazy creation inside the mutators: afterwards the id is known and nothing else changed |
| MemoryService.ConversationMemory.AddMessage | backend/services/memory_service.py:48-58 | the session, created if absent, gains exactly one message at the end; the history gains exactly that turn; no other session changes; the file holds the new store |
| MemoryService.ConversationMemory.GetHistory | backend/services/memory_service.py:60-69 | an unknown id gives []; a known id gives one role/content pair per message, in order |
| MemoryService.ConversationMemory.UpdateMetadata | backend/services/memory_service.py:71-77 | the session's metadata becomes old + new, the new keys winning; nothing else changes; the file holds the new store |
| MemoryService.ConversationMemory.AddAppointment | backend/services/memory_service.py:79-86 | the caller's dictionary gains `booked_at` and is appended as the one new appointment; nothing else changes; the file holds the new store |
| MemoryService.Project | backend/services/memory_service.py:66-69 | the projection keeps length and order and takes role and content of each message |
| MemoryService.ProjectAppend | backend/services/memory_service.py:66-69 | projecting one more message adds its turn at the end |
| MemoryService.Reload | backend/services/memory_service.py:20-35 | a new instance opened on the file last written holds the same store and the same history |
| MemoryService.MergeKeepsAndOverrides | backend/services/memory_service.py:76 | after the merge, new keys carry the new values, untouched old keys keep theirs, and the keys are exactly the union |
| Conversation.ChooseId | backend/routes/conversation.py:43-44 | the id is the requested one unless it is missing or empty, then the fresh one; it is never empty when the fresh id is not |
| Conversation.ContextEndsWithUtterance | backend/routes/conversation.py:62-67 | the history handed to the LLM already ends with the utterance, so the context's last line is the patient's own line |
| Conversation.UserLine | backend/services/llm_service.py:113-114 | a user turn's line is "Patient: " + text + "\n" |
| Conversation.Exchange | backend/routes/conversation.py:62-77 | the user message then the assistant reply (including the apology on error) are appended; the LLM saw the old history plus the user turn |
| Conversation.Book | backend/routes/conversation.py:82-83 | the metadata merge then the stamped appointment, on the one session |
| Conversation.Converse | backend/routes/conversation.py:62-83 | exactly two messages, user then assistant; metadata merged and one appointment appended iff the reply books with non-empty metadata, otherwise both unchanged; only this session changes; the file holds the new store |
| Conversation.Reply | backend/routes/conversation.py:86-117 | the confirmation goes to the booked "email" exactly when that key exists; the turn succeeds iff speech synthesis does; the returned metadata is the stamped dictionary when booked |
| Conversation.ProcessVoice | backend/routes/conversation.py:36-122 | a failed transcription changes nothing; otherwise the store calls of `Converse` on the chosen id, then the confirmation, then the response or HTTP 500 |
| Conversation.GetGreeting | backend/routes/conversation.py:171-218 | the session exists afterwards and gains exactly the greeting; a fresh session holds just that one message; a TTS failure is HTTP 500 after the store change |
| Conversation.GetConversationHistory | backend/routes/conversation.py:161-169 | not found iff the id was never created, else the stored session |
| Conversation.EmptySessionFound | backend/routes/conversation.py:166-169 | a known session with no messages is found, not reported missing |
| Conversation.UnknownSessionNotFound | backend/routes/conversation.py:166-169 | an unknown id is not found, although `get_history` would give [] for it |
| Appointments.Tag | backend/routes/appointments.py:13-16 | the entry has the appointment's keys plus `session_id`; the appointment's own values win; `session_id` is the owner unless the appointment carries that key |
| Appointments.Tagged | backend/routes/appointments.py:12-16 | one tagged entry per appointment of the session, in order |
| Appointments.ListAppointments | backend/routes/appointments.py:7-17 | the nested loops produce exactly `Flatten(order, sessions)`, and `count` is its length and the total number of stored appointments |
| Appointments.FlattenLength | backend/routes/appointments.py:10-17 | the list length is the sum of the sessions' appointment counts |
| Appointments.FlattenAppend | backend/routes/appointments.py:11 | the entries follow the session order: two runs of sessions list the first run's entries first |
| Appointments.EntryPosition | backend/routes/appointments.py:11-16 | appointment j of the i-th session is listed at the sum of the earlier sessions' counts plus j, tagged with its session |
| Appointments.EntryOrigin | backend/routes/appointments.py:11-16 | every entry is some session's appointment tagged with that session |
| Appointments.BookingListsOneMore | backend/routes/appointments.py:10-17 | one more stored appointment in a session listed once gives exactly one more entry |
| Appointments.GetSessionAppointments | backend/routes/appointments.py:19-27 | not found for an unknown id, else the session's stored list, untagged |
| DateParser.FirstWeekdayFrom | backend/utils/date_parser.py:34-35 | the first weekday name, in Monday…Sunday order, that occurs in the text |
| DateParser.FirstFormatFrom | backend/utils/date_parser.py:42-48 | the first format in the list that parses, or none of them parses |
| DateParser.DaysAhead | backend/utils/date_parser.py:36-38 | 1..7 days ahead, landing on the target weekday; 7 when it is today's weekday |
| DateParser.ResolveDate | backend/utils/date_parser.py:19-50 | every date produced is a valid calendar date |
| DateParser.ParseDateToday | backend/utils/date_parser.py:15-20 | "today" or "now", after lower-casing and stripping, gives today |
| DateParser.ParseDateTomorrow | backend/utils/date_parser.py:22-23 | "tomorrow" gives the next day by day number, across month and year ends |
| DateParser.TomorrowAtYearEnd | backend/utils/date_parser.py:22-23 | on 2024-12-31 "tomorrow" is "2025-01-01" |
| DateParser.TomorrowBeforeLeapDay | backend/utils/date_parser.py:22-23 | on 2024-02-28 "tomorrow" is "2024-02-29" |
| DateParser.ResolveNextWeek | backend/utils/date_parser.py:25-26 | text containing "next week" gives today + 7, before any weekday name is tried |
| DateParser.ParseDateNextWeek | backend/utils/date_parser.py:25-26 | "next week" lands seven days on, on today's weekday |
| DateParser.ResolveWeekday | backend/utils/date_parser.py:34-39 | the first weekday name found resolves to today + DaysAhead |
| DateParser.ParseDateWeekday | backend/utils/date_parser.py:34-39 | a weekday name gives a date strictly after today, at most 7 days on, on that weekday; today's own weekday name gives today + 7 |
| DateParser.ParseDateIsoRoundTrip | backend/utils/date_parser.py:42-46 | a valid zero-padded "YYYY-MM-DD" comes back unchanged |
| DateParser.ParseDateChristmas | backend/tests/test_date_parser.py:15 | "2024-12-25" gives "2024-12-25" |
| DateParser.ParseDateNone | backend/utils/date_parser.py:15-50 | the result is None iff no phrase, no weekday name and no format applies |
| DateParser.To24 | backend/utils/date_parser.py:95-101 | without a marker the hour is unchanged |
| DateParser.To24Correct | backend/utils/date_parser.py:97-101 | for hours 1..12 with am/pm: the result is in 0..23, agrees modulo 12, and is at least 12 iff pm |
| DateParser.Hour12OfTo24 | backend/utils/date_parser.py:95-101 | converting to 24 hours and back to 12 gives the hour and the marker back |
| DateParser.To24OfHour12 | backend/utils/date_parser.py:95-101 | every 24-hour hour is reached from its 12-hour form |
| DateParser.Pad2Digits | backend/utils/date_parser.py:103 | `:02d` of 0..99 is two digits reading back as the number |
| DateParser.Format12hTo24hReadsBack | backend/utils/date_parser.py:95-103 | the "HH:MM" produced parses back as that hour and minute whenever they are in range |
| DateParser.ParseTimeNoRangeCheck | backend/utils/date_parser.py:95-103 | there is no range check: "13pm" gives "25:00" |
| DateParser.FirstPhraseFrom | backend/utils/date_parser.py:73-75 | the first phrase of the table, in table order, that occurs in the text |
| DateParser.MarkerAt | backend/utils/date_parser.py:79-80 | the optional `(am\|pm)` group reads only "am" or "pm" |
| DateParser.MatchAt | backend/utils/date_parser.py:78-82 | only the hour-and-marker pattern yields a marker, apart from the first pattern's optional one |
| DateParser.SearchFrom | backend/utils/date_parser.py:85 | `re.search` finds the leftmost position where the pattern matches |
| DateParser.Search | backend/utils/date_parser.py:85 | a match is found iff the pattern matches at some position |
| DateParser.PlainClockImpliesClockMarker | backend/utils/date_parser.py:79-81 | wherever the bare "H:MM" pattern matches, the first pattern matches too |
| DateParser.PlainClockUnreachable | backend/utils/date_parser.py:78-86 | so the third pattern can never be the one that answers |
| DateParser.ParseTimeNone | backend/utils/date_parser.py:63-92 | the result is None iff no phrase occurs and neither of the first two patterns matches |
| DateParser.ParseTimeTwoPm | backend/tests/test_date_parser.py:23 | "2pm" gives "14:00" |
| DateParser.ParseTimeHalfPastThreePm | backend/tests/test_date_parser.py:24 | "3:30pm" gives "15:30" |
| DateParser.ParseTimeTenAm | backend/tests/test_date_parser.py:25 | "10am" gives "10:00" |
| DateParser.ParseTimeFourteen | backend/tests/test_date_parser.py:28 | "14:00" gives "14:00" |
| DateParser.ParseTimeNineThirty | backend/tests/test_date_parser.py:29 | "09:30" gives "09:30" |
| DateParser.ParseTimeMorning | backend/tests/test_date_parser.py:32 | "morning" gives "09:00" |
| DateParser.ParseTimeInvalid | backend/tests/test_date_parser.py:36 | "invalid" gives None |
| DateParser.ParseTimeAfternoonAsWritten | backend/utils/date_parser.py:66-75 | as written, "afternoon" gives "12:00", not its own table entry "14:00" |
| DateParser.ParseTimeIntended | backend/utils/date_parser.py:66-75 | the corrected parser differs from the original only when a phrase occurs |
| DateParser.NoPhraseEitherOrder | backend/utils/date_parser.py:73-75 | no phrase occurs in one table order iff none occurs in the other |
| DateParser.IntendedTableSamePhrases | backend/utils/date_parser.py:66-71 | the corrected table has the same phrase/time pairs, only reordered |
| DateParser.ParseTimeIntendedPhrases | backend/tests/test_date_parser.py:32-33 | in the corrected parser every phrase gives its own time, "afternoon" giving "14:00" |
| DateParser.StripHourZero | backend/utils/date_parser.py:123 | `lstrip('0')` on "%I:%M" removes exactly the hour's leading zero |
| DateParser.ShortTime | backend/utils/date_parser.py:123 | the display time is the 12-hour hour without padding, ":", the padded minutes, a space and AM/PM |
| DateParser.LongDateChristmas | backend/tests/test_date_parser.py:42 | 2024-12-25 displays as "Wednesday, December 25, 2024" |
| DateParser.FormatDatetimeChristmas | backend/tests/test_date_parser.py:41-43 | "2024-12-25", "14:00" displays as "Wednesday, December 25, 2024 at 2:00 PM" |
| DateParser.GetDayOfWeek | backend/utils/date_parser.py:130-136 | the weekday name of a parseable date, otherwise None |
| DateParser.IsWeekendIsSunday | backend/utils/date_parser.py:139-142 | true iff the text parses as a date that falls on Sunday; unparseable text gives false |
| Validators.RegexEnd | backend/utils/validators.py:16 | regex `$` accepts the text or the text minus one final "\n" |
| Validators.ValidateEmailIsPattern | backend/utils/validators.py:15-16 | accepted iff a non-empty local part over [A-Za-z0-9._%+-], "@", a non-empty domain over [A-Za-z0-9.-], ".", and two or more letters cover the text (before an optional final "\n") |
| Validators.ValidateEmailFinalNewline | backend/utils/validators.py:15-16 | one extra final "\n" does not change the verdict |
| Validators.EmailSimple | backend/tests/test_validators.py:14 | "test@example.com" is accepted |
| Validators.EmailDottedParts | backend/tests/test_validators.py:15 | "user.name@domain.co.uk" is accepted |
| Validators.EmailNoAt | backend/tests/test_validators.py:18 | "invalid.email" is rejected |
| Validators.EmailNoLocalPart | backend/tests/test_validators.py:19 | "@example.com" is rejected |
| Validators.EmailNoDomain | backend/tests/test_validators.py:20 | "test@" is rejected |
| Validators.ValidateDateWindow | backend/utils/validators.py:29-44 | accepted iff the text parses as %Y-%m-%d and today ≤ date ≤ today + 180 days |
| Validators.ValidateDateOffset | backend/utils/validators.py:33-40 | the date n days from today is accepted iff 0 ≤ n ≤ 180 |
| Validators.ValidateDateTomorrow | backend/tests/test_validators.py:24-26 | tomorrow is accepted |
| Validators.ValidateDateYesterday | backend/tests/test_validators.py:28-30 | yesterday is rejected |
| Validators.ValidateDateSlashes | backend/tests/test_validators.py:33 | "2024/12/25" is rejected |
| Validators.ValidateDateWords | backend/tests/test_validators.py:34 | "invalid-date" is rejected |
| Validators.ClockLeqIsMinutes | backend/utils/validators.py:63 | comparing times is comparing minutes since midnight |
| Validators.ValidateTimeWindow | backend/utils/validators.py:58-65 | accepted iff the text and both bounds parse as %H:%M and start ≤ time ≤ end, both ends inclusive |
| Validators.ReadClock | backend/utils/validators.py:59 | an "HH:MM" text parses to its hour and minute when they are in range, otherwise fails |
| Validators.DefaultWorkingHours | backend/utils/validators.py:47-65 | with the default hours: accepted iff 09:00 ≤ time ≤ 18:00 |
| Validators.TimeTen | backend/tests/test_validators.py:39 | "10:00" is accepted |
| Validators.TimeHalfPastTwo | backend/tests/test_validators.py:40 | "14:30" is accepted |
| Validators.TimeBeforeClosing | backend/tests/test_validators.py:41 | "17:59" is accepted |
| Validators.TimeBeforeOpening | backend/tests/test_validators.py:44 | "08:00" is rejected |
| Validators.TimeAfterClosing | backend/tests/test_validators.py:45 | "19:00" is rejected |
| Validators.TimeNoSuchHour | backend/tests/test_validators.py:48 | "25:00" is rejected |
| Validators.TimeNotAClock | backend/tests/test_validators.py:49 | "invalid" is rejected |
| Validators.Clean | backend/utils/validators.py:79 | the cleaned text is no longer and holds no separator |
| Validators.CleanAppend | backend/utils/validators.py:79 | cleaning distributes over concatenation |
| Validators.CleanKeeps | backend/utils/validators.py:79 | a text without separators is left alone |
| Validators.CleanIdempotent | backend/utils/validators.py:79 | cleaning twice is cleaning once |
| Validators.CleanDropsSeparator | backend/utils/validators.py:79 | one separator anywhere is dropped |
| Validators.CleanedHasNoFinalNewline | backend/utils/validators.py:79-83 | `$` has no final "\n" to skip after cleaning |
| Validators.ValidatePhoneIgnoresSeparator | backend/utils/validators.py:79-83 | inserting a separator anywhere never changes the verdict |
| Validators.PhonePatternHasDigits | backend/utils/validators.py:82 | a text the phone pattern accepts is an optional "+" and 10..15 digits, the first not 0 |
| Validators.DigitsHavePhonePattern | backend/utils/validators.py:82 | and every such text is accepted |
| Validators.ValidatePhoneDigits | backend/utils/validators.py:79-83 | accepted iff the cleaned text is an optional "+" and 10..15 digits, the first not 0 |
| Validators.PhoneInternational | backend/tests/test_validators.py:54 | "+1234567890" is accepted |
| Validators.PhoneWithSeparators | backend/tests/test_validators.py:55 | "(555) 123-4567" is accepted |
| Validators.PhoneUsCleaned | backend/utils/validators.py:79 | "(555) 123-4567" cleans to "5551234567" |
| Validators.PhoneTooShort | backend/tests/test_validators.py:58 | "123" is rejected |
| Validators.PhoneNotDigits | backend/tests/test_validators.py:59 | "invalid" is rejected |
| Validators.LowerAll | backend/utils/validators.py:108 | the comprehension lower-cases each name, keeping the order |
| Validators.ValidateServiceUpToCase | backend/utils/validators.py:97-108 | accepted iff some listed service (the six defaults when no list is given) equals the input up to case |
| Validators.ValidateServiceIgnoresCase | backend/utils/validators.py:108 | two inputs equal up to case get the same verdict |
| Validators.ValidateServiceEmptyList | backend/utils/validators.py:97-108 | an explicit empty list accepts nothing; it does not fall back to the defaults |
| Validators.ServiceListed | backend/tests/test_validators.py:64 | "Teeth Cleaning" is accepted |
| Validators.ServiceLowerCase | backend/tests/test_validators.py:65 | "teeth cleaning" is accepted |
| Validators.ServiceUnknown | backend/tests/test_validators.py:68 | "Invalid Service" is rejected |
| Validators.DentistListed | backend/tests/test_validators.py:73 | "Dr. Emily Chen" is accepted |
| Validators.DentistUnknown | backend/tests/test_validators.py:76 | "Dr. Unknown" is rejected |
| Validators.DentistCaseMatters | backend/utils/validators.py:130 | membership is case-sensitive: "dr. emily chen" is rejected although "Dr. Emily Chen" is accepted |

## Left out

- The Gemini client. Its configuration, the system-instruction text and the
  generation settings are a foreign library and a template. The model's reply
  is the output of the `model` parameter.
- Speech-to-text, text-to-speech and the mail service. They are foreign
  libraries: audio decoding, gTTS and SMTP. Transcription is an optional
  string, synthesis a function to an optional file name, and the confirmation
  is returned as the address and dictionary it would be sent with. The mail
  service catches its own errors and its result is ignored.
- Upload and audio file handling, `FileResponse`, the `/audio/{filename}`
  route and directory creation. These are file I/O.
- The clock. One `now` is passed to each operation. Python reads the clock
  separately for `created_at` and for each timestamp, so readings that differ
  within one request are not modelled.
- JSON encoding. The file is the ghost field `persisted`, assigned the whole
  store on every save. Failures writing the file are not modelled.
- The order of keys inside metadata and appointment dictionaries is not
  modelled, because they are maps. The order of sessions is kept.
- Sessions lacking one of their four keys (a hand-edited file) are not
  modelled. Every session is created by `create_session`, so
  `session_data.get("appointments", [])` always finds the list.
- The second store instance. backend/routes/appointments.py:5 opens its own
  `ConversationMemory`, loaded once at start-up, so the listing does not see
  appointments booked later through the conversation routes' instance. The
  model's listing reads the instance it is given.
- The metadata-parsing `except` branch (backend/services/llm_service.py:160-162).
  Nothing in the loop can raise, so the branch is unreachable and not
  modelled.
- Python's date limits. Years outside 1..9999 and the `OverflowError` of
  `timedelta` near year 9999 are not modelled. The calendar is unbounded,
  and only the parsers keep to four-digit years.
- `%Y` formatting pads years below 1000 to four digits. Some C libraries
  print fewer digits.
- The `" 5"` (space-padded) form `strptime` accepts for numeric fields.
- Unicode. Case folding, whitespace and digits are ASCII only.
- LlmService.VisibleLacksReady: stated only for non-error replies. The fixed
  apology also lacks the marker, but that fact about the long literal is not
  proved.
- `async` and the concurrency of requests. Turns are sequential.
- Frontend, test harness and environment checks. They are outside the
  backend core.

## Findings

| source | as written | input that shows it | evidently intended | confidence | as-written member | corrected member |
|---|---|---|---|---|---|---|
| backend/utils/date_parser.py:66-75 | phrases are tried by substring in the order morning, noon, afternoon, evening, and "afternoon" contains "noon" | `parse_time("afternoon")` returns "12:00" | "14:00", the table's own entry, as backend/tests/test_date_parser.py:33 expects | high; not executed | DateParser.ParseTimeAfternoonAsWritten | DateParser.ParseTimeIntendedPhrases |
