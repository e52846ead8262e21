# Single-room presentation server: the room model

The single-room server runs one shared presentation. Every browser that opens
the room's websocket becomes a client. Whoever joins an empty room becomes the
instructor. Anyone who joins while others are present is a participant. This
includes a departed instructor who reconnects while participants remain.

This project models the room's coordination layer in Dafny and proves properties of it:

- `SessionController` keeps the registry of clients by nick and the set of nicks
  in use. It also holds the instructor and the presentation flags: started,
  follow-instructor, lock-student-navigation and the last slide state.
  It fans messages out to all clients or only to the participants.
- `ClientWSConnection` covers one connection's life in the room:
  - connecting, which registers a nick and sends the role panel;
  - closing, which unregisters it;
  - the line dispatcher, `command|field|...` → `handle_<command>`;
  - the six command handlers.

How the source maps to the model:

- **Mutable objects.** Both objects change state in place, so each is a Dafny
  `class` (`Session.SessionController`, `Session.ClientConnection`) whose
  methods have `modifies` clauses.
- **Transport.** The websocket is a `Transport` object. It keeps the ordered log of
  every message written to a connection and every connection closed. Each
  method states the log it leaves behind as the old log plus exactly the
  effects it adds.
- **Wire format.** Messages are typed values (`Protocol.Msg`), not HTML or
  JSON text.
- **Failures.** A Python exception raised by a handler (`KeyError`,
  `AttributeError`, `IndexError`, a JSON decoding error) is an `Outcome`
  value. That value comes back together with the state the room is left in.
- **Nick choice.** Nick sanitising and de-duplication are pure functions in
  `Nicknames`. The loop that `get_safe_nick` runs is proved equal to them.

The invariant `SessionController.Valid` is kept by every operation. It says:

- the nick set is the registry's key set;
- the registry order lists every nick once;
- every client's connection agrees with its registry entry about being the
  instructor;
- any client flagged as instructor is the one the controller names.

## Model

| member | source | states |
|---|---|---|
| Nicknames.SafeNick | singleroom_server.py:52-60 | the chosen nick is not already taken, is made of word characters only, starts with the sanitised request, and is exactly the sanitised request when that is free |
| Nicknames.SafeNickIsFirstFree | singleroom_server.py:56-59 | the chosen nick is the first candidate of the probing sequence that is free: every candidate tried before it is taken |
| Nicknames.FreeIndex | singleroom_server.py:56-59 | the probing stops at a free candidate, and every candidate probed before it is taken |
| Nicknames.Candidate | singleroom_server.py:58 | every candidate starts with the sanitised request, and the k-th is at least k characters longer |
| Nicknames.CandidatesAccumulate | singleroom_server.py:56-59 | the suffixes accumulate: each candidate starts with every earlier candidate |
| Nicknames.CandidateIsWord | singleroom_server.py:58 | appending decimal counters to a word-character name keeps it word characters only |
| Nicknames.StripPunctuation | singleroom_server.py:54 | the first substitution keeps only characters of the request that are word characters or whitespace |
| Nicknames.StripWhitespace | singleroom_server.py:55 | the second substitution keeps only characters of its input that are not whitespace |
| Nicknames.Sanitise | singleroom_server.py:54-55 | after the two substitutions only word characters remain |
| Nicknames.SanitiseKeepsWordChars | singleroom_server.py:54-55 | the two substitutions together keep exactly the word characters of the request, in their order |
| Nicknames.SanitiseKeepsSafeNick | singleroom_server.py:54-55 | a request made of word characters only passes sanitising unchanged |
| Nicknames.SafeNickFreeRequest | singleroom_server.py:52-60 | "Bob" in a room holding only "Ann" stays "Bob" |
| Nicknames.SafeNickFirstClash | singleroom_server.py:56-59 | "Bob" in a room holding "Bob" becomes "Bob1" |
| Nicknames.SafeNickSecondClash | singleroom_server.py:56-59 | "Bob" with "Bob" and "Bob1" taken becomes "Bob12", not "Bob2": the suffixes accumulate |
| Nicknames.SafeNickDropsPunctuation | singleroom_server.py:54-55 | "Al! 2" becomes "Al2": punctuation and whitespace are dropped |
| Nicknames.SafeNickMayBeEmpty | singleroom_server.py:54-55 | a request with no word character yields the empty nick, which is accepted |
| Strings.NatToString | singleroom_server.py:58 | `str(i)` of a natural number is a non-empty string of decimal digits with no leading zero |
| Strings.DecimalRoundTrip | singleroom_server.py:58 | reading the decimal text of `i` back gives `i` |
| Strings.Split | singleroom_server.py:189 | `message.split('\|')` gives at least one field and no field contains the delimiter |
| Strings.JoinSplit | singleroom_server.py:189 | joining the split fields with the delimiter restores the message |
| Strings.SplitJoin | singleroom_server.py:189 | splitting fields that are free of the delimiter, once joined, gives the same fields back |
| Protocol.CommandNamed | singleroom_server.py:191-192 | a command found for a word is the command with that word |
| Protocol.HandlerOf | singleroom_server.py:191-192 | an attribute that resolves to a handler is `handle_` followed by that command's word |
| Protocol.HandlerOfName | singleroom_server.py:191-192 | `handle_` + word resolves to a command's handler if and only if word is that command's word |
| Protocol.CommandNameUndelimited | singleroom_server.py:189-191 | no command word contains the field delimiter |
| Protocol.CommandOfJoinedLine | singleroom_server.py:189-194 | a line made of a command word followed by delimiter-free fields dispatches to that command |
| Protocol.CommandOf | singleroom_server.py:189-192 | a line dispatches to a command only when its first field is exactly that command's word |
| Protocol.JsonBoolRoundTrip | singleroom_server.py:143 | decoding the JSON text that `json.dumps` gives a boolean yields that boolean again |
| Session.ListingSize | singleroom_server.py:106-109 | a listing that names each nick once is exactly as long as the nick set |
| Session.Deliver | singleroom_server.py:111-113 | a fan-out over n nicks produces n writes |
| Session.DeliverAt | singleroom_server.py:111-113 | the i-th write of a fan-out goes to the connection of the i-th nick |
| Session.ParticipantsMembers | singleroom_server.py:137-140 | the filtered fan-out list holds exactly the listed clients whose connection is not the instructor's |
| Session.ParticipantsNoDup | singleroom_server.py:137-140 | filtering a duplicate-free registry order keeps it duplicate-free |
| Session.Participants | singleroom_server.py:137-140 | the `if not conn._is_instructor` filter keeps only registered nicks, in registry order (which nicks it keeps is `ParticipantsMembers`) |
| Session.Without | singleroom_server.py:83 | removing a nick from the registry order keeps every other nick and drops that one |
| Session.WithoutNoDup | singleroom_server.py:83 | removing a nick keeps the order duplicate-free and the nick gone |
| Session.WithoutRegistered | singleroom_server.py:83 | after deleting a nick from the registry, the remaining order still names only registered clients |
| Session.RosterListsEveryNickOnce | singleroom_server.py:105-113 | the nicklist sent names every registered nick exactly once, and its i-th copy goes to the i-th client's connection |
| Session.Transport.Write | singleroom_server.py:113 | `write_message` appends exactly one send to the log |
| Session.Transport.Close | singleroom_server.py:82 | `close()` appends exactly one close to the log |
| Session.SessionController.constructor | singleroom_server.py:43-50 | an empty room with no instructor, presentation not started, following the instructor, student navigation locked, empty instructor state |
| Session.SessionController.InstructorIsUnique | singleroom_server.py:66-72 | at most one registered client is the instructor |
| Session.SessionController.NoPromotion | singleroom_server.py:80-86 | once the instructor's entry has left the registry, nobody else is promoted, not even a newcomer who reused its nick: no registered client is the instructor |
| Session.SessionController.BroadcastReachesEveryClientOnce | singleroom_server.py:111-113 | a broadcast reaches every registered client exactly once, at its own connection |
| Session.SessionController.ParticipantsAreTheNonInstructors | singleroom_server.py:135-147 | the participant fan-out reaches each non-instructor client exactly once and never the instructor |
| Session.SessionController.GetSafeNick | singleroom_server.py:52-60 | the probing loop computes `SafeNick` of the request against the nicks in use |
| Session.SessionController.NickListing | singleroom_server.py:106-109 | the nicklist payload names every nick in use exactly once |
| Session.SessionController.SendToAll | singleroom_server.py:111-113 | one write of the message to every registered connection, in registry order, and nothing else |
| Session.SessionController.SendToParticipants | singleroom_server.py:137-140 | one write to each registered connection that is not the instructor's, in registry order, and nothing else |
| Session.SessionController.BroadcastNicklist | singleroom_server.py:105-113 | everyone, including a newcomer, receives a roster naming every nick once |
| Session.SessionController.AddClient | singleroom_server.py:62-78 | the newcomer is registered under the safe nick. It becomes the instructor if and only if the room was empty. The instructor does not change otherwise. Flags are untouched. Everyone gets the new roster. The invariant holds |
| Session.SessionController.Enroll | singleroom_server.py:64-75 | the registry gains exactly the new entry, with its instructor flag set if and only if the room was empty, and the connection's flag agrees |
| Session.SessionController.Register | singleroom_server.py:74-75 | the registry and the nick set gain exactly the new nick; the invariant is kept |
| Session.SessionController.RemoveClient | singleroom_server.py:80-86 | an unknown nick raises `KeyError` and changes nothing. Otherwise, in this order: that connection is closed, the nick leaves the registry and the nick set, and the remaining clients get the new roster. The instructor record and flags are unchanged |
| Session.SessionController.Unregister | singleroom_server.py:83-84 | the registry and the nick set lose exactly that nick; the order keeps the rest; the invariant is kept |
| Session.SessionController.SetInstructorState | singleroom_server.py:88-89 | the latest instructor state becomes the given text; nothing else changes |
| Session.SessionController.SendStartPresentation | singleroom_server.py:115-117 | exactly one `load_presentation` with the current flags, to that connection |
| Session.SessionController.BroadcastStartPresentation | singleroom_server.py:119-123 | everyone receives `load_presentation` with the current flags, then the presentation is marked started |
| Session.SessionController.BroadcastFinishPresentation | singleroom_server.py:125-133 | everyone receives `finish_presentation`; the presentation stops and both policy flags return to true |
| Session.SessionController.BroadcastRevealState | singleroom_server.py:135-140 | the state text goes to every participant and to nobody else; the room is unchanged |
| Session.SessionController.BroadcastLockStudentNav | singleroom_server.py:142-147 | the lock value goes to every participant and to nobody else |
| Session.ClientConnection.constructor | singleroom_server.py:153-157 | a new connection has no nick and is not the instructor |
| Session.ClientConnection.SetInstructor | singleroom_server.py:196-197 | the instructor flag takes the given value; the nick is unchanged |
| Session.ClientConnection.Open | singleroom_server.py:159-175 | the connection takes the safe nick and joins the room, instructor if and only if it was empty. The log gains, in order: the roster to everyone, then this connection's role panel, then `load_presentation` if the presentation is running |
| Session.ClientConnection.Greet | singleroom_server.py:166-175 | the instructor gets the instructor panel, a participant the participant panel with the current lock; then `load_presentation` only if the presentation is running |
| Session.ClientConnection.OnClose | singleroom_server.py:177-179 | a registered connection is removed as in `RemoveClient`; without a registered nick it raises `KeyError` and nothing changes |
| Session.ClientConnection.OnMessage | singleroom_server.py:185-194 | an unknown command raises `AttributeError` naming `handle_<word>` and changes nothing. A known one does exactly what its handler does. A non-instructor's line changes nothing unless it is a sync request |
| Session.ClientConnection.HandleStartPresentation | singleroom_server.py:201-205 | the instructor starts the presentation for everyone; anyone else changes nothing |
| Session.ClientConnection.HandleSlideChanged | singleroom_server.py:207-214 | a missing field raises `IndexError` for anyone. The instructor's text is stored and, if participants follow the instructor, revealed to them. Anyone else changes nothing |
| Session.ClientConnection.HandleLockFollowInstructor | singleroom_server.py:216-221 | a non-instructor changes nothing. For the instructor, a missing field raises `IndexError` and a non-boolean field a JSON error, each changing nothing. Otherwise the follow flag takes the decoded value, silently |
| Session.ClientConnection.HandleLockStudentNav | singleroom_server.py:223-229 | as for the follow flag, but the navigation lock is set and then sent to every participant |
| Session.ClientConnection.HandleSyncToInstructor | singleroom_server.py:231-238 | the instructor reveals the stored state to all participants; a participant gets the stored state sent to itself alone |
| Session.ClientConnection.HandleFinishPresentation | singleroom_server.py:240-244 | the instructor ends the presentation for everyone; anyone else changes nothing |

## Left out

- The web framework around the room is not modelled: the HTTP page handler, application setup, the event loop, `allow_draft76` and the query-argument lookup in `open`. `Open` takes the requested nick as a parameter.
- Rendering the panel templates and the HTML markup of the nicklist are not modelled. A panel is a role-tagged message, and the nicklist is the sequence of nicks.
- Logging (`app_log.info`) is not modelled; it has no effect on the room.
- Writes and closes are taken to succeed. A transport error is not modelled. Neither is the re-entry into `on_close` that a real close may trigger.
- What the framework does after a handler raises is not modelled, for example dropping the connection. The model returns the failure together with the room state at the moment of the raise.
- `\w` and `\s` are taken as their ASCII classes (letters, digits and `_`; space, tab, newline, carriage return, vertical tab, form feed). Python's Unicode classes are wider.
- Session.ClientConnection.HandleLockFollowInstructor: only the bare literals `true` and `false` are decoded. Any other payload is a JSON failure. Python's `json.loads` accepts more. It takes other JSON values (numbers, strings, `null`) and stores them as the flag. It also takes `true`/`false` with JSON whitespace around them (` true`), which the model reports as `MalformedJson`.
- Session.ClientConnection.HandleLockStudentNav: the same restriction to the bare literals `true` and `false`, with the same consequences for other JSON values and for surrounding whitespace.
- Session.SessionController.NickListing: iterating over a Python set visits the nicks in an order the language leaves open. The model picks an arbitrary order and proves only that every nick appears once.
- Session.SessionController.SendToAll: the order in which a fan-out visits clients is the model's choice, namely insertion order (the registry order). The source does not guarantee it. That server runs on Python 2 or on Python 3 before 3.7, where `dict` iteration order is unspecified. The exactly-once properties (`BroadcastReachesEveryClientOnce`, `ParticipantsAreTheNonInstructors`) do not depend on this order; only the order of effects in the log does.
- `getattr` on the connection can find attributes other than the six handlers, for example `handle_` followed by another method's suffix, or a non-callable attribute. Only the six handlers and "no such attribute" are modelled.
- Connection ids are not required to be distinct: the log records which id each effect targets.
- `get_instructor_state` and `generate_start_presentation_msg` are modelled as plain getters without contracts (`CurrentInstructorState`, `StartPresentationMsg`); their values appear in the contracts of the methods that use them.
