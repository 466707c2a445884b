# RustyChat, sequential core in Dafny

RustyChat is a line-based TCP chat server. Each accepted connection gets its
own tokio task. That task first asks for a user name and claims it in a shared user
map. It then loops, serving two things as they come: lines typed by its
client, and messages from a broadcast channel that every session publishes
to. Lines are cleaned of backspace characters. A line may hold a "magic
command" (`&save_text`, `&clear_screen`, `&show_users`, `&help`), and
anything else is broadcast. Each session keeps a transcript of what it sent
and received, and `&save_text` writes that transcript, without duplicates, to
a file named after the user.

This project models the part of that behaviour that does not depend on
concurrency. There are four modules:

- `Text` (text.dfy) covers the standard-library behaviour the server relies
  on: `str::trim` with Unicode white space, and the decimal formatting of the
  save counter.
- `Commands` (commands.dfy) covers `src/commands.rs`:
  - the duplicate filter;
  - the command classifier, written as a scan for the leftmost, longest
    `&[a-zA-Z_][a-zA-Z0-9_]*` match;
  - the file-name search and content of `save_chat`, over an abstract `Disk`
    that maps file names to contents;
  - the user listing;
  - the clear-screen and help texts.
- `Server` (server.dfy) covers `src/server.rs`:
  - `process_backspaces`;
  - the shared user map (`Registry`) and broadcast channel (`Hub`);
  - one connection as a `Session` object, with one method per step of its
    loops: a registration turn, a line read from the client, and a message
    delivered by the hub.

  A run of the server is any interleaving of these step methods over
  sessions that share one registry, hub and disk.
- `Scenarios` (scenarios.dfy) puts step methods together into short runs and
  proves what their contracts imply:
  - a second session asking for a taken name is refused;
  - a name stays taken after its session ends;
  - a session's own line reaches the other session's client but not its own,
    and is recorded twice in its own transcript;
  - a save next to an existing `alice.txt` goes to `alice_1.txt`.

The model follows the code where it differs from the intended design. There
are three such differences:
- **User-map entries are never removed.** The map only gains entries
  (`src/server.rs:98-104`), and nothing removes an entry when a session ends.
  So a name stays taken after its owner disconnects; see
  `Scenarios.NameOutlivesSession`.
- **Unknown commands are broadcast, not swallowed.** `check_for_magic_commands`
  answers `Some("None")` both for "no command" and for an unknown `&word`
  (`src/commands.rs:101-107`). That value reaches the catch-all arm, which
  broadcasts the line (`src/server.rs:201-207`), so the `None => {}` arm is
  unreachable.
- **A session's own line is recorded twice.** It is recorded when it is sent
  (`src/server.rs:168`) and again when the hub hands it back
  (`src/server.rs:234`), because that second append is unconditional.

How the state is represented:
- The user map is keyed by the peer address value. The source keys it by the
  address's string form, and that conversion is one-to-one.
- The broadcast channel is the sequence of everything ever published. Each
  session reads it through its own cursor, starting from the point where it
  subscribed.
- Writes to a client are appended to that session's `output` sequence, one
  entry per write.

## Model

| member | source | states |
|---|---|---|
| Text.TrimStartSpec | src/server.rs:88 | leading-whitespace removal keeps a suffix of the input, removes only white space, and leaves no white space at the front |
| Text.TrimEndSpec | src/server.rs:88 | trailing-whitespace removal keeps a prefix of the input, removes only white space, and leaves no white space at the end |
| Text.TrimIsMaximalSlice | src/server.rs:88 | the trimmed name is the contiguous slice of the input left after the whitespace prefix; everything cut from either side is white space, and neither end of the result is white space |
| Text.TrimEmptyIffAllWhitespace | src/server.rs:88-93 | a name trims to empty exactly when every character typed is white space (both directions) |
| Text.TrimIdempotent | src/server.rs:88 | trimming an already trimmed name changes nothing |
| Text.DecimalString | src/commands.rs:32 | the `{}` formatting of the counter is never empty |
| Text.DecimalStringShape | src/commands.rs:32 | the counter's formatting is all decimal digits, is one digit exactly for numbers below ten, and ends in the number's last digit |
| Text.DecimalStringInjective | src/commands.rs:32 | different counters format differently |
| Commands.FilterDuplicates | src/commands.rs:7-20 | the set-and-push loop returns exactly the first-occurrence deduplication of the history |
| Commands.DeduplicatedNoDuplicates | src/commands.rs:9-17 | the filtered history holds no message twice |
| Commands.DeduplicatedElements | src/commands.rs:12-16 | the filtered history has the same set of messages as the input and is no longer than it |
| Commands.DeduplicatedFirstOccurrenceOrder | src/commands.rs:12-16 | the kept messages appear in the order of their first occurrence in the input |
| Commands.DeduplicatedOfDistinct | src/commands.rs:12-19 | a history without duplicates is returned unchanged |
| Commands.DeduplicatedIdempotent | src/commands.rs:12-19 | filtering twice is filtering once |
| Commands.IdentEnd | src/commands.rs:92 | the greedy `[a-zA-Z0-9_]*` run from a position stops at the end of the line or at the first non-identifier character |
| Commands.FindFrom | src/commands.rs:92-95 | the scan returns the first position where `&` followed by a letter or `_` starts, with its maximal identifier run, or reports that no match starts at or after the given position |
| Commands.FindCommandIsLeftmostMatch | src/commands.rs:92-95 | `Regex::find` reports span (i, j) exactly when it is the leftmost, longest match, and reports nothing exactly when no match starts anywhere |
| Commands.CheckForMagicCommands | src/commands.rs:88-109 | the classifier always returns `Some`, with one of "&save_text", "&clear_screen", "&show_users", "&help" or "None" |
| Commands.ClassifyLeftmostMatch | src/commands.rs:95-105 | given the leftmost match, the result is that token if it is one of the four commands exactly, and "None" otherwise |
| Commands.ClassifyNoMatch | src/commands.rs:106-108 | a line in which no match starts is classified "None" |
| Commands.ClassifyCommandInLine | src/commands.rs:95-100 | a command preceded by text without `&` and followed by a non-identifier character or the end of the line is recognised, even mid-sentence |
| Commands.ClassifyLongerWord | src/commands.rs:95-104 | "&helpme" is classified "None", not "&help" |
| Commands.ClassifyFirstMatchOnly | src/commands.rs:95-104 | in "&foo &help" only the first match counts, so the result is "None" |
| Commands.Disk.constructor | src/commands.rs:31 | the disk starts with the given files |
| Commands.FileCandidateInjective | src/commands.rs:26-33 | the names tried at different counter values differ |
| Commands.FirstFreeNameUnique | src/commands.rs:26-34 | only one name is the first free candidate, so the set of existing files determines the chosen name |
| Commands.ChooseFileName | src/commands.rs:26-34 | the chosen name is the first of `user.txt`, `user_1.txt`, `user_2.txt`, … that does not exist, so it is never an existing name; the loop ends because every attempt is a new existing name |
| Commands.SplitJoinLines | src/commands.rs:25 | the saved content splits back at "\n" into the saved lines when no line holds a "\n" of its own |
| Commands.SaveChat | src/commands.rs:22-40 | exactly one file is added, under the first free name, with the lines joined by "\n"; no other file changes |
| Commands.UserLinesAppend | src/commands.rs:60-62 | the listing of two lists of users is the listing of the first followed by that of the second |
| Commands.UserLinesEntry | src/commands.rs:60-62 | each user's "- name\n\r" line stands between the lines of the users before and after it |
| Commands.ShowUsersText | src/commands.rs:54-62 | the `push_str` loop builds the header followed by one "- name\n\r" line per user, in the given order |
| Server.ProcessBackspaces | src/server.rs:257-270 | the push/pop loop computes the line-editor reading of the input, in which each backspace removes the character before it if there is one |
| Server.SanitizedHasNoBackspace | src/server.rs:261-266 | the sanitised line holds no U+0008 and is no longer than the input |
| Server.SanitizedWithoutBackspace | src/server.rs:261-269 | a line without U+0008 is returned unchanged |
| Server.SanitizedIdempotent | src/server.rs:261-269 | sanitising twice is sanitising once |
| Server.SanitizedPrefix | src/server.rs:261-267 | a prefix can be sanitised first, because the rest depends on the prefix only through its sanitised form |
| Server.SanitizedCancels | src/server.rs:262-265 | a character followed by a backspace cancels out wherever it stands |
| Server.SanitizedExamples | src/server.rs:262-265 | "ab\u{8}c" gives "ac", and a lone "\u{8}" gives "" |
| Server.Registry.constructor | src/server.rs:48 | the user map starts empty and satisfies its invariant (names non-empty, trimmed and pairwise distinct) |
| Server.Registry.TryRegister | src/server.rs:98-104 | the name is reported taken exactly when some address already holds it, in which case the map is unchanged; otherwise exactly `addr → name` is added; names stay pairwise distinct |
| Server.Registry.Usernames | src/server.rs:195 | the values are collected once per key in some order: as many as there are keys, the same set as the map's values, and no duplicates |
| Server.Hub.constructor | src/server.rs:46 | the channel starts with nothing published |
| Server.Hub.Send | src/server.rs:203 | a send appends exactly the message and its origin |
| Server.SaveIncludesCommandLine | src/server.rs:166-177 | because the line is recorded before the save, the saved chat contains the "name: &save_text" line itself |
| Server.Session.constructor | src/server.rs:61-70 | a new session is registering, with empty buffers, an empty transcript, no output, and a receiver subscribed at the current end of the channel |
| Server.Session.RegisterStep | src/server.rs:74-126 | each turn writes the prompt. A failed prompt write or read ends the session. A name that trims to empty keeps the typed text and changes nothing else. A taken name writes the error, clears the name buffer and leaves map and channel unchanged. Otherwise `addr → name` is added, the join notice is published, and the session becomes active. The user-map invariant is kept in every case |
| Server.Session.RunCommand | src/server.rs:171-211 | the four commands publish nothing. A save writes the deduplicated transcript under the first free name and confirms it. Clear-screen, user-list and help write their text. Any other value publishes exactly `(message, addr)` and changes nothing else |
| Server.Session.OnRead | src/server.rs:133-223 | with no map entry for the address nothing changes. End of stream or a read error ends the session. Otherwise the buffered text plus the new text is sanitised and the buffer is cleared; an empty result records and publishes nothing; a non-empty one appends "name: line" to the transcript and has the effect `RunCommand` states for its classification |
| Server.Session.HandleLine | src/server.rs:154-216 | the `Ok(_)` arm: the buffer is cleared; an empty sanitised line changes nothing else; a non-empty one is recorded as "name: line" and then dispatched on its classification |
| Server.Session.OnDelivery | src/server.rs:226-249 | with no map entry for the address nothing changes. Otherwise the next message is sanitised and always appended to the transcript, and the cursor advances. It is written to the client exactly when it came from another address. A failed write ends the session |
| Scenarios.TypeName | src/server.rs:74-126 | typing a plain name on one line either reports it taken (when some address holds it), or joins under it and announces it |
| Scenarios.RegistrationRace | src/server.rs:98-116 | a second session asking for a name already held is refused and asked again, then joins under another name; the map holds both and the channel carries both notices in order |
| Scenarios.NameOutlivesSession | src/server.rs:98-104 | after a session reaches end of stream, its name is still held and a new session asking for it is refused |
| Scenarios.SendPlainLine | src/server.rs:154-207 | a line with no `&` and no backspace, typed into an empty buffer, is recorded and published as "name: line" and nothing is written back |
| Scenarios.OwnLineEchoedIntoTranscriptOnly | src/server.rs:166-241 | the other session's client is sent "name: line", the sender's client is not, and the sender's transcript records the line twice |
| Scenarios.SaveBesideExisting | src/commands.rs:26-34 | with only "alice.txt" on disk, a save by alice adds "alice_1.txt" and leaves the older file unchanged |
| Scenarios.TypeSaveCommand | src/server.rs:164-187 | a line classified as "&save_text" is recorded, saved and confirmed, and publishes nothing |
| Scenarios.SaveNextToExistingFile | src/server.rs:166-179 | next to an existing "alice.txt" the chat goes to "alice_1.txt", and the saved chat contains the save command's own line |

## Left out

- Concurrency:
  - the spawned tasks, `tokio::select!` and the `Mutex` are not modelled. Each step is a separate method, and every interleaving of them is a possible run;
  - cancelling a pending `read_line` when the other branch of the `select!` wins is not modelled.
- Broadcast capacity and lag (`src/server.rs:46`) are not modelled. The tokio receiver's bookkeeping is not visible. The hub here never drops a message. In the code, a receiver that falls behind gets an error and its session ends (`src/server.rs:244-247`).
- Failing channel sends are not modelled (`src/server.rs:116-122`, `203-206`). They cannot fail here, because every sending session holds a receiver of its own. The "Joined the channel" fallback write is unreachable for the same reason.
- Socket write failures are a parameter only where they change control flow: the prompt write and the delivery write. Everywhere else the code only logs them, so those writes are modelled as always happening.
- File I/O:
  - `Commands.SaveChat`: does not model `File::create` or the write failing; the code only logs that error (`src/server.rs:181`).
  - File existence (`metadata(...).is_ok()`) is the key set of `Disk.files`.
  - Paths, directories and file-system contents outside that map are not modelled.
- `Commands.ChooseFileName`: does not model the 32-bit counter overflow, which would need 2^31 existing files.
- The user-map lookup failing (`src/server.rs:137-140`) re-runs the loop without reading anything. The model treats that iteration as a step that changes nothing. The endless spin itself is not modelled.
- The order of `HashMap::values` is not modelled. `Server.Registry.Usernames` picks the keys in an arbitrary order, and its contract holds for every order.
- The `regex` crate is not modelled. The fixed pattern is matched by a hand-written scan with the crate's leftmost-first, greedy semantics.
- `clear_terminals` and `display_help` are modelled only as the constant texts they write.
- Diagnostic `println!`/`eprintln!` output is not modelled.
- `src/main.rs`, `init_server`, `is_port_used` and `get_port` (`src/server.rs:13-40`, `272-299`) are not modelled: they are argument parsing, socket binding and random port choice.
- The socket is modelled as lines of text. Byte decoding and `read_line`'s splitting at "\n" are not modelled. A read outcome is either the text appended to the buffer (empty at end of stream) or an error.
