/** The sequential core of `src/server.rs`: the backspace sanitiser, the
    shared user registry and broadcast hub, and the three steps of one
    connection session (registration, a line read from the client, a message
    delivered by the hub). The accept loop, the spawned tasks and the `select!` race
    are not modelled: each step is a method, and any interleaving of them is
    a run of the server. */
module Server {
  import opened Text
  import opened Commands

  // ---------------------------------------------------------------------
  // process_backspaces
  // ---------------------------------------------------------------------

  const Backspace: char := '\U{8}'

  /** The text that results from typing `s` into a line editor: every
      backspace removes the character before it, if there is one. */
  function Sanitized(s: string): string
    decreases |s|
  {
    if s == [] then []
    else
      var done, c := Sanitized(s[..|s| - 1]), s[|s| - 1];
      if c == Backspace then (if done == [] then [] else done[..|done| - 1])
      else done + [c]
  }

  /** `process_backspaces`: pushes ordinary characters and pops on a
      backspace, `pop` on an empty string doing nothing. */
  method ProcessBackspaces(buffer: string) returns (result: string)
    ensures result == Sanitized(buffer)
  {
    result := "";
    for i := 0 to |buffer|
      invariant result == Sanitized(buffer[..i])
    {
      var c := buffer[i];
      if c == Backspace {
        if |result| > 0 {
          result := result[..|result| - 1];
        }
      } else {
        result := result + [c];
      }
      assert buffer[..i + 1][..i] == buffer[..i];
    }
    assert buffer[..|buffer|] == buffer;
  }

  /** The sanitised line holds no backspace and is no longer than the input. */
  lemma {:induction false} SanitizedHasNoBackspace(s: string)
    ensures Backspace !in Sanitized(s)
    ensures |Sanitized(s)| <= |s|
    decreases |s|
  {
    if s != [] {
      SanitizedHasNoBackspace(s[..|s| - 1]);
    }
  }

  /** A line without backspaces is left as it is. */
  lemma {:induction false} SanitizedWithoutBackspace(s: string)
    requires Backspace !in s
    ensures Sanitized(s) == s
    decreases |s|
  {
    if s != [] {
      SanitizedWithoutBackspace(s[..|s| - 1]);
      assert s == s[..|s| - 1] + [s[|s| - 1]];
    }
  }

  /** Sanitising twice is sanitising once. */
  lemma SanitizedIdempotent(s: string)
    ensures Sanitized(Sanitized(s)) == Sanitized(s)
  {
    SanitizedHasNoBackspace(s);
    SanitizedWithoutBackspace(Sanitized(s));
  }

  /** The sanitiser can be run on a prefix first: what it makes of the rest
      depends on the prefix only through the prefix's sanitised form. */
  lemma {:induction false} SanitizedPrefix(p: string, q: string)
    ensures Sanitized(p + q) == Sanitized(Sanitized(p) + q)
    decreases |q|
  {
    if q == [] {
      assert p + q == p;
      assert Sanitized(p) + q == Sanitized(p);
      SanitizedIdempotent(p);
    } else {
      var init := q[..|q| - 1];
      SanitizedPrefix(p, init);
      assert (p + q)[..|p + q| - 1] == p + init;
      assert (Sanitized(p) + q)[..|Sanitized(p) + q| - 1] == Sanitized(p) + init;
    }
  }

  /** A character followed by a backspace cancels out, wherever it stands. */
  lemma SanitizedCancels(p: string, c: char, q: string)
    requires c != Backspace
    ensures Sanitized(p + [c, Backspace] + q) == Sanitized(p + q)
  {
    var pc := p + [c, Backspace];
    assert pc[..|pc| - 1] == p + [c];
    assert (p + [c])[..|p|] == p;
    assert Sanitized(pc) == Sanitized(p);
    SanitizedPrefix(pc, q);
    SanitizedPrefix(p, q);
  }

  /** "ab<BS>c" gives "ac", and a backspace at the start does nothing. */
  lemma SanitizedExamples()
    ensures Sanitized("ab\U{8}c") == "ac"
    ensures Sanitized("\U{8}") == ""
  {
    assert "ab\U{8}c"[..3] == "ab\U{8}";
    assert "ab\U{8}"[..2] == "ab";
    assert "ab"[..1] == "a";
  }

  // ---------------------------------------------------------------------
  // Shared state: the user map and the broadcast channel
  // ---------------------------------------------------------------------

  /** A peer address; it keys the user map (the source keys it by the
      address's string form, which is one-to-one) and tags every broadcast
      message with its sender. */
  datatype Addr = Addr(host: string, port: nat)

  /** Names listed as `show_users` sees them: each registered name once, in
      whatever order the map yields them. */
  ghost predicate IsNameSnapshot(users: seq<string>, names: map<Addr, string>) {
    |users| == |names|
    && (forall u :: u in users <==> u in names.Values)
    && NoDuplicates(users)
  }

  /** What `&save_text` leaves on disk: the transcript, filtered of
      duplicates and joined with "\n", in a new file under the first free
      name for `username`; no other file changes. */
  ghost predicate SavedTranscript(before: map<string, string>, after: map<string, string>,
                                  username: string, transcript: seq<string>) {
    exists fileName ::
      && IsFirstFreeName(fileName, username, before.Keys)
      && after == before[fileName := JoinLines(Deduplicated(transcript))]
  }

  /** One write was added to the client's output: the listing of a snapshot
      of the registered names. */
  ghost predicate RepliedWithUserList(before: seq<string>, after: seq<string>, names: map<Addr, string>) {
    exists users :: IsNameSnapshot(users, names) && after == before + [UserListing(users)]
  }

  /** The user map shared by all sessions, from address to user name. */
  class Registry {
    var names: map<Addr, string>

    /** Every name is non-empty and trimmed, and no two addresses hold the
        same name. */
    ghost predicate Valid()
      reads this
    {
      && (forall a :: a in names ==> names[a] != "" && Trim(names[a]) == names[a])
      && (forall a, b :: a in names && b in names && a != b ==> names[a] != names[b])
    }

    constructor ()
      ensures Valid() && names == map[]
    {
      names := map[];
    }

    /** The check-and-insert done under the lock: a name already held is
        reported taken and nothing changes; otherwise exactly `addr` is bound
        to it. */
    method TryRegister(addr: Addr, username: string) returns (taken: bool)
      requires Valid() && username != "" && Trim(username) == username
      modifies this
      ensures Valid()
      ensures taken <==> username in old(names).Values
      ensures names == if taken then old(names) else old(names)[addr := username]
    {
      taken := username in names.Values;
      if !taken {
        names := names[addr := username];
      }
    }

    /** `map.values().cloned().collect()`: every value once per key, in an
        order the map chooses. */
    method Usernames() returns (users: seq<string>)
      ensures |users| == |names|
      ensures forall u :: u in users <==> u in names.Values
      ensures Valid() ==> IsNameSnapshot(users, names)
    {
      users := [];
      var remaining := names.Keys;
      ghost var visited: seq<Addr> := [];
      while remaining != {}
        invariant remaining <= names.Keys
        invariant |visited| == |users|
        invariant |users| + |remaining| == |names.Keys|
        invariant forall i :: 0 <= i < |visited| ==> visited[i] in names && users[i] == names[visited[i]]
        invariant forall a :: a in names.Keys ==> (a in remaining <==> a !in visited)
        invariant forall i, j :: 0 <= i < j < |visited| ==> visited[i] != visited[j]
        decreases remaining
      {
        var a :| a in remaining;
        users := users + [names[a]];
        visited := visited + [a];
        remaining := remaining - {a};
      }
      forall u | u in names.Values ensures u in users {
        var a :| a in names && names[a] == u;
        var i :| 0 <= i < |visited| && visited[i] == a;
        assert users[i] == u;
      }
    }
  }

  /** The broadcast channel: every message ever sent, in order, with its
      sender. Each session reads it through its own cursor. */
  class Hub {
    var published: seq<(string, Addr)>

    constructor ()
      ensures published == []
    {
      published := [];
    }

    /** `tx.send`. It cannot fail here: a sending session always holds a
        receiver of its own. */
    method Send(text: string, origin: Addr)
      modifies this
      ensures published == old(published) + [(text, origin)]
    {
      published := published + [(text, origin)];
    }
  }

  /** A save made by the line "name: &save_text" writes that very line:
      the line is recorded before the transcript is filtered. */
  lemma SaveIncludesCommandLine(transcript: seq<string>, message: string)
    ensures message in Deduplicated(transcript + [message])
  {
    DeduplicatedElements(transcript + [message]);
  }

  // ---------------------------------------------------------------------
  // One connection session
  // ---------------------------------------------------------------------

  datatype Phase = Registering | Active | Closed

  /** What `read_line` returns: the text it appended (empty at end of
      stream), or an error. */
  datatype ReadOutcome = Received(text: string) | ReadFailed

  const EnterUsername: string := "\rEnter Username: "
  const NameTaken: string := "Username is already taken. Try again.\n"
  const ChatSaved: string := "The text chat was saved!.\n\r"

  function WelcomeMessage(username: string): string {
    username + " has joined the chat.\n\r"
  }

  function ChatLine(username: string, line: string): string {
    username + ": " + line
  }

  /** The state of the tokio task spawned for one accepted connection. `output`
      is what the session wrote to its client, one entry per write. */
  class Session {
    const addr: Addr
    const registry: Registry
    const hub: Hub
    const disk: Disk
    var phase: Phase
    var usernameBuffer: string
    var buffer: string
    var transcript: seq<string>
    var output: seq<string>
    var cursor: nat

    /** A session subscribes to the hub when its connection is accepted, so
        it sees every message sent from then on. */
    constructor (addr: Addr, registry: Registry, hub: Hub, disk: Disk)
      ensures this.addr == addr && this.registry == registry
      ensures this.hub == hub && this.disk == disk
      ensures phase == Registering && usernameBuffer == "" && buffer == ""
      ensures transcript == [] && output == [] && cursor == |hub.published|
    {
      this.addr := addr;
      this.registry := registry;
      this.hub := hub;
      this.disk := disk;
      phase := Registering;
      usernameBuffer := "";
      buffer := "";
      transcript := [];
      output := [];
      cursor := |hub.published|;
    }

    /** One turn of the registration loop: prompt, read, trim, then reject an
        empty name, report a taken one, or claim the name and announce it.
        `promptWritten` says whether writing the prompt succeeded. */
    method RegisterStep(promptWritten: bool, read: ReadOutcome)
      requires phase == Registering && registry.Valid()
      modifies this, registry, hub
      ensures registry.Valid()
      ensures buffer == old(buffer) && transcript == old(transcript) && cursor == old(cursor)
      ensures !promptWritten || read.ReadFailed? ==>
        && phase == Closed
        && output == old(output) + [EnterUsername]
        && usernameBuffer == old(usernameBuffer)
        && registry.names == old(registry.names)
        && hub.published == old(hub.published)
      ensures promptWritten && read.Received? ==>
        var typed := old(usernameBuffer) + read.text;
        var username := Trim(typed);
        if username == "" then
          && phase == Registering
          && usernameBuffer == typed
          && output == old(output) + [EnterUsername]
          && registry.names == old(registry.names)
          && hub.published == old(hub.published)
        else if username in old(registry.names).Values then
          && phase == Registering
          && usernameBuffer == ""
          && output == old(output) + [EnterUsername, NameTaken]
          && registry.names == old(registry.names)
          && hub.published == old(hub.published)
        else
          && phase == Active
          && usernameBuffer == typed
          && output == old(output) + [EnterUsername]
          && registry.names == old(registry.names)[addr := username]
          && hub.published == old(hub.published) + [(WelcomeMessage(username), addr)]
    {
      output := output + [EnterUsername];
      if !promptWritten || read.ReadFailed? {
        phase := Closed;
      } else {
        usernameBuffer := usernameBuffer + read.text;
        var username := Trim(usernameBuffer);
        if username != "" {
          TrimIdempotent(usernameBuffer);
          var taken := registry.TryRegister(addr, username);
          if taken {
            output := output + [NameTaken];
            usernameBuffer := "";
          } else {
            hub.Send(WelcomeMessage(username), addr);
            phase := Active;
          }
        }
      }
    }

    /** What running `command` did, compared with the state before: a
        recognised command publishes nothing and answers the client (the
        saved chat and a confirmation, the clear-screen code, the user
        list, or the help text); anything else publishes `message` from
        this address and changes nothing else. */
    twostate predicate CommandEffect(command: string, message: string, username: string)
      reads this, hub, disk, registry
    {
      && (IsKnownCommand(command) ==> hub.published == old(hub.published))
      && (!IsKnownCommand(command) ==>
            && hub.published == old(hub.published) + [(message, addr)]
            && output == old(output) && disk.files == old(disk.files))
      && (command == SaveText ==>
            && output == old(output) + [ChatSaved]
            && SavedTranscript(old(disk.files), disk.files, username, transcript))
      && (command == ClearScreen ==>
            output == old(output) + [ClearCode] && disk.files == old(disk.files))
      && (command == ShowUsers ==>
            && RepliedWithUserList(old(output), output, registry.names)
            && disk.files == old(disk.files))
      && (command == Help ==>
            output == old(output) + [HelpMessage] && disk.files == old(disk.files))
    }

    /** What a recognised command does, and the broadcast of any other
        line. */
    method RunCommand(command: string, message: string, username: string)
      requires registry.Valid()
      modifies this`output, hub, disk
      ensures CommandEffect(command, message, username)
    {
      if command == SaveText {
        var filtered := FilterDuplicates(transcript);
        var _ := SaveChat(username, filtered, disk);
        output := output + [ChatSaved];
      } else if command == ClearScreen {
        output := output + [ClearCode];
      } else if command == ShowUsers {
        var users := registry.Usernames();
        var listing := ShowUsersText(users);
        output := output + [listing];
      } else if command == Help {
        output := output + [HelpMessage];
      } else {
        hub.Send(message, addr);
      }
    }

    /** The read branch of the session loop. The user name is looked up
        first; without it the iteration does nothing. End of stream or a
        read error ends the session. Otherwise the line is sanitised and,
        if anything is left, recorded as "name: line" and either published
        or run as a command; the read buffer is cleared in every case. */
    method OnRead(read: ReadOutcome)
      requires phase == Active && registry.Valid()
      modifies this, hub, disk
      ensures usernameBuffer == old(usernameBuffer) && cursor == old(cursor)
      ensures addr !in registry.names ==>
        && phase == Active && buffer == old(buffer)
        && transcript == old(transcript) && output == old(output)
        && hub.published == old(hub.published) && disk.files == old(disk.files)
      ensures addr in registry.names && (read.ReadFailed? || read.text == "") ==>
        && phase == Closed && buffer == old(buffer)
        && transcript == old(transcript) && output == old(output)
        && hub.published == old(hub.published) && disk.files == old(disk.files)
      ensures addr in registry.names && read.Received? && read.text != "" ==>
        var username := registry.names[addr];
        var line := Sanitized(old(buffer) + read.text);
        var message := ChatLine(username, line);
        var command := CheckForMagicCommands(line).value;
        && phase == Active
        && buffer == ""
        && (line == "" ==>
              && transcript == old(transcript) && output == old(output)
              && hub.published == old(hub.published) && disk.files == old(disk.files))
        && (line != "" ==>
              && transcript == old(transcript) + [message]
              && CommandEffect(command, message, username))
    {
      if addr !in registry.names {
        return;
      }
      var username := registry.names[addr];
      match read
      case ReadFailed =>
        phase := Closed;
      case Received(text) =>
        if text == "" {
          phase := Closed;
          return;
        }
        HandleLine(text, username);
    }

    /** A line that was read: appended to the read buffer and sanitised;
        if anything is left it is recorded as "name: line" and either
        published or run as a command. The buffer is cleared either way. */
    method HandleLine(text: string, username: string)
      requires registry.Valid()
      modifies this`buffer, this`transcript, this`output, hub, disk
      ensures buffer == ""
      ensures var line := Sanitized(old(buffer) + text);
        && (line == "" ==>
              && transcript == old(transcript) && output == old(output)
              && hub.published == old(hub.published) && disk.files == old(disk.files))
        && (line != "" ==>
              var message := ChatLine(username, line);
              && transcript == old(transcript) + [message]
              && CommandEffect(CheckForMagicCommands(line).value, message, username))
    {
      buffer := buffer + text;
      var processedInput := ProcessBackspaces(buffer);
      if processedInput != "" {
        var message := ChatLine(username, processedInput);
        transcript := transcript + [message];
        match CheckForMagicCommands(processedInput)
        case Some(command) =>
          RunCommand(command, message, username);
        case None =>
      }
      buffer := "";
    }

    /** The receive branch of the session loop: the next message on this
        session's cursor is sanitised and always recorded, and written to
        the client only when another address sent it. `written` says whether
        that write succeeded; a failed write ends the session. */
    method OnDelivery(written: bool)
      requires phase == Active && cursor < |hub.published|
      modifies this
      ensures usernameBuffer == old(usernameBuffer) && buffer == old(buffer)
      ensures addr !in registry.names ==>
        && phase == Active && cursor == old(cursor)
        && transcript == old(transcript) && output == old(output)
      ensures addr in registry.names ==>
        var delivered := hub.published[old(cursor)];
        var line := Sanitized(delivered.0);
        && cursor == old(cursor) + 1
        && transcript == old(transcript) + [line]
        && output == (if delivered.1 != addr then old(output) + [line] else old(output))
        && phase == (if delivered.1 != addr && !written then Closed else Active)
    {
      if addr !in registry.names {
        return;
      }
      var (msg, otherAddr) := hub.published[cursor];
      cursor := cursor + 1;
      var processedMsg := ProcessBackspaces(msg);
      transcript := transcript + [processedMsg];
      if addr != otherAddr {
        output := output + [processedMsg];
        if !written {
          phase := Closed;
        }
      }
    }
  }
}
