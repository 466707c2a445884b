/** Runs of the chat server put together from the session steps, with what
    the step contracts let a client of them conclude. */
module Scenarios {
  import opened Text
  import opened Commands
  import opened Server

  /** A lower-case name typed as one line trims to itself, whatever was
      left over in the (empty) name buffer. */
  lemma TrimmedName(name: string, typed: string)
    requires IsPlainName(name)
    requires typed == name + "\n"
    ensures Trim("" + typed) == name
  {
    assert "" + typed == typed;
    assert TrimStart(typed) == typed;
    assert typed[..|typed| - 1] == name;
    assert TrimEnd(typed) == TrimEnd(name);
    assert !IsWhitespace(name[|name| - 1]);
    assert TrimEnd(name) == name;
  }

  /** A lower-case name typed on one line, with nothing left over from
      earlier turns: either it is taken and the session asks again, or the
      session joins under it. */
  method TypeName(session: Session, name: string) returns (taken: bool)
    requires session.phase == Registering && session.registry.Valid()
    requires session.usernameBuffer == ""
    requires IsPlainName(name)
    modifies session, session.registry, session.hub
    ensures session.registry.Valid()
    ensures taken <==> name in old(session.registry.names).Values
    ensures taken ==>
      && session.phase == Registering && session.usernameBuffer == ""
      && session.output == old(session.output) + [EnterUsername, NameTaken]
      && session.registry.names == old(session.registry.names)
      && session.hub.published == old(session.hub.published)
    ensures !taken ==>
      && session.phase == Active
      && session.output == old(session.output) + [EnterUsername]
      && session.registry.names == old(session.registry.names)[session.addr := name]
      && session.hub.published
         == old(session.hub.published) + [(WelcomeMessage(name), session.addr)]
  {
    TrimmedName(name, name + "\n");
    session.RegisterStep(true, Received(name + "\n"));
    taken := session.phase == Registering;
  }

  /** A name made of lower-case letters. */
  predicate IsPlainName(name: string) {
    name != [] && forall i :: 0 <= i < |name| ==> 'a' <= name[i] <= 'z'
  }

  /** Alice registers; Bob first asks for Alice's name and is told it is
      taken, then registers under his own. Both join notices go to the hub,
      in order. */
  method RegistrationRace(aliceAddr: Addr, bobAddr: Addr, alicesName: string, bobsName: string)
    requires aliceAddr != bobAddr && alicesName != bobsName
    requires IsPlainName(alicesName) && IsPlainName(bobsName)
  {
    var registry := new Registry();
    var hub := new Hub();
    var disk := new Disk(map[]);
    var alice := new Session(aliceAddr, registry, hub, disk);
    var bob := new Session(bobAddr, registry, hub, disk);

    var taken := TypeName(alice, alicesName);
    assert !taken && alice.phase == Active;
    assert registry.names == map[aliceAddr := alicesName];
    assert registry.names[aliceAddr] == alicesName;
    assert hub.published == [(WelcomeMessage(alicesName), aliceAddr)];
    taken := TypeName(bob, alicesName);
    assert taken && bob.phase == Registering && bob.output == [EnterUsername, NameTaken];
    assert registry.names.Values == {alicesName};
    taken := TypeName(bob, bobsName);
    assert !taken && bob.phase == Active;
    assert registry.names == map[aliceAddr := alicesName, bobAddr := bobsName];
    assert hub.published
        == [(WelcomeMessage(alicesName), aliceAddr), (WelcomeMessage(bobsName), bobAddr)];
  }

  /** An ordinary line, typed into an empty buffer, is recorded and
      published and nothing is written back. */
  method SendPlainLine(alice: Session, text: string) returns (message: string)
    requires alice.registry.Valid() && alice.phase == Active
    requires alice.addr in alice.registry.names && alice.buffer == ""
    requires text != "" && Backspace !in text && '&' !in text
    modifies alice, alice.hub, alice.disk
    ensures message == ChatLine(alice.registry.names[alice.addr], text)
    ensures alice.phase == Active && alice.cursor == old(alice.cursor)
    ensures alice.transcript == old(alice.transcript) + [message]
    ensures alice.output == old(alice.output)
    ensures alice.hub.published == old(alice.hub.published) + [(message, alice.addr)]
  {
    message := ChatLine(alice.registry.names[alice.addr], text);
    assert "" + text == text;
    SanitizedWithoutBackspace(text);
    ClassifyNoMatch(text);
    alice.OnRead(Received(text));
  }

  /** Alice sends an ordinary line while Bob and she are both caught up with
      the hub. Bob is sent "alice: line"; Alice is not, but her transcript
      records it twice: once when she sends it and once when the hub hands
      it back. */
  method OwnLineEchoedIntoTranscriptOnly(alice: Session, bob: Session, text: string)
    requires alice.registry == bob.registry && alice.hub == bob.hub && alice.disk == bob.disk
    requires alice.registry.Valid() && alice.addr != bob.addr
    requires alice.phase == Active && bob.phase == Active
    requires alice.addr in alice.registry.names && bob.addr in alice.registry.names
    requires Backspace !in alice.registry.names[alice.addr]
    requires alice.cursor == |alice.hub.published| == bob.cursor
    requires alice.buffer == "" && text != ""
    requires Backspace !in text && '&' !in text
    modifies alice, bob, alice.hub, alice.disk
    ensures var message := ChatLine(alice.registry.names[alice.addr], text);
      && bob.transcript == old(bob.transcript) + [message]
      && bob.output == old(bob.output) + [message]
      && alice.transcript == old(alice.transcript) + [message] + [message]
      && alice.output == old(alice.output)
  {
    var message := SendPlainLine(alice, text);
    assert Backspace !in message;
    SanitizedWithoutBackspace(message);
    bob.OnDelivery(true);
    alice.OnDelivery(true);
  }

  /** A session that ends does not give up its name: the entry stays in the
      map, so a later session asking for the same name is refused. */
  method NameOutlivesSession(bobAddr: Addr, carolAddr: Addr, name: string)
    requires bobAddr != carolAddr && IsPlainName(name)
  {
    var registry := new Registry();
    var hub := new Hub();
    var disk := new Disk(map[]);
    var bob := new Session(bobAddr, registry, hub, disk);
    var carol := new Session(carolAddr, registry, hub, disk);

    var taken := TypeName(bob, name);
    assert registry.names[bobAddr] == name;
    bob.OnRead(Received(""));
    assert bob.phase == Closed;
    taken := TypeName(carol, name);
    assert taken && carol.phase == Registering && carol.output == [EnterUsername, NameTaken];
  }

  /** With only "alice.txt" on disk, Alice's next save goes to
      "alice_1.txt" and leaves the older file alone. */
  lemma SaveBesideExisting(before: map<string, string>, after: map<string, string>,
                           transcript: seq<string>)
    requires before == map["alice.txt" := "an older chat"]
    requires SavedTranscript(before, after, "alice", transcript)
    ensures after == map["alice.txt" := "an older chat",
                         "alice_1.txt" := JoinLines(Deduplicated(transcript))]
  {
    var existing := before.Keys;
    assert existing == {"alice.txt"};
    var f :| IsFirstFreeName(f, "alice", existing)
      && after == before[f := JoinLines(Deduplicated(transcript))];
    assert DecimalString(1) == "1";
    assert "alice" + ".txt" == "alice.txt";
    assert FileCandidate("alice", 1) == "alice_1.txt";
    assert IsFirstFreeName("alice_1.txt", "alice", existing);
    FirstFreeNameUnique(f, "alice_1.txt", "alice", existing);
  }

  /** A line that asks for a save, typed into an empty buffer, is recorded
      and then saved; nothing is published. */
  method TypeSaveCommand(alice: Session, line: string)
    requires alice.registry.Valid() && alice.phase == Active && alice.buffer == ""
    requires alice.addr in alice.registry.names
    requires line != "" && Backspace !in line
    requires CheckForMagicCommands(line) == Some(SaveText)
    modifies alice, alice.hub, alice.disk
    ensures alice.transcript == old(alice.transcript) + [ChatLine(alice.registry.names[alice.addr], line)]
    ensures alice.output == old(alice.output) + [ChatSaved]
    ensures alice.hub.published == old(alice.hub.published)
    ensures SavedTranscript(old(alice.disk.files), alice.disk.files,
                            alice.registry.names[alice.addr], alice.transcript)
  {
    assert "" + line == line;
    SanitizedWithoutBackspace(line);
    alice.OnRead(Received(line));
  }

  /** Saving when "alice.txt" already exists writes "alice_1.txt"; the
      saved chat holds the save command's own line. */
  method SaveNextToExistingFile(alice: Session, line: string)
    requires alice.registry.Valid() && alice.phase == Active && alice.buffer == ""
    requires alice.addr in alice.registry.names && alice.registry.names[alice.addr] == "alice"
    requires alice.disk.files == map["alice.txt" := "an older chat"]
    requires line != "" && Backspace !in line
    requires CheckForMagicCommands(line) == Some(SaveText)
    modifies alice, alice.hub, alice.disk
    ensures alice.disk.files == map["alice.txt" := "an older chat",
                                    "alice_1.txt" := JoinLines(Deduplicated(alice.transcript))]
    ensures ChatLine("alice", line) in Deduplicated(alice.transcript)
  {
    TypeSaveCommand(alice, line);
    SaveIncludesCommandLine(old(alice.transcript), ChatLine("alice", line));
    SaveBesideExisting(old(alice.disk.files), alice.disk.files, alice.transcript);
  }
}
