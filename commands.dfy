/** The chat commands of `src/commands.rs`: duplicate filtering of a
    transcript, recognition of a `&word` command in a line, the file name and
    content chosen when a chat is saved, and the text of the user listing. */
module Commands {
  import opened Text

  datatype Option<T> = None | Some(value: T)

  // ---------------------------------------------------------------------
  // filter_duplicates
  // ---------------------------------------------------------------------

  predicate NoDuplicates(xs: seq<string>) {
    forall i, j :: 0 <= i < j < |xs| ==> xs[i] != xs[j]
  }

  /** Stable, first-occurrence-wins deduplication: each element of `xs` is
      kept the first time it is seen and dropped afterwards. */
  function Deduplicated(xs: seq<string>): (r: seq<string>)
    decreases |xs|
  {
    if xs == [] then []
    else
      var kept := Deduplicated(xs[..|xs| - 1]);
      if xs[|xs| - 1] in kept then kept else kept + [xs[|xs| - 1]]
  }

  /** `filter_duplicates`: walks the history once, remembering what it has
      seen in a set, and keeps a message only when inserting it into the set
      succeeds. */
  method FilterDuplicates(chatHistory: seq<string>) returns (filteredHistory: seq<string>)
    ensures filteredHistory == Deduplicated(chatHistory)
  {
    var uniqueMessages: set<string> := {};
    filteredHistory := [];
    for i := 0 to |chatHistory|
      invariant filteredHistory == Deduplicated(chatHistory[..i])
      invariant forall m :: m in uniqueMessages <==> m in filteredHistory
    {
      var message := chatHistory[i];
      var inserted := message !in uniqueMessages;
      uniqueMessages := uniqueMessages + {message};
      if inserted {
        filteredHistory := filteredHistory + [message];
      }
      assert chatHistory[..i + 1][..i] == chatHistory[..i];
    }
    assert chatHistory[..|chatHistory|] == chatHistory;
  }

  /** The filtered history never holds a message twice. */
  lemma {:induction false} DeduplicatedNoDuplicates(xs: seq<string>)
    ensures NoDuplicates(Deduplicated(xs))
    decreases |xs|
  {
    if xs != [] {
      DeduplicatedNoDuplicates(xs[..|xs| - 1]);
    }
  }

  /** The filtered history holds exactly the messages of the input, and is
      no longer than it. */
  lemma {:induction false} DeduplicatedElements(xs: seq<string>)
    ensures forall m :: m in Deduplicated(xs) <==> m in xs
    ensures |Deduplicated(xs)| <= |xs|
    decreases |xs|
  {
    if xs != [] {
      var init := xs[..|xs| - 1];
      DeduplicatedElements(init);
      assert xs == init + [xs[|xs| - 1]];
    }
  }

  /** Position of the first occurrence of `m` in `xs`. */
  function FirstIndex(xs: seq<string>, m: string): (k: nat)
    requires m in xs
    ensures k < |xs| && xs[k] == m
    ensures forall j :: 0 <= j < k ==> xs[j] != m
  {
    if xs[0] == m then 0 else 1 + FirstIndex(xs[1..], m)
  }

  /** The filtered history is the subsequence of first occurrences: its
      elements sit, in order, at strictly increasing first-occurrence
      positions of the input. */
  lemma {:induction false} DeduplicatedFirstOccurrenceOrder(xs: seq<string>)
    ensures forall m :: m in Deduplicated(xs) ==> m in xs
    ensures forall i, j :: 0 <= i < j < |Deduplicated(xs)| ==>
      FirstIndex(xs, Deduplicated(xs)[i]) < FirstIndex(xs, Deduplicated(xs)[j])
    decreases |xs|
  {
    DeduplicatedElements(xs);
    if xs != [] {
      var init, last := xs[..|xs| - 1], xs[|xs| - 1];
      var kept := Deduplicated(init);
      DeduplicatedFirstOccurrenceOrder(init);
      DeduplicatedElements(init);
      assert xs == init + [last];
      forall m | m in init ensures FirstIndex(xs, m) == FirstIndex(init, m) {
        var a, b := FirstIndex(xs, m), FirstIndex(init, m);
        assert xs[b] == m;
      }
      var d := Deduplicated(xs);
      forall i, j | 0 <= i < j < |d|
        ensures FirstIndex(xs, d[i]) < FirstIndex(xs, d[j])
      {
        if j < |kept| {
          assert d[i] == kept[i] && d[j] == kept[j];
        } else {
          assert d[j] == last && last !in init;
          assert d[i] == kept[i] && kept[i] in init;
        }
      }
    }
  }

  /** On a history with no duplicates the filter changes nothing. */
  lemma {:induction false} DeduplicatedOfDistinct(xs: seq<string>)
    requires NoDuplicates(xs)
    ensures Deduplicated(xs) == xs
    decreases |xs|
  {
    if xs != [] {
      var init := xs[..|xs| - 1];
      DeduplicatedOfDistinct(init);
      DeduplicatedElements(init);
      assert xs[|xs| - 1] !in init;
    }
  }

  /** Filtering twice is filtering once. */
  lemma DeduplicatedIdempotent(xs: seq<string>)
    ensures Deduplicated(Deduplicated(xs)) == Deduplicated(xs)
  {
    DeduplicatedNoDuplicates(xs);
    DeduplicatedOfDistinct(Deduplicated(xs));
  }

  // ---------------------------------------------------------------------
  // check_for_magic_commands
  // ---------------------------------------------------------------------

  const SaveText: string := "&save_text"
  const ClearScreen: string := "&clear_screen"
  const ShowUsers: string := "&show_users"
  const Help: string := "&help"
  /** What the classifier returns both for a line without a command and for
      an unknown command. */
  const NoCommand: string := "None"

  /** `[a-zA-Z_]` */
  predicate IsIdentStart(c: char) {
    ('a' <= c <= 'z') || ('A' <= c <= 'Z') || c == '_'
  }

  /** `[a-zA-Z0-9_]` */
  predicate IsIdentChar(c: char) {
    IsIdentStart(c) || ('0' <= c <= '9')
  }

  /** A match of `&[a-zA-Z_][a-zA-Z0-9_]*` can start at position `i`. */
  predicate MatchStartsAt(s: string, i: int) {
    0 <= i && i + 1 < |s| && s[i] == '&' && IsIdentStart(s[i + 1])
  }

  /** `s[i..j]` is a match of the pattern whose repetition is greedy, that is,
      it cannot be extended by another identifier character. */
  predicate IsMaximalMatch(s: string, i: int, j: int) {
    MatchStartsAt(s, i) && i + 2 <= j <= |s|
    && (forall k :: i + 2 <= k < j ==> IsIdentChar(s[k]))
    && (j == |s| || !IsIdentChar(s[j]))
  }

  /** What the regular-expression search reports: the leftmost match, taken
      as long as possible. */
  predicate IsLeftmostMatch(s: string, i: int, j: int) {
    IsMaximalMatch(s, i, j) && forall k :: 0 <= k < i ==> !MatchStartsAt(s, k)
  }

  datatype Span = Span(start: nat, end: nat)

  /** The end of the run of identifier characters that begins at `j`. */
  function IdentEnd(s: string, j: nat): (e: nat)
    requires j <= |s|
    ensures j <= e <= |s|
    ensures forall k :: j <= k < e ==> IsIdentChar(s[k])
    ensures e == |s| || !IsIdentChar(s[e])
    decreases |s| - j
  {
    if j < |s| && IsIdentChar(s[j]) then IdentEnd(s, j + 1) else j
  }

  /** Scans `s` from position `i` for the first place a match starts. */
  function FindFrom(s: string, i: nat): (r: Option<Span>)
    requires i <= |s|
    ensures r.None? ==> forall k :: i <= k ==> !MatchStartsAt(s, k)
    ensures r.Some? ==>
              && i <= r.value.start
              && IsMaximalMatch(s, r.value.start, r.value.end)
              && forall k :: i <= k < r.value.start ==> !MatchStartsAt(s, k)
    decreases |s| - i
  {
    if i + 1 >= |s| then None
    else if MatchStartsAt(s, i) then Some(Span(i, IdentEnd(s, i + 2)))
    else FindFrom(s, i + 1)
  }

  /** The match `Regex::find` reports for `&[a-zA-Z_][a-zA-Z0-9_]*`. */
  function FindCommand(s: string): Option<Span> {
    FindFrom(s, 0)
  }

  /** The scan finds exactly the leftmost, longest match, and finds nothing
      exactly when no match starts anywhere. */
  lemma FindCommandIsLeftmostMatch(s: string, i: nat, j: nat)
    ensures FindCommand(s) == Some(Span(i, j)) <==> IsLeftmostMatch(s, i, j)
    ensures FindCommand(s) == None <==> forall k :: 0 <= k < |s| ==> !MatchStartsAt(s, k)
  {
    var r := FindCommand(s);
    if IsLeftmostMatch(s, i, j) {
      assert MatchStartsAt(s, i);
    }
    if r.Some? {
      assert MatchStartsAt(s, r.value.start);
    }
  }

  /** `check_for_magic_commands`: looks only at the leftmost match and
      recognises it only if it is one of the four commands exactly. Unknown
      commands and lines without a command both give `Some("None")`. */
  function CheckForMagicCommands(text: string): (r: Option<string>)
    ensures r.Some?
    ensures r.value == SaveText || r.value == ClearScreen || r.value == ShowUsers
      || r.value == Help || r.value == NoCommand
  {
    match FindCommand(text)
    case Some(m) =>
      var token := text[m.start..m.end];
      if token == SaveText then Some(SaveText)
      else if token == ClearScreen then Some(ClearScreen)
      else if token == ShowUsers then Some(ShowUsers)
      else if token == Help then Some(Help)
      else Some(NoCommand)
    case None => Some(NoCommand)
  }

  predicate IsKnownCommand(token: string) {
    token == SaveText || token == ClearScreen || token == ShowUsers || token == Help
  }

  /** The classification in terms of the leftmost match: the matched token
      itself when it is a known command, and "None" otherwise. */
  lemma ClassifyLeftmostMatch(text: string, i: nat, j: nat)
    requires IsLeftmostMatch(text, i, j)
    ensures CheckForMagicCommands(text)
      == Some(if IsKnownCommand(text[i..j]) then text[i..j] else NoCommand)
  {
    FindCommandIsLeftmostMatch(text, i, j);
  }

  /** A line in which no match starts is classified "None". */
  lemma ClassifyNoMatch(text: string)
    requires forall k :: 0 <= k < |text| ==> !MatchStartsAt(text, k)
    ensures CheckForMagicCommands(text) == Some(NoCommand)
  {
    FindCommandIsLeftmostMatch(text, 0, 0);
  }

  /** A command preceded by text without any '&' and followed by anything
      that cannot extend the word (the end of the line, a space, a newline)
      is recognised as that command. */
  lemma ClassifyCommandInLine(prefix: string, command: string, rest: string)
    requires '&' !in prefix && IsKnownCommand(command)
    requires rest == [] || !IsIdentChar(rest[0])
    ensures CheckForMagicCommands(prefix + command + rest) == Some(command)
  {
    var s, i, n := prefix + command + rest, |prefix|, |command|;
    assert IsIdentStart(command[1]) && forall k :: 2 <= k < n ==> IsIdentChar(command[k]);
    assert s[i..i + n] == command;
    forall k | 0 <= k < i ensures !MatchStartsAt(s, k) {
      assert s[k] == prefix[k];
    }
    assert IsLeftmostMatch(s, i, i + n);
    ClassifyLeftmostMatch(s, i, i + n);
  }

  /** A longer word that starts with a command is not that command. */
  lemma ClassifyLongerWord()
    ensures CheckForMagicCommands("&helpme") == Some(NoCommand)
  {
    assert IsLeftmostMatch("&helpme", 0, 7);
    ClassifyLeftmostMatch("&helpme", 0, 7);
  }

  /** Only the first `&word` counts: a known command after an unknown one is
      ignored. */
  lemma ClassifyFirstMatchOnly()
    ensures CheckForMagicCommands("&foo &help") == Some(NoCommand)
  {
    assert IsLeftmostMatch("&foo &help", 0, 4);
    ClassifyLeftmostMatch("&foo &help", 0, 4);
  }

  // ---------------------------------------------------------------------
  // save_chat
  // ---------------------------------------------------------------------

  /** The files that exist, by name, with their contents. */
  class Disk {
    var files: map<string, string>

    constructor (files: map<string, string>)
      ensures this.files == files
    {
      this.files := files;
    }
  }

  /** The `k`-th file name `save_chat` tries: `name.txt`, then `name_1.txt`,
      `name_2.txt`, and so on. */
  function FileCandidate(username: string, k: nat): string {
    if k == 0 then username + ".txt" else username + "_" + DecimalString(k) + ".txt"
  }

  /** Different attempts try different names, which is why the search ends. */
  lemma FileCandidateInjective(username: string, j: nat, k: nat)
    requires FileCandidate(username, j) == FileCandidate(username, k)
    ensures j == k
  {
    var a, b := FileCandidate(username, j), FileCandidate(username, k);
    if j != 0 && k != 0 {
      var n := |username| + 1;
      assert a[n..|a| - 4] == DecimalString(j);
      assert b[n..|b| - 4] == DecimalString(k);
      DecimalStringInjective(j, k);
    }
  }

  /** The first `n` candidate names. */
  ghost function CandidatesBelow(username: string, n: nat): set<string>
    decreases n
  {
    if n == 0 then {} else CandidatesBelow(username, n - 1) + {FileCandidate(username, n - 1)}
  }

  /** The first `n` candidates are exactly the ones numbered below `n`. */
  lemma {:induction false} CandidatesBelowMembers(username: string, n: nat)
    ensures forall j :: 0 <= j < n ==> FileCandidate(username, j) in CandidatesBelow(username, n)
    decreases n
  {
    if n > 0 {
      CandidatesBelowMembers(username, n - 1);
      forall j | 0 <= j < n
        ensures FileCandidate(username, j) in CandidatesBelow(username, n)
      {
        if j < n - 1 {
          assert FileCandidate(username, j) in CandidatesBelow(username, n - 1);
        }
      }
    }
  }

  /** The next candidate is none of the ones before it. */
  lemma {:induction false} NotYetTried(username: string, n: nat, m: nat)
    requires n <= m
    ensures FileCandidate(username, m) !in CandidatesBelow(username, n)
    decreases n
  {
    if n > 0 {
      NotYetTried(username, n - 1, m);
      if FileCandidate(username, n - 1) == FileCandidate(username, m) {
        FileCandidateInjective(username, n - 1, m);
      }
    }
  }

  /** `fileName` is the first candidate name for `username` under which no
      file exists. */
  ghost predicate IsFirstFreeName(fileName: string, username: string, existing: set<string>) {
    && fileName !in existing
    && exists k: nat ::
         && fileName == FileCandidate(username, k)
         && forall j :: 0 <= j < k ==> FileCandidate(username, j) in existing
  }

  /** There is only one first free name: the choice is determined by the
      set of existing files. */
  lemma FirstFreeNameUnique(f: string, g: string, username: string, existing: set<string>)
    requires IsFirstFreeName(f, username, existing) && IsFirstFreeName(g, username, existing)
    ensures f == g
  {
  }

  /** The file-name choice of `save_chat`. */
  method ChooseFileName(username: string, existing: set<string>) returns (fileName: string)
    ensures IsFirstFreeName(fileName, username, existing)
  {
    fileName := username + ".txt";
    var counter := 1;
    ghost var tried: set<string> := {};
    while fileName in existing
      invariant 1 <= counter
      invariant fileName == FileCandidate(username, counter - 1)
      invariant tried == CandidatesBelow(username, counter - 1) && tried <= existing
      decreases existing - tried
    {
      NotYetTried(username, counter - 1, counter - 1);
      tried := tried + {fileName};
      fileName := username + "_" + DecimalString(counter) + ".txt";
      counter := counter + 1;
    }
    ghost var k: nat := counter - 1;
    CandidatesBelowMembers(username, k);
    assert fileName == FileCandidate(username, k);
    assert forall j :: 0 <= j < k ==> FileCandidate(username, j) in existing;
  }

  /** The file content of `save_chat`: the lines joined with "\n". */
  function JoinLines(lines: seq<string>): (r: string)
    decreases |lines|
  {
    if |lines| == 0 then ""
    else if |lines| == 1 then lines[0]
    else lines[0] + "\n" + JoinLines(lines[1..])
  }

  /** Splits a text at every "\n"; the inverse of `JoinLines`. */
  function SplitLines(s: string): (r: seq<string>)
    ensures |r| >= 1
    decreases |s|
  {
    if |s| == 0 then [""]
    else if s[0] == '\n' then [""] + SplitLines(s[1..])
    else
      var rest := SplitLines(s[1..]);
      [[s[0]] + rest[0]] + rest[1..]
  }

  lemma {:induction false} SplitLinesAfterLine(line: string, s: string)
    requires '\n' !in line
    ensures SplitLines(line + "\n" + s) == [line] + SplitLines(s)
    ensures SplitLines(line) == [line]
    decreases |line|
  {
    if line != [] {
      SplitLinesAfterLine(line[1..], s);
      assert (line + "\n" + s)[1..] == line[1..] + "\n" + s;
      assert [line[0]] + line[1..] == line;
    } else {
      assert line + "\n" + s == "\n" + s;
      assert ("\n" + s)[1..] == s;
    }
  }

  /** A saved file can be read back into its lines, as long as no line
      carries a "\n" of its own. */
  lemma {:induction false} SplitJoinLines(lines: seq<string>)
    requires |lines| >= 1
    requires forall i :: 0 <= i < |lines| ==> '\n' !in lines[i]
    ensures SplitLines(JoinLines(lines)) == lines
    decreases |lines|
  {
    if |lines| == 1 {
      SplitLinesAfterLine(lines[0], "");
    } else {
      SplitJoinLines(lines[1..]);
      SplitLinesAfterLine(lines[0], JoinLines(lines[1..]));
    }
  }

  /** `save_chat`: writes the lines, joined with "\n", to a fresh file named
      after the user. Creating and writing the file are not modelled as able
      to fail. */
  method SaveChat(username: string, messageContent: seq<string>, disk: Disk)
    returns (fileName: string)
    modifies disk
    ensures IsFirstFreeName(fileName, username, old(disk.files).Keys)
    ensures disk.files == old(disk.files)[fileName := JoinLines(messageContent)]
  {
    var chatContent := JoinLines(messageContent);
    fileName := ChooseFileName(username, disk.files.Keys);
    disk.files := disk.files[fileName := chatContent];
  }

  // ---------------------------------------------------------------------
  // show_users, clear_terminals, display_help
  // ---------------------------------------------------------------------

  const UsersHeader: string := "Current users in the chat:\n\r"

  /** One "- name\n\r" line per user, in the given order. */
  function UserLines(users: seq<string>): string
    decreases |users|
  {
    if users == [] then ""
    else UserLines(users[..|users| - 1]) + "- " + users[|users| - 1] + "\n\r"
  }

  /** The text `show_users` sends. */
  function UserListing(users: seq<string>): string {
    UsersHeader + UserLines(users)
  }

  /** The listing of a concatenation is the concatenation of the listings,
      so each user's line stands in the order the users were given. */
  lemma {:induction false} UserLinesAppend(a: seq<string>, b: seq<string>)
    ensures UserLines(a + b) == UserLines(a) + UserLines(b)
    decreases |b|
  {
    if b == [] {
      assert a + b == a;
    } else {
      var init, last := b[..|b| - 1], b[|b| - 1];
      UserLinesAppend(a, init);
      assert (a + b)[..|a + b| - 1] == a + init;
      calc {
        UserLines(a + b);
        UserLines(a + init) + "- " + last + "\n\r";
        UserLines(a) + UserLines(init) + "- " + last + "\n\r";
        UserLines(a) + (UserLines(init) + "- " + last + "\n\r");
        UserLines(a) + UserLines(b);
      }
    }
  }

  /** Each user's line sits between the lines of the users before it and
      those of the users after it. */
  lemma UserLinesEntry(before: seq<string>, user: string, after: seq<string>)
    ensures UserLines(before + [user] + after)
      == UserLines(before) + "- " + user + "\n\r" + UserLines(after)
  {
    var upTo := before + [user];
    assert upTo[..|before|] == before;
    UserLinesAppend(upTo, after);
  }

  /** `show_users`: builds the listing with one `push_str` per user. */
  method ShowUsersText(users: seq<string>) returns (userList: string)
    ensures userList == UserListing(users)
  {
    userList := UsersHeader;
    for i := 0 to |users|
      invariant userList == UsersHeader + UserLines(users[..i])
    {
      userList := userList + ("- " + users[i] + "\n\r");
      assert users[..i + 1][..i] == users[..i];
    }
    assert users[..|users|] == users;
  }

  /** The ANSI sequence `clear_terminals` sends. */
  const ClearCode: string := "\U{1B}[2J\U{1B}[H"

  /** The text `display_help` sends, indentation included. */
  const HelpMessage: string :=
    "\n    \n\rMagic Commands:\n    \n\r- &save_text: Save the current chat history to a file.\n    \n\r- &clear_screen: Clear your terminal screen.\n    \n\r- &show_users: Display a list of all users in the chat.\n    \n\r- &help: Display this help message.\r\n    \r"
}
