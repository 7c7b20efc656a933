/**
  The NUT client's protocol engine (nut.go): command framing, the choice of
  end line and response mode, `ERR` detection, and the operations built on
  `SendCommand` — logout, authentication, the UPS list and the one-line
  queries.

  A session is a value: the wire text written so far and the server lines not
  yet read. Each operation takes a session and returns its result together with
  the session after the exchange.
 */
module Nut {
  import opened GoStrings
  import opened Response

  /** Commands written to the server, oldest first, and server lines not yet read. */
  datatype Session = Session(sent: seq<string>, pending: seq<string>)

  /** The outcome of one operation and the session it leaves behind. */
  datatype Step<+T> = Step(result: Result<T>, session: Session)

  /**
    The wire form of a command: its text and a newline. A command without a
    newline of its own goes out as exactly one protocol line.
   */
  function Wire(cmd: string): (w: string)
    ensures |w| == |cmd| + 1 && w[..|cmd|] == cmd && w[|cmd|] == '\n'
    ensures '\n' !in cmd ==> WellFormedLine(w)
  {
    assert (cmd + "\n")[..|cmd|] == cmd;
    cmd + "\n"
  }

  /**
    Verbs for which the client picks "OK\n" as the end line. Each verb ends in
    a space, and none of them is LIST.
   */
  predicate AwaitsOk(wire: string): (b: bool)
    ensures b ==> ' ' in wire && !HasPrefix(wire, "LIST ")
  {
    OkVerbs(wire);
    || HasPrefix(wire, "USERNAME ")
    || HasPrefix(wire, "PASSWORD ")
    || HasPrefix(wire, "SET ")
    || HasPrefix(wire, "HELP ")
    || HasPrefix(wire, "VER ")
    || HasPrefix(wire, "NETVER ")
  }

  /**
    The end line chosen for a wire command: "OK\n" exactly for the verbs that
    await it, and otherwise the command echoed after "END ".
   */
  function EndLine(wire: string): (e: string)
    ensures AwaitsOk(wire) <==> e == "OK\n"
    ensures !AwaitsOk(wire) ==> HasPrefix(e, "END ") && e[4..] == wire
  {
    if AwaitsOk(wire) then "OK\n" else "END " + wire
  }

  /**
    Multi-line mode is on exactly for wire commands starting with "LIST ";
    such a command never awaits "OK\n".
   */
  predicate MultiLine(wire: string): (b: bool)
    ensures b ==> ' ' in wire && |wire| >= 5 && !AwaitsOk(wire)
  {
    SpacedPrefix(wire, "LIST ");
    HasPrefix(wire, "LIST ")
  }

  /**
    The verbs given the "OK\n" end line are never read in multi-line mode, so
    that end line never decides when reading stops: the read is the same as
    with any other end line.
   */
  lemma OkEndLineIsInert(cmd: string, input: seq<string>, other: string)
    requires AwaitsOk(Wire(cmd))
    ensures EndLine(Wire(cmd)) == "OK\n"
    ensures !MultiLine(Wire(cmd))
    ensures ReadResponse(input, EndLine(Wire(cmd)), MultiLine(Wire(cmd))) == ReadResponse(input, other, false)
  {
    var w := Wire(cmd);
    assert w[0] != 'L' by {
      assert w[0] in {'U', 'P', 'S', 'H', 'V', 'N'};
    }
    SingleLineIgnoresEndLine(input, EndLine(w), other, []);
  }

  /** A LIST command waits for its own echo: "END ", the command, a newline. */
  lemma ListEndLine(cmd: string)
    requires MultiLine(Wire(cmd))
    ensures EndLine(Wire(cmd)) == "END " + cmd + "\n"
  {
    var w := Wire(cmd);
    assert w[0] == 'L';
    assert !AwaitsOk(w);
  }

  /** Whatever starts with a text containing a space contains a space. */
  lemma SpacedPrefix(s: string, prefix: string)
    ensures HasPrefix(s, prefix) && ' ' in prefix ==> ' ' in s
  {
  }

  /** Helper for the solver only, used by `AwaitsOk`: each of its verbs ends in a space and none starts like "LIST ". */
  lemma OkVerbs(wire: string)
    ensures || HasPrefix(wire, "USERNAME ") || HasPrefix(wire, "PASSWORD ") || HasPrefix(wire, "SET ")
            || HasPrefix(wire, "HELP ") || HasPrefix(wire, "VER ") || HasPrefix(wire, "NETVER ")
            ==> ' ' in wire && !HasPrefix(wire, "LIST ")
  {
    SpacedPrefix(wire, "USERNAME ");
    SpacedPrefix(wire, "PASSWORD ");
    SpacedPrefix(wire, "SET ");
    SpacedPrefix(wire, "HELP ");
    SpacedPrefix(wire, "VER ");
    SpacedPrefix(wire, "NETVER ");
    if HasPrefix(wire, "LIST ") {
      assert wire[0] == 'L';
    }
  }

  /**
    Every verb the client looks for ends in a space, so a command without
    spaces is read in single-line mode and its end line is its own "END "
    echo, never "OK\n".
   */
  lemma SpacelessCommand(cmd: string)
    requires ' ' !in cmd
    ensures !MultiLine(Wire(cmd)) && !AwaitsOk(Wire(cmd))
    ensures EndLine(Wire(cmd)) == "END " + cmd + "\n"
  {
    var w := Wire(cmd);
    assert ' ' !in w;
  }

  /**
    The bare queries do not match the "HELP ", "VER " and "NETVER " prefixes:
    they are single-line commands whose end line is their own "END " echo.
   */
  lemma BareQueriesAreSingleLine()
    ensures !MultiLine(Wire("HELP")) && EndLine(Wire("HELP")) == "END " + "HELP" + "\n"
    ensures !MultiLine(Wire("VER")) && EndLine(Wire("VER")) == "END " + "VER" + "\n"
    ensures !MultiLine(Wire("NETVER")) && EndLine(Wire("NETVER")) == "END " + "NETVER" + "\n"
  {
    SpacelessCommand("HELP");
    SpacelessCommand("VER");
    SpacelessCommand("NETVER");
  }

  /**
    The error code of an `ERR` line: the second space-separated field, i.e. the
    longest space-free text after "ERR ", followed by the end of the line or by
    a space.
   */
  function ErrorCode(line: string): (code: string)
    requires HasPrefix(line, "ERR ")
    ensures ' ' !in code
    ensures HasPrefix(line, "ERR " + code)
    ensures |line| == 4 + |code| || line[4 + |code|] == ' '
  {
    assert line == "ERR" + [' '] + line[4..];
    SplitAtFirst("ERR", line[4..], ' ');
    SplitFirstPiece(line[4..], ' ');
    Split(line, ' ')[1]
  }

  /** The code is recovered from any `ERR <code>[ <detail>]` line. */
  lemma ErrorCodeOf(code: string, detail: string)
    requires ' ' !in code
    requires detail == "" || detail[0] == ' '
    ensures ErrorCode("ERR " + code + detail) == code
  {
    var line := "ERR " + code + detail;
    assert HasPrefix(line, "ERR ");
    var r := ErrorCode(line);
    assert line[4..4 + |code|] == code;
    assert line[4..4 + |r|] == r;
  }

  /**
    What a command returns for a reassembled response: a server error when the
    first line starts with "ERR ", the lines unchanged otherwise.
   */
  function Outcome(resp: seq<string>): (r: Result<seq<string>>)
    requires |resp| >= 1
    ensures r.Success? <==> !HasPrefix(resp[0], "ERR ")
    ensures r.Success? ==> r.value == resp
    ensures r.Failure? ==> r.error.ServerError? && ' ' !in r.error.code && HasPrefix(resp[0], "ERR " + r.error.code)
    ensures r.Failure? ==> |resp[0]| == 4 + |r.error.code| || resp[0][4 + |r.error.code|] == ' '
  {
    if HasPrefix(resp[0], "ERR ") then Failure(ServerError(ErrorCode(resp[0]))) else Success(resp)
  }

  /**
    `SendCommand`: writes the framed command, reads the response in the mode
    and with the end line its verb selects, and turns an `ERR` first line into a
    server error.
   */
  function SendCommand(s: Session, cmd: string): (r: Step<seq<string>>)
    ensures r.session.sent == s.sent + [cmd + "\n"]
    ensures r.result.Success? ==> |r.result.value| >= 1 && !HasPrefix(r.result.value[0], "ERR ")
    ensures |r.session.pending| <= |s.pending|
    ensures r.session.pending == s.pending[|s.pending| - |r.session.pending|..]
    ensures r.result.Success? ==> |r.session.pending| < |s.pending|
    ensures |s.pending| == 0 ==> r.result == Failure(ReadFailed)
  {
    var wire := Wire(cmd);
    var sent := s.sent + [wire];
    match ReadResponse(s.pending, EndLine(wire), MultiLine(wire))
    case Failure(e) => Step(Failure(e), Session(sent, []))
    case Success(reply) => Step(Outcome(reply.lines), Session(sent, reply.rest))
  }

  /**
    A command not starting with "LIST " consumes exactly the next line: its
    response is that line without the newline, unless it is an `ERR` line,
    whatever the verb and whatever follows.
   */
  lemma SendSingleLineCommand(s: Session, cmd: string)
    requires !MultiLine(Wire(cmd))
    requires |s.pending| >= 1 && WellFormedLine(s.pending[0])
    ensures SendCommand(s, cmd).session == Session(s.sent + [cmd + "\n"], s.pending[1..])
    ensures SendCommand(s, cmd).result == Outcome([Chomp(s.pending[0])])
  {
    ReadOneLine(s.pending, EndLine(Wire(cmd)));
  }

  /** An empty line answering a single-line command is the one-line response [""]. */
  lemma EmptyLineReply(s: Session, cmd: string)
    requires !MultiLine(Wire(cmd))
    requires |s.pending| >= 1 && s.pending[0] == "\n"
    ensures SendCommand(s, cmd).result == Success([""])
    ensures SendCommand(s, cmd).session.pending == s.pending[1..]
  {
    assert WellFormedLine(s.pending[0]) && Chomp(s.pending[0]) == "" by {
      assert s.pending[0] == "" + "\n";
      FramedText("");
    }
    SendSingleLineCommand(s, cmd);
  }

  /**
    A LIST command consumes the lines up to and including the first one equal
    to "END " + cmd + "\n"; the response is all of them, stripped, in order,
    and the lines after it stay unread.
   */
  lemma SendListCommand(s: Session, cmd: string, k: nat)
    requires MultiLine(Wire(cmd))
    requires k < |s.pending| && s.pending[k] == "END " + cmd + "\n"
    requires forall j :: 0 <= j < k ==> s.pending[j] != "END " + cmd + "\n"
    requires forall j :: 0 <= j <= k ==> WellFormedLine(s.pending[j])
    ensures SendCommand(s, cmd).session == Session(s.sent + [cmd + "\n"], s.pending[k + 1..])
    ensures SendCommand(s, cmd).result == Outcome(Chomps(s.pending[..k + 1]))
  {
    ListEndLine(cmd);
    ReadUpToTerminator(s.pending, EndLine(Wire(cmd)), k, []);
  }

  /**
    A LIST command whose terminator never arrives fails with a read error and
    returns no lines.
   */
  lemma SendListCommandUnterminated(s: Session, cmd: string)
    requires MultiLine(Wire(cmd))
    requires "END " + cmd + "\n" !in s.pending
    ensures SendCommand(s, cmd).result == Failure(ReadFailed)
  {
    ListEndLine(cmd);
    UnterminatedReadFails(s.pending, EndLine(Wire(cmd)), []);
  }

  /**
    A `LIST ` command answered with a one-line `ERR <code>` reply never reaches
    the error check: the read keeps waiting for the `"END "` terminator, and
    when it does not come the result is a read failure, not the server's code.
   */
  lemma ListCommandRejected(s: Session, cmd: string, code: string, later: seq<string>)
    requires MultiLine(Wire(cmd))
    requires s.pending == ["ERR " + code + "\n"] + later
    requires "END " + cmd + "\n" !in later
    ensures SendCommand(s, cmd).result == Failure(ReadFailed)
  {
    var err := "ERR " + code + "\n";
    assert err[1] == 'R';
    assert ("END " + cmd + "\n")[1] == 'N';
    assert "END " + cmd + "\n" !in s.pending;
    SendListCommandUnterminated(s, cmd);
  }

  /**
    Two single-line commands in a row read one line each: the second response
    is the second line, with nothing left over from the first.
   */
  lemma SequentialCommandsDoNotMix(s: Session, cmd1: string, cmd2: string)
    requires !MultiLine(Wire(cmd1)) && !MultiLine(Wire(cmd2))
    requires |s.pending| >= 2 && WellFormedLine(s.pending[0]) && WellFormedLine(s.pending[1])
    ensures SendCommand(s, cmd1).result == Outcome([Chomp(s.pending[0])])
    ensures SendCommand(SendCommand(s, cmd1).session, cmd2).result == Outcome([Chomp(s.pending[1])])
    ensures SendCommand(SendCommand(s, cmd1).session, cmd2).session.pending == s.pending[2..]
  {
    SendSingleLineCommand(s, cmd1);
    var s1 := SendCommand(s, cmd1).session;
    assert s1.pending[0] == s.pending[1];
    SendSingleLineCommand(s1, cmd2);
  }

  /**
    `Disconnect`: sends LOGOUT; confirmed only for the two goodbye spellings,
    and server or read errors are passed through.
   */
  function Disconnect(s: Session): (r: Step<bool>)
    ensures r.session == SendCommand(s, "LOGOUT").session
    ensures SendCommand(s, "LOGOUT").result.Failure? ==> r.result == Failure(SendCommand(s, "LOGOUT").result.error)
    ensures r.result == Success(true) ==> SendCommand(s, "LOGOUT").result.value[0] in {"OK Goodbye", "Goodbye..."}
  {
    var st := SendCommand(s, "LOGOUT");
    match st.result
    case Failure(e) => Step(Failure(e), st.session)
    case Success(resp) => Step(Success(resp[0] == "OK Goodbye" || resp[0] == "Goodbye..."), st.session)
  }

  /**
    The logout reply decides the outcome: confirmed exactly for "OK Goodbye" or
    "Goodbye...", a plain "not confirmed" for any other non-error line, the
    server's error for an `ERR` line, and a read error when nothing arrives.
   */
  lemma DisconnectReply(s: Session)
    requires |s.pending| >= 1 ==> WellFormedLine(s.pending[0])
    ensures |s.pending| == 0 ==> Disconnect(s).result == Failure(ReadFailed)
    ensures |s.pending| >= 1 ==>
      var first := Chomp(s.pending[0]);
      && Disconnect(s).session.pending == s.pending[1..]
      && Disconnect(s).result
         == if HasPrefix(first, "ERR ") then Failure(ServerError(ErrorCode(first)))
            else Success(s.pending[0] == "OK Goodbye\n" || s.pending[0] == "Goodbye...\n")
  {
    if |s.pending| >= 1 {
      LogoutWire();
      SendSingleLineCommand(s, "LOGOUT");
      ChompIs(s.pending[0], "OK Goodbye");
      ChompIs(s.pending[0], "Goodbye...");
    }
  }

  /**
   * Helper for the solver only: LOGOUT is a single-line command, and the
   * goodbye replies spelled out as raw lines. It states no property of its own.
   */
  lemma LogoutWire()
    ensures !MultiLine(Wire("LOGOUT"))
    ensures "OK Goodbye" + "\n" == "OK Goodbye\n" && "Goodbye..." + "\n" == "Goodbye...\n"
  {
    SpacelessCommand("LOGOUT");
  }

  /**
    `Authenticate`: USERNAME, then PASSWORD; true exactly when both replies are
    "OK". An error on USERNAME returns before PASSWORD is written.
   */
  function Authenticate(s: Session, username: string, password: string): (r: Step<bool>)
    ensures |r.session.sent| <= |s.sent| + 2
    ensures r.result.Success? ==> r.session.sent == s.sent + [Wire("USERNAME " + username), Wire("PASSWORD " + password)]
    ensures var u := SendCommand(s, "USERNAME " + username);
      u.result.Failure? ==> r.result == Failure(u.result.error) && r.session.sent == s.sent + [Wire("USERNAME " + username)]
  {
    var u := SendCommand(s, "USERNAME " + username);
    match u.result
    case Failure(e) => Step(Failure(e), u.session)
    case Success(userResp) =>
      var p := SendCommand(u.session, "PASSWORD " + password);
      match p.result
      case Failure(e) => Step(Failure(e), p.session)
      case Success(passResp) => Step(Success(userResp[0] == "OK" && passResp[0] == "OK"), p.session)
  }

  lemma CredentialsAreSingleLine(username: string, password: string)
    ensures !MultiLine(Wire("USERNAME " + username))
    ensures !MultiLine(Wire("PASSWORD " + password))
  {
    assert Wire("USERNAME " + username)[0] == 'U';
    assert Wire("PASSWORD " + password)[0] == 'P';
  }

  /** With nothing to read after USERNAME, authentication fails with a read error and PASSWORD is never sent. */
  lemma AuthenticateUsernameUnanswered(s: Session, username: string, password: string)
    requires s.pending == []
    ensures Authenticate(s, username, password).result == Failure(ReadFailed)
    ensures Authenticate(s, username, password).session.sent == s.sent + [Wire("USERNAME " + username)]
  {
  }

  /** A rejected USERNAME ends authentication with the server's error; PASSWORD is never sent. */
  lemma AuthenticateUsernameRejected(s: Session, username: string, password: string)
    requires |s.pending| >= 1 && WellFormedLine(s.pending[0])
    requires HasPrefix(Chomp(s.pending[0]), "ERR ")
    ensures Authenticate(s, username, password).result == Failure(ServerError(ErrorCode(Chomp(s.pending[0]))))
    ensures Authenticate(s, username, password).session == Session(s.sent + ["USERNAME " + username + "\n"], s.pending[1..])
  {
    CredentialsAreSingleLine(username, password);
    SendSingleLineCommand(s, "USERNAME " + username);
  }

  /**
    With a non-error USERNAME reply, the PASSWORD reply decides: its error is
    passed through, and otherwise the result is true exactly when both replies
    are the line "OK". Both commands are written and two lines consumed.
   */
  lemma AuthenticateReplies(s: Session, username: string, password: string)
    requires |s.pending| >= 2 && WellFormedLine(s.pending[0]) && WellFormedLine(s.pending[1])
    requires !HasPrefix(Chomp(s.pending[0]), "ERR ")
    ensures Authenticate(s, username, password).session
         == Session(s.sent + ["USERNAME " + username + "\n", "PASSWORD " + password + "\n"], s.pending[2..])
    ensures var second := Chomp(s.pending[1]);
      Authenticate(s, username, password).result
        == if HasPrefix(second, "ERR ") then Failure(ServerError(ErrorCode(second)))
           else Success(s.pending[0] == "OK\n" && s.pending[1] == "OK\n")
  {
    CredentialsAreSingleLine(username, password);
    SendSingleLineCommand(s, "USERNAME " + username);
    var s1 := SendCommand(s, "USERNAME " + username).session;
    assert s1.pending[0] == s.pending[1];
    SendSingleLineCommand(s1, "PASSWORD " + password);
    OkLine();
    ChompIs(s.pending[0], "OK");
    ChompIs(s.pending[1], "OK");
  }

  /** Helper for the solver only: the "OK" reply as a raw line. It states no property of its own. */
  lemma OkLine()
    ensures "OK" + "\n" == "OK\n"
  {
  }

  /** A USERNAME reply that is not an error but has no PASSWORD reply after it is a read error. */
  lemma AuthenticatePasswordUnanswered(s: Session, username: string, password: string)
    requires |s.pending| == 1 && WellFormedLine(s.pending[0])
    requires !HasPrefix(Chomp(s.pending[0]), "ERR ")
    ensures Authenticate(s, username, password).result == Failure(ReadFailed)
  {
    CredentialsAreSingleLine(username, password);
    SendSingleLineCommand(s, "USERNAME " + username);
  }

  /**
    `k` is where the first double quote of `t` stands, or the length of `t`
    when it has none: the text before it is quote-free and nothing lies
    between that text and the quote.
   */
  predicate QuoteEnd(t: string, k: int) {
    0 <= k <= |t| && '"' !in t[..k] && (k == |t| || t[k] == '"')
  }

  /** There is only one such position, so `QuoteEnd` pins the name down. */
  lemma QuoteEndUnique(t: string, k1: int, k2: int)
    requires QuoteEnd(t, k1) && QuoteEnd(t, k2)
    ensures k1 == k2
  {
  }

  /**
    The device name in a `UPS <name> "<description>"` line: the text after
    "UPS " up to its first double quote (or to its end when it has none), less
    one trailing space.
   */
  function UpsName(line: string): (name: string)
    ensures '"' !in name
    ensures var t := TrimPrefix(line, "UPS ");
      exists k :: QuoteEnd(t, k) && name == TrimSuffix(t[..k], " ")
  {
    var t := TrimPrefix(line, "UPS ");
    var piece := Split(t, '"')[0];
    SplitFirstPiece(t, '"');
    assert t[..|piece|] == piece;
    assert QuoteEnd(t, |piece|);
    TrimSuffix(piece, " ")
  }

  /** A line with a bare name and no description names exactly that name. */
  lemma UpsNameWithoutDescription(name: string)
    requires '"' !in name && !HasSuffix(name, " ")
    ensures UpsName("UPS " + name) == name
  {
    var line := "UPS " + name;
    assert HasPrefix(line, "UPS ");
    var t := TrimPrefix(line, "UPS ");
    assert t == name;
    var n := UpsName(line);
    var k :| QuoteEnd(t, k) && n == TrimSuffix(t[..k], " ");
    assert QuoteEnd(name, |name|) by {
      assert name[..|name|] == name;
    }
    QuoteEndUnique(name, k, |name|);
    assert name[..k] == name;
  }

  /** One name per response line starting with "UPS ", in response order. */
  function UpsNames(resp: seq<string>): (names: seq<string>)
    ensures |names| <= |resp|
    ensures forall i :: 0 <= i < |names| ==> '"' !in names[i]
  {
    if |resp| == 0 then [] else NameOf(resp[0]) + UpsNames(resp[1..])
  }

  /** What one response line contributes: its name if it starts with "UPS ", else nothing. */
  function NameOf(line: string): (names: seq<string>)
    ensures |names| <= 1
    ensures |names| == 1 <==> HasPrefix(line, "UPS ")
    ensures |names| == 1 ==> '"' !in names[0]
  {
    if HasPrefix(line, "UPS ") then [UpsName(line)] else []
  }

  /** The names of a concatenation are the names of each part, in order. */
  lemma {:induction false} UpsNamesAppend(a: seq<string>, b: seq<string>)
    ensures UpsNames(a + b) == UpsNames(a) + UpsNames(b)
    decreases |a|
  {
    if |a| > 0 {
      assert (a + b)[0] == a[0];
      assert (a + b)[1..] == a[1..] + b;
      UpsNamesAppend(a[1..], b);
      assert UpsNames(a + b) == NameOf(a[0]) + UpsNames(a[1..] + b);
      assert UpsNames(a) == NameOf(a[0]) + UpsNames(a[1..]);
    } else {
      assert a + b == b;
    }
  }

  /** Lines that do not start with "UPS " (headers, the terminator, anything else) name nothing. */
  lemma {:induction false} UpsNamesOfOthers(resp: seq<string>)
    requires forall i :: 0 <= i < |resp| ==> !HasPrefix(resp[i], "UPS ")
    ensures UpsNames(resp) == []
    decreases |resp|
  {
    if |resp| > 0 {
      assert !HasPrefix(resp[0], "UPS ");
      assert forall i :: 0 <= i < |resp[1..]| ==> !HasPrefix(resp[1..][i], "UPS ") by {
        forall i | 0 <= i < |resp[1..]| ensures !HasPrefix(resp[1..][i], "UPS ") {
          assert resp[1..][i] == resp[i + 1];
        }
      }
      UpsNamesOfOthers(resp[1..]);
    }
  }

  /** A device as the server lists it. */
  datatype UpsEntry = UpsEntry(name: string, description: string)

  /** The text of the listing line for one device, without its newline. */
  function UpsLine(e: UpsEntry): string {
    "UPS " + e.name + " \"" + e.description + "\""
  }

  /** The name is read back from its listing line whenever it has no double quote. */
  lemma UpsNameOfLine(e: UpsEntry)
    requires '"' !in e.name
    ensures UpsName(UpsLine(e)) == e.name
  {
    var line := UpsLine(e);
    assert HasPrefix(line, "UPS ");
    var after := e.name + " " + ['"'] + (e.description + "\"");
    assert TrimPrefix(line, "UPS ") == after;
    assert '"' !in e.name + " ";
    SplitAtFirst(e.name + " ", e.description + "\"", '"');
    assert Split(after, '"')[0] == e.name + " ";
  }

  /** The raw listing lines for `entries`, as the server sends them. */
  function Listing(entries: seq<UpsEntry>): (lines: seq<string>)
    ensures |lines| == |entries|
  {
    if |entries| == 0 then [] else [UpsLine(entries[0]) + "\n"] + Listing(entries[1..])
  }

  function Names(entries: seq<UpsEntry>): seq<string> {
    if |entries| == 0 then [] else [entries[0].name] + Names(entries[1..])
  }

  predicate Listable(e: UpsEntry) {
    '"' !in e.name && '\n' !in e.name && '\n' !in e.description
  }

  /** One listing line is well-formed, starts with "UPS " and names its device. */
  lemma ListingLine(e: UpsEntry)
    requires Listable(e)
    ensures WellFormedLine(UpsLine(e) + "\n")
    ensures Chomp(UpsLine(e) + "\n") == UpsLine(e)
    ensures HasPrefix(UpsLine(e), "UPS ") && HasPrefix(UpsLine(e) + "\n", "UPS ")
    ensures UpsName(UpsLine(e)) == e.name
  {
    assert '\n' !in UpsLine(e);
    FramedText(UpsLine(e));
    UpsNameOfLine(e);
    assert (UpsLine(e) + "\n")[..4] == UpsLine(e)[..4];
  }

  /** Every listing line is well-formed and starts with "UPS ". */
  lemma ListingWellFormed(entries: seq<UpsEntry>)
    requires forall i :: 0 <= i < |entries| ==> Listable(entries[i])
    ensures forall j :: 0 <= j < |entries| ==> WellFormedLine(Listing(entries)[j]) && HasPrefix(Listing(entries)[j], "UPS ")
  {
    forall j | 0 <= j < |entries|
      ensures WellFormedLine(Listing(entries)[j]) && HasPrefix(Listing(entries)[j], "UPS ")
    {
      ListingAt(entries, j);
      ListingLine(entries[j]);
    }
  }

  lemma {:induction false} ListingAt(entries: seq<UpsEntry>, j: nat)
    requires j < |entries|
    ensures Listing(entries)[j] == UpsLine(entries[j]) + "\n"
    decreases j
  {
    if j > 0 {
      ListingAt(entries[1..], j - 1);
    }
  }

  /** The names read back from the stripped listing are the listed names, in order. */
  lemma {:induction false} ListingNames(entries: seq<UpsEntry>)
    requires forall i :: 0 <= i < |entries| ==> Listable(entries[i])
    ensures UpsNames(Chomps(Listing(entries))) == Names(entries)
    decreases |entries|
  {
    if |entries| > 0 {
      var e := entries[0];
      ListingLine(e);
      ListingNames(entries[1..]);
      var texts := Chomps(Listing(entries));
      assert texts == [UpsLine(e)] + Chomps(Listing(entries[1..]));
      assert texts[1..] == Chomps(Listing(entries[1..]));
    }
  }

  /**
    `GetUPSList`: sends LIST UPS and collects the device names of the
    response; errors are passed through.
   */
  function GetUPSList(s: Session): (r: Step<seq<string>>)
    ensures r.session == SendCommand(s, "LIST UPS").session
    ensures r.result.Failure? <==> SendCommand(s, "LIST UPS").result.Failure?
    ensures r.result.Failure? ==> r.result == Failure(SendCommand(s, "LIST UPS").result.error)
    ensures r.result.Success? ==> |r.result.value| <= |SendCommand(s, "LIST UPS").result.value|
  {
    var st := SendCommand(s, "LIST UPS");
    match st.result
    case Failure(e) => Step(Failure(e), st.session)
    case Success(resp) => Step(Success(UpsNames(resp)), st.session)
  }

  /** When "END LIST UPS" never arrives, the list fails with a read error. */
  lemma GetUPSListUnterminated(s: Session)
    requires "END LIST UPS\n" !in s.pending
    ensures GetUPSList(s).result == Failure(ReadFailed)
  {
    ListUpsWire();
    SendListCommandUnterminated(s, "LIST UPS");
  }

  /**
    A LIST command over a stream of data lines, its terminator and whatever
    follows: the response is the data lines and the terminator, stripped, and
    what follows stays unread.
   */
  lemma SendListCommandOver(s: Session, cmd: string, listed: seq<string>, later: seq<string>)
    requires MultiLine(Wire(cmd)) && '\n' !in cmd
    requires forall j :: 0 <= j < |listed| ==> WellFormedLine(listed[j]) && listed[j] != "END " + cmd + "\n"
    requires s.pending == listed + ["END " + cmd + "\n"] + later
    ensures SendCommand(s, cmd).session == Session(s.sent + [cmd + "\n"], later)
    ensures SendCommand(s, cmd).result == Outcome(Chomps(listed) + ["END " + cmd])
  {
    ListingStream(cmd, s.pending, listed, later);
    SendListCommand(s, cmd, |listed|);
  }

  /** Helper for the solver only: the stream of data lines, terminator and later lines, seen by position. */
  lemma ListingStream(cmd: string, input: seq<string>, listed: seq<string>, later: seq<string>)
    requires '\n' !in cmd
    requires forall j :: 0 <= j < |listed| ==> WellFormedLine(listed[j]) && listed[j] != "END " + cmd + "\n"
    requires input == listed + ["END " + cmd + "\n"] + later
    ensures |listed| < |input| && input[|listed|] == "END " + cmd + "\n"
    ensures forall j :: 0 <= j < |listed| ==> input[j] != "END " + cmd + "\n"
    ensures forall j :: 0 <= j <= |listed| ==> WellFormedLine(input[j])
    ensures input[|listed| + 1..] == later
    ensures Chomps(input[..|listed| + 1]) == Chomps(listed) + ["END " + cmd]
  {
    var end := "END " + cmd + "\n";
    assert WellFormedLine(end) && Chomps([end]) == ["END " + cmd] by {
      assert '\n' !in "END " + cmd;
      FramedText("END " + cmd);
    }
    StreamAround(input, listed, end, later);
    ChompsAppend(listed, [end]);
  }

  /**
    LIST UPS over any well-formed lines before its terminator: the lines after
    the terminator stay unread, an `ERR` first line is the server's error, and
    otherwise the result is the names of the stripped lines, in order (the
    terminator contributes none).
   */
  lemma GetUPSListOver(s: Session, listed: seq<string>, later: seq<string>)
    requires forall j :: 0 <= j < |listed| ==> WellFormedLine(listed[j]) && listed[j] != "END LIST UPS\n"
    requires s.pending == listed + ["END LIST UPS\n"] + later
    ensures GetUPSList(s).session == Session(s.sent + ["LIST UPS\n"], later)
    ensures GetUPSList(s).result
         == if |listed| > 0 && HasPrefix(Chomp(listed[0]), "ERR ") then Failure(ServerError(ErrorCode(Chomp(listed[0]))))
            else Success(UpsNames(Chomps(listed)))
  {
    var resp := Chomps(listed) + ["END LIST UPS"];
    ListUpsExchange(s, listed, later);
    ListUpsTerminator();
    assert resp[0] == if |listed| > 0 then Chomp(listed[0]) else "END LIST UPS";
    assert UpsNames(resp) == UpsNames(Chomps(listed)) by {
      UpsNamesAppend(Chomps(listed), ["END LIST UPS"]);
    }
  }

  /** The LIST UPS exchange over lines other than its terminator, before the names are extracted. */
  lemma ListUpsExchange(s: Session, listed: seq<string>, later: seq<string>)
    requires forall j :: 0 <= j < |listed| ==> WellFormedLine(listed[j]) && listed[j] != "END LIST UPS\n"
    requires s.pending == listed + ["END LIST UPS\n"] + later
    ensures SendCommand(s, "LIST UPS").result == Outcome(Chomps(listed) + ["END LIST UPS"])
    ensures SendCommand(s, "LIST UPS").session == Session(s.sent + ["LIST UPS\n"], later)
  {
    ListUpsWire();
    SendListCommandOver(s, "LIST UPS", listed, later);
  }

  /**
    A server that sends some header lines (none starting with "UPS ", the
    first not an error), then one line per device, then "END LIST UPS" yields
    the device names in listing order; the header and the terminator
    contribute nothing and the lines after the terminator stay unread.
   */
  lemma ListUps(s: Session, header: seq<string>, entries: seq<UpsEntry>, later: seq<string>)
    requires forall j :: 0 <= j < |header| ==>
      WellFormedLine(header[j]) && !HasPrefix(header[j], "UPS ") && header[j] != "END LIST UPS\n"
    requires |header| > 0 ==> !HasPrefix(header[0], "ERR ")
    requires forall i :: 0 <= i < |entries| ==> Listable(entries[i])
    requires s.pending == header + Listing(entries) + ["END LIST UPS\n"] + later
    ensures GetUPSList(s).result == Success(Names(entries))
    ensures GetUPSList(s).session == Session(s.sent + ["LIST UPS\n"], later)
  {
    var listed := header + Listing(entries);
    assert s.pending == listed + ["END LIST UPS\n"] + later;
    HeaderAndListingLines(header, entries);
    HeaderAndListingStart(header, entries);
    HeaderAndListingNames(header, entries);
    GetUPSListOver(s, listed, later);
  }

  /** Header and listing lines are well-formed and none of them is the LIST UPS terminator. */
  lemma HeaderAndListingLines(header: seq<string>, entries: seq<UpsEntry>)
    requires forall j :: 0 <= j < |header| ==> WellFormedLine(header[j]) && header[j] != "END LIST UPS\n"
    requires forall i :: 0 <= i < |entries| ==> Listable(entries[i])
    ensures var listed := header + Listing(entries);
      forall j :: 0 <= j < |listed| ==> WellFormedLine(listed[j]) && listed[j] != "END LIST UPS\n"
  {
    var listing := Listing(entries);
    var listed := header + listing;
    ListingWellFormed(entries);
    forall j | 0 <= j < |listed| ensures WellFormedLine(listed[j]) && listed[j] != "END LIST UPS\n" {
      if j >= |header| {
        assert listed[j] == listing[j - |header|];
        NotErrorLine(listing[j - |header|]);
      }
    }
  }

  /** Neither a header whose first line is not an error nor a listing starts with an error line. */
  lemma HeaderAndListingStart(header: seq<string>, entries: seq<UpsEntry>)
    requires forall j :: 0 <= j < |header| ==> WellFormedLine(header[j])
    requires |header| > 0 ==> !HasPrefix(header[0], "ERR ")
    requires forall i :: 0 <= i < |entries| ==> Listable(entries[i])
    ensures var listed := header + Listing(entries);
      !(|listed| > 0 && HasPrefix(Chomp(listed[0]), "ERR "))
  {
    var listing := Listing(entries);
    var listed := header + listing;
    if |header| > 0 {
      assert listed[0] == header[0];
      ChompKeepsPrefix(header[0], "ERR ");
    } else if |entries| > 0 {
      ListingWellFormed(entries);
      assert listed[0] == listing[0];
      ChompKeepsPrefix(listing[0], "ERR ");
      NotErrorLine(listing[0]);
    }
  }

  /** The names in a stripped header and listing are the listed names: the header adds none. */
  lemma HeaderAndListingNames(header: seq<string>, entries: seq<UpsEntry>)
    requires forall j :: 0 <= j < |header| ==> WellFormedLine(header[j]) && !HasPrefix(header[j], "UPS ")
    requires forall i :: 0 <= i < |entries| ==> Listable(entries[i])
    ensures UpsNames(Chomps(header + Listing(entries))) == Names(entries)
  {
    ChompsAppend(header, Listing(entries));
    UpsNamesAppend(Chomps(header), Chomps(Listing(entries)));
    HeaderNamesNothing(header);
    ListingNames(entries);
  }

  /** Header lines that do not start with "UPS " still do not once stripped, so they name nothing. */
  lemma HeaderNamesNothing(header: seq<string>)
    requires forall j :: 0 <= j < |header| ==> WellFormedLine(header[j]) && !HasPrefix(header[j], "UPS ")
    ensures UpsNames(Chomps(header)) == []
  {
    forall j | 0 <= j < |header| ensures !HasPrefix(Chomps(header)[j], "UPS ") {
      ChompKeepsPrefix(header[j], "UPS ");
    }
    UpsNamesOfOthers(Chomps(header));
  }

  /** The usual NUT reply: a "BEGIN LIST UPS" header, the devices, then "END LIST UPS". */
  lemma ListUpsWithBegin(s: Session, entries: seq<UpsEntry>, later: seq<string>)
    requires forall i :: 0 <= i < |entries| ==> Listable(entries[i])
    requires s.pending == ["BEGIN LIST UPS\n"] + Listing(entries) + ["END LIST UPS\n"] + later
    ensures GetUPSList(s).result == Success(Names(entries))
    ensures GetUPSList(s).session == Session(s.sent + ["LIST UPS\n"], later)
  {
    var header := ["BEGIN LIST UPS\n"];
    BeginHeader(header);
    ListUps(s, header, entries, later);
  }

  /**
   * Helper for the solver only: the "BEGIN LIST UPS" header meets the
   * conditions ListUps puts on header lines, proved away from any stream.
   */
  lemma BeginHeader(header: seq<string>)
    requires header == ["BEGIN LIST UPS\n"]
    ensures forall j :: 0 <= j < |header| ==>
      WellFormedLine(header[j]) && !HasPrefix(header[j], "UPS ") && header[j] != "END LIST UPS\n"
    ensures |header| > 0 ==> !HasPrefix(header[0], "ERR ")
  {
    FramedText("BEGIN LIST UPS");
    assert "BEGIN LIST UPS" + "\n" == "BEGIN LIST UPS\n";
    assert header[0][0] == 'B';
  }

  /**
   * Helper for the solver only: LIST UPS is a multi-line command, with its
   * wire form and terminator spelled out. It states no property of its own.
   */
  lemma ListUpsWire()
    ensures MultiLine(Wire("LIST UPS")) && '\n' !in "LIST UPS"
    ensures "LIST UPS" + "\n" == "LIST UPS\n"
    ensures "END " + "LIST UPS" + "\n" == "END LIST UPS\n"
    ensures "END " + "LIST UPS" == "END LIST UPS"
  {
    assert Wire("LIST UPS") == "LIST UPS\n";
  }

  /** Helper for the solver only: the LIST UPS terminator is neither an error line nor a device line. */
  lemma ListUpsTerminator()
    ensures !HasPrefix("END LIST UPS", "ERR ") && !HasPrefix("END LIST UPS", "UPS ")
    ensures UpsNames(["END LIST UPS"]) == []
  {
    assert "END LIST UPS"[1] != 'R';
    assert "END LIST UPS"[0] != 'U';
  }

  /** Helper for the solver only: a device line is neither an error line nor the LIST UPS terminator. */
  lemma NotErrorLine(line: string)
    requires HasPrefix(line, "UPS ")
    ensures !HasPrefix(line, "ERR ") && line != "END LIST UPS\n"
  {
    assert line[0] == 'U';
  }

  /** The first line of a successful single-line query (shared by the three below). */
  function FirstLine(s: Session, cmd: string): (r: Step<string>)
    requires SendCommand(s, cmd).result.Success?
    ensures r.session == SendCommand(s, cmd).session
    ensures r.result.Success? && !HasPrefix(r.result.value, "ERR ")
  {
    var st := SendCommand(s, cmd);
    Step(Success(st.result.value[0]), st.session)
  }

  /** `Help`, on the path where HELP succeeds. */
  function Help(s: Session): (r: Step<string>)
    requires SendCommand(s, "HELP").result.Success?
    ensures r.result.Success? && r.session.sent == s.sent + ["HELP\n"]
  {
    assert "HELP" + "\n" == "HELP\n";
    FirstLine(s, "HELP")
  }

  /** `GetVersion`, on the path where VER succeeds. */
  function GetVersion(s: Session): (r: Step<string>)
    requires SendCommand(s, "VER").result.Success?
    ensures r.result.Success? && r.session.sent == s.sent + ["VER\n"]
  {
    assert "VER" + "\n" == "VER\n";
    FirstLine(s, "VER")
  }

  /** `GetNetworkProtocolVersion`, on the path where NETVER succeeds. */
  function GetNetworkProtocolVersion(s: Session): (r: Step<string>)
    requires SendCommand(s, "NETVER").result.Success?
    ensures r.result.Success? && r.session.sent == s.sent + ["NETVER\n"]
  {
    assert "NETVER" + "\n" == "NETVER\n";
    FirstLine(s, "NETVER")
  }

  /**
    Each query returns the next server line verbatim, without its newline, and
    consumes only that line.
   */
  lemma QueryReplies(s: Session)
    requires |s.pending| >= 1 && WellFormedLine(s.pending[0])
    requires !HasPrefix(Chomp(s.pending[0]), "ERR ")
    ensures SendCommand(s, "HELP").result.Success?
    ensures Help(s) == Step(Success(Chomp(s.pending[0])), Session(s.sent + ["HELP\n"], s.pending[1..]))
    ensures SendCommand(s, "VER").result.Success?
    ensures GetVersion(s) == Step(Success(Chomp(s.pending[0])), Session(s.sent + ["VER\n"], s.pending[1..]))
    ensures SendCommand(s, "NETVER").result.Success?
    ensures GetNetworkProtocolVersion(s)
         == Step(Success(Chomp(s.pending[0])), Session(s.sent + ["NETVER\n"], s.pending[1..]))
  {
    BareQueriesAreSingleLine();
    SendSingleLineCommand(s, "HELP");
    SendSingleLineCommand(s, "VER");
    SendSingleLineCommand(s, "NETVER");
  }

  /** A "NUT Server 2.8.0" reply to VER comes back without its newline. */
  lemma VersionExample(s: Session)
    requires s.pending == ["NUT Server 2.8.0\n"]
    ensures SendCommand(s, "VER").result.Success?
    ensures GetVersion(s).result == Success("NUT Server 2.8.0")
  {
    var text := "NUT Server 2.8.0";
    assert WellFormedLine(s.pending[0]) && Chomp(s.pending[0]) == text by {
      assert s.pending[0] == text + "\n";
      FramedText(text);
    }
    assert !HasPrefix(text, "ERR ") by { assert text[0] != 'E'; }
    QueryReplies(s);
  }

  /**
    A single-line command answered with `ERR <code>[ <detail>]` fails with
    exactly that code (for instance "ERR UNKNOWN-COMMAND" gives
    "UNKNOWN-COMMAND") and returns no lines.
   */
  lemma SendCommandServerError(s: Session, cmd: string, code: string, detail: string)
    requires !MultiLine(Wire(cmd))
    requires ' ' !in code && (detail == "" || detail[0] == ' ')
    requires '\n' !in code && '\n' !in detail
    requires |s.pending| >= 1 && s.pending[0] == "ERR " + code + detail + "\n"
    ensures SendCommand(s, cmd).result == Failure(ServerError(code))
  {
    var text := "ERR " + code + detail;
    assert WellFormedLine(s.pending[0]) && Chomp(s.pending[0]) == text by {
      assert '\n' !in "ERR ";
      assert '\n' !in text;
      FramedText(text);
    }
    assert HasPrefix(text, "ERR ") && ErrorCode(text) == code by {
      ErrorCodeOf(code, detail);
    }
    SendSingleLineCommand(s, cmd);
  }
}
