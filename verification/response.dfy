/**
  Response reassembly of the NUT client (`ReadResponse`).

  The connection is seen at line granularity: the server's side of the
  conversation is a finite sequence of raw lines, each being what one
  successful `ReadString('\n')` returns. Trying to read past the last line is
  the read failure (end of stream, deadline exceeded or a broken connection;
  the model does not tell them apart).
 */
module Response {
  import opened GoStrings

  /** The two ways a command can fail once the command has been written. */
  datatype Error =
    | ReadFailed                // the stream failed or ended mid-response
    | ServerError(code: string) // the server answered `ERR <code> ...`

  datatype Result<+T> = Success(value: T) | Failure(error: Error)

  /** A reassembled response and the server lines left unread after it. */
  datatype Reply = Reply(lines: seq<string>, rest: seq<string>)

  /** A raw line as the buffered reader delivers it: text, then one newline. */
  predicate WellFormedLine(line: string) {
    |line| >= 1 && line[|line| - 1] == '\n' && '\n' !in line[..|line| - 1]
  }

  /**
    A raw line without its trailing newline: for a well-formed line, its text,
    which has no newline left in it; any other line keeps what it has.
   */
  function Chomp(line: string): (text: string)
    ensures WellFormedLine(line) ==> text + "\n" == line && '\n' !in text
    ensures !HasSuffix(line, "\n") ==> text == line
  {
    TrimSuffix(line, "\n")
  }

  /** The newline-stripped raw lines, in order. */
  function Chomps(lines: seq<string>): (texts: seq<string>)
    ensures |texts| == |lines|
    ensures forall i :: 0 <= i < |lines| ==> texts[i] == Chomp(lines[i])
  {
    if |lines| == 0 then [] else [Chomp(lines[0])] + Chomps(lines[1..])
  }

  lemma {:induction false} ChompsAppend(a: seq<string>, b: seq<string>)
    ensures Chomps(a + b) == Chomps(a) + Chomps(b)
    decreases |a|
  {
    if |a| > 0 {
      assert (a + b)[1..] == a[1..] + b;
      ChompsAppend(a[1..], b);
      assert Chomps(a + b) == [Chomp(a[0])] + Chomps(a[1..] + b);
      assert Chomps(a) == [Chomp(a[0])] + Chomps(a[1..]);
    } else {
      assert a + b == b;
    }
  }

  lemma ChompsCons(input: seq<string>, k: nat)
    requires k < |input|
    ensures Chomps(input[..k + 1]) == [Chomp(input[0])] + Chomps(input[1..][..k])
  {
    assert input[..k + 1][1..] == input[1..][..k];
  }

  /**
    The logical lines one raw line contributes: the line without its trailing
    newline, split defensively on any newline left inside it.
   */
  function LogicalLines(line: string): (parts: seq<string>)
    ensures |parts| >= 1
    ensures forall i :: 0 <= i < |parts| ==> '\n' !in parts[i]
  {
    Split(Chomp(line), '\n')
  }

  /** Nothing of a raw line is lost: its logical lines joined by newlines give back its text. */
  lemma LogicalLinesRejoin(line: string)
    ensures Join(LogicalLines(line), '\n') == Chomp(line)
  {
    JoinSplit(Chomp(line), '\n');
  }

  /** A well-formed raw line contributes exactly its text. */
  lemma WellFormedLineIsOneLogicalLine(line: string)
    requires WellFormedLine(line)
    ensures Chomp(line) == line[..|line| - 1]
    ensures LogicalLines(line) == [Chomp(line)]
  {
    assert HasSuffix(line, "\n");
    SplitWithoutSeparator(line[..|line| - 1], '\n');
  }

  /** What the stripped text of a well-formed line starts with, the line starts with too. */
  lemma ChompKeepsPrefix(line: string, prefix: string)
    requires WellFormedLine(line)
    ensures HasPrefix(Chomp(line), prefix) ==> HasPrefix(line, prefix)
  {
    if HasPrefix(Chomp(line), prefix) {
      assert line[..|prefix|] == Chomp(line)[..|prefix|];
    }
  }

  /** A well-formed line strips to `text` exactly when it is `text` and a newline. */
  lemma ChompIs(line: string, text: string)
    requires WellFormedLine(line)
    ensures Chomp(line) == text <==> line == text + "\n"
  {
    WellFormedLineIsOneLogicalLine(line);
    assert line == Chomp(line) + "\n";
  }

  /** A stream made of some lines, one distinguished line and the rest, seen by position. */
  lemma StreamAround(input: seq<string>, before: seq<string>, line: string, after: seq<string>)
    requires input == before + [line] + after
    ensures |before| < |input| && input[|before|] == line
    ensures forall j :: 0 <= j < |before| ==> input[j] == before[j]
    ensures input[..|before| + 1] == before + [line] && input[|before| + 1..] == after
  {
  }

  /** Text without a newline, framed by one, is a well-formed line that strips back to the text. */
  lemma FramedText(text: string)
    requires '\n' !in text
    ensures WellFormedLine(text + "\n")
    ensures Chomp(text + "\n") == text
  {
    var line := text + "\n";
    assert line[..|line| - 1] == text;
    assert HasSuffix(line, "\n");
  }

  /**
    The read loop. `response` holds the logical lines gathered so far; each
    raw line read is appended, and reading stops right after the first
    non-empty line in single-line mode, or after the first line equal to
    `endLine` in multi-line mode. Running out of input fails the whole read,
    whatever was gathered.
   */
  function ReadLoop(input: seq<string>, endLine: string, multiLine: bool, response: seq<string>): (r: Result<Reply>)
    ensures r.Success? ==> |r.value.lines| > |response| && r.value.lines[..|response|] == response
    ensures r.Success? ==> |r.value.rest| < |input| && r.value.rest == input[|input| - |r.value.rest|..]
    ensures r.Failure? ==> r.error == ReadFailed
    decreases |input|
  {
    if |input| == 0 then Failure(ReadFailed)
    else
      var line := input[0];
      if |line| > 0 then
        var gathered := response + LogicalLines(line);
        if line == endLine || !multiLine then Success(Reply(gathered, input[1..]))
        else ReadLoop(input[1..], endLine, multiLine, gathered)
      else ReadLoop(input[1..], endLine, multiLine, response)
  }

  /**
    `ReadResponse(endLine, multiLineResponse)`: a successful read returns at
    least one line, and what it leaves unread is a proper suffix of the input.
   */
  function ReadResponse(input: seq<string>, endLine: string, multiLine: bool): (r: Result<Reply>)
    ensures r.Success? ==> |r.value.lines| >= 1
    ensures r.Success? ==> |r.value.rest| < |input| && r.value.rest == input[|input| - |r.value.rest|..]
    ensures r.Failure? ==> r.error == ReadFailed
  {
    ReadLoop(input, endLine, multiLine, [])
  }

  /**
    Single-line mode consumes exactly one well-formed line and returns its
    text, whatever the end line and whatever follows.
   */
  lemma ReadOneLine(input: seq<string>, endLine: string)
    requires |input| >= 1 && WellFormedLine(input[0])
    ensures ReadResponse(input, endLine, false) == Success(Reply([Chomp(input[0])], input[1..]))
  {
    WellFormedLineIsOneLogicalLine(input[0]);
  }

  /** In single-line mode the end line plays no part at all. */
  lemma {:induction false} SingleLineIgnoresEndLine(input: seq<string>, e1: string, e2: string, response: seq<string>)
    ensures ReadLoop(input, e1, false, response) == ReadLoop(input, e2, false, response)
    decreases |input|
  {
    if |input| > 0 && |input[0]| == 0 {
      SingleLineIgnoresEndLine(input[1..], e1, e2, response);
    }
  }

  /**
    Multi-line mode over well-formed lines reads up to and including the first
    line equal to the end line: the response is every line read, stripped and
    in order, terminator included, and everything after it stays unread.
   */
  lemma {:induction false} ReadUpToTerminator(input: seq<string>, endLine: string, k: nat, response: seq<string>)
    requires k < |input| && input[k] == endLine
    requires forall j :: 0 <= j <= k ==> WellFormedLine(input[j])
    requires forall j :: 0 <= j < k ==> input[j] != endLine
    ensures ReadLoop(input, endLine, true, response) == Success(Reply(response + Chomps(input[..k + 1]), input[k + 1..]))
    decreases k
  {
    if k == 0 {
      ReadTerminatorLine(input, endLine, response);
    } else {
      ShiftPrefixFacts(input, endLine, k);
      ReadUpToTerminator(input[1..], endLine, k - 1, response + [Chomp(input[0])]);
      ReadOnUpTo(input, endLine, k, response);
    }
  }

  /** One step of the read up to the terminator: the first line, then the rest of the read. */
  lemma ReadOnUpTo(input: seq<string>, endLine: string, k: nat, response: seq<string>)
    requires 0 < k < |input| && WellFormedLine(input[0]) && input[0] != endLine
    requires var gathered := response + [Chomp(input[0])];
      ReadLoop(input[1..], endLine, true, gathered) == Success(Reply(gathered + Chomps(input[1..][..k]), input[1..][k..]))
    ensures ReadLoop(input, endLine, true, response) == Success(Reply(response + Chomps(input[..k + 1]), input[k + 1..]))
  {
    ReadPastLine(input, endLine, response);
    ShiftedReply(input, k, response);
  }

  /** The reply of the read from the second line on, seen from the first line. */
  lemma ShiftedReply(input: seq<string>, k: nat, response: seq<string>)
    requires 0 < k < |input|
    ensures response + [Chomp(input[0])] + Chomps(input[1..][..k]) == response + Chomps(input[..k + 1])
    ensures input[1..][k..] == input[k + 1..]
  {
    ChompsCons(input, k);
  }

  /** Reading the end line itself, in multi-line mode, ends the read with its text. */
  lemma ReadTerminatorLine(input: seq<string>, endLine: string, response: seq<string>)
    requires |input| > 0 && input[0] == endLine && WellFormedLine(endLine)
    ensures ReadLoop(input, endLine, true, response) == Success(Reply(response + Chomps(input[..1]), input[1..]))
  {
    WellFormedLineIsOneLogicalLine(input[0]);
    assert Chomps(input[..1]) == [Chomp(input[0])];
  }

  /** What holds of the first `k + 1` lines still holds, shifted, of the tail. */
  lemma ShiftPrefixFacts(input: seq<string>, endLine: string, k: nat)
    requires 0 < k < |input|
    requires forall j :: 0 <= j < k ==> input[j] != endLine
    requires forall j :: 0 <= j <= k ==> WellFormedLine(input[j])
    ensures forall j :: 0 <= j < k - 1 ==> input[1..][j] != endLine
    ensures forall j :: 0 <= j <= k - 1 ==> WellFormedLine(input[1..][j])
  {
    forall j | 0 <= j <= k - 1
      ensures WellFormedLine(input[1..][j])
      ensures j < k - 1 ==> input[1..][j] != endLine
    {
      assert input[1..][j] == input[j + 1];
    }
  }

  /** Reading past a well-formed line that is not the end line, in multi-line mode. */
  lemma ReadPastLine(input: seq<string>, endLine: string, response: seq<string>)
    requires |input| > 0 && WellFormedLine(input[0]) && input[0] != endLine
    ensures ReadLoop(input, endLine, true, response)
         == ReadLoop(input[1..], endLine, true, response + [Chomp(input[0])])
  {
    WellFormedLineIsOneLogicalLine(input[0]);
  }

  /** Multi-line mode without the end line in the stream fails, with no lines. */
  lemma {:induction false} UnterminatedReadFails(input: seq<string>, endLine: string, response: seq<string>)
    requires endLine !in input
    ensures ReadLoop(input, endLine, true, response) == Failure(ReadFailed)
    decreases |input|
  {
    if |input| > 0 {
      assert input[0] != endLine;
      assert endLine !in input[1..];
      if |input[0]| > 0 {
        UnterminatedReadFails(input[1..], endLine, response + LogicalLines(input[0]));
      } else {
        UnterminatedReadFails(input[1..], endLine, response);
      }
    }
  }

  /**
    A multi-line read with a non-empty end line succeeds exactly when the end
    line occurs in the stream, whatever the lines look like.
   */
  lemma {:induction false} MultiLineSucceedsIffTerminated(input: seq<string>, endLine: string, response: seq<string>)
    requires |endLine| > 0
    ensures ReadLoop(input, endLine, true, response).Success? <==> endLine in input
    decreases |input|
  {
    if endLine !in input {
      UnterminatedReadFails(input, endLine, response);
    } else if input[0] != endLine {
      assert endLine in input[1..] by {
        var k :| 0 <= k < |input| && input[k] == endLine;
        assert input[1..][k - 1] == endLine;
      }
      var next := if |input[0]| > 0 then response + LogicalLines(input[0]) else response;
      MultiLineSucceedsIffTerminated(input[1..], endLine, next);
    }
  }
}
