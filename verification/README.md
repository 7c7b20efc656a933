# NUT client protocol engine, modelled in Dafny

This project models the protocol engine of a Go client for Network UPS Tools
(NUT) and proves properties of that model. NUT is the power-device monitoring
ecosystem whose server speaks a line-oriented text protocol over TCP. The
engine covers these parts of `nut.go`:

- **Command framing**: the command plus a newline.
- **Termination rule**: the end line and read mode the verb selects.
- **Response reassembly**: the `ReadResponse` loop.
- **Error detection**: the `ERR <code>` check.
- **Operations built on `SendCommand`**:
  - `Disconnect`;
  - `Authenticate`;
  - the name-parsing loop of `GetUPSList`;
  - the one-line queries `Help`, `GetVersion` and `GetNetworkProtocolVersion`.

The model has three modules:

- `GoStrings` (`go_strings.dfy`): the parts of Go's `strings` package that the
  engine calls. These are `HasPrefix`, `TrimPrefix`, `TrimSuffix` and `Split`
  around a one-character separator, plus `Join`, which is proved to be
  `Split`'s inverse.
- `Response` (`response.dfy`): the connection seen at line granularity. The
  server's side is a finite sequence of raw lines, each being what one
  successful `bufio.Reader.ReadString('\n')` returns. Reading past the last
  line is the read failure, so end of stream, an expired deadline and a broken
  connection are the same `ReadFailed` error. `ReadLoop` and `ReadResponse`
  follow the Go loop branch by branch:
  - the `len(line) > 0` test;
  - the newline trim;
  - the defensive split on `"\n"`;
  - the stop test `line == endLine || !multiLineResponse`.
- `Nut` (`nut.dfy`): a session is a value with two parts. `sent` holds the wire
  strings written so far. `pending` holds the server lines not yet read. Each
  operation maps a session to a result and the session after the exchange.

Where the code departs from what the NUT protocol expects, the model follows the code:

- For commands starting `USERNAME `, `PASSWORD `, `SET `, `HELP `, `VER ` and
  `NETVER `, the code picks `"OK\n"` as the end line (nut.go:84-86). It still
  reads them in single-line mode, because none starts with `"LIST "`
  (nut.go:96, 71). Exactly one line is read and the end line never matters.
  `OkEndLineIsInert` proves this.
- The prefixes the code matches are `"HELP "`, `"VER "` and `"NETVER "`, each with a
  trailing space. The bare queries `HELP\n`, `VER\n` and `NETVER\n` therefore
  do not match and get their `"END "` echo as end line. They are still read as
  one line. `SpacelessCommand` and `BareQueriesAreSingleLine` prove this.
- A `LIST ` command answered by a one-line `ERR <code>` never reaches the
  `ERR` check (nut.go:101). The read is in multi-line mode and waits for the
  `"END "` terminator (nut.go:71), so when nothing more arrives the result is
  a read failure, not the server's code. `ListCommandRejected` proves this.
- `Help`, `GetVersion` and `GetNetworkProtocolVersion` index `resp[0]` even when
  `SendCommand` failed. In Go this panics on the nil slice. The model has these
  three only on the path where the command succeeds, as a precondition.

## Model

| member | source | states |
|---|---|---|
| GoStrings.TrimPrefix | nut.go:133 | the prefix is dropped exactly when present, and then prefix and result make up the input; otherwise the input is unchanged |
| GoStrings.TrimSuffix | nut.go:68 | the suffix is dropped exactly when present, and then result and suffix make up the input; otherwise the input is unchanged |
| GoStrings.Split | nut.go:69 | there is one more piece than occurrences of the separator (so `Split("")` is `[""]`), and no piece contains the separator |
| GoStrings.JoinSplit | nut.go:69 | the pieces joined back with the separator give the original string: splitting loses nothing |
| GoStrings.SplitWithoutSeparator | nut.go:69 | a string without the separator splits into itself alone |
| GoStrings.SplitAtFirst | nut.go:102 | the text before the first separator is the first piece, and the pieces after it are the split of the remainder |
| GoStrings.SplitJoin | nut.go:69 | splitting a join of separator-free parts gives the parts back (Split inverts Join) |
| GoStrings.SplitFirstPiece | nut.go:133 | the first piece is a prefix of the string, followed either by the end of the string or by the separator |
| Response.LogicalLines | nut.go:67-70 | a raw line contributes at least one logical line, and none of them contains a newline |
| Response.LogicalLinesRejoin | nut.go:68-70 | the logical lines of a raw line, rejoined with newlines, give back the line without its trailing newline |
| Response.WellFormedLineIsOneLogicalLine | nut.go:63-70 | a line as the buffered reader delivers it contributes exactly one logical line: its text without the newline |
| Response.ReadLoop | nut.go:58-75 | a successful read strictly extends the lines already gathered, and what it leaves unread is a proper suffix of the stream; the only failure is a read failure |
| Response.ReadResponse | nut.go:54-78 | a successful read returns at least one line and leaves a proper suffix of the stream unread; the only failure is a read failure |
| Response.ReadOneLine | nut.go:67-72 | single-line mode consumes exactly one line and returns its text, whatever the end line and whatever follows |
| Response.SingleLineIgnoresEndLine | nut.go:71 | in single-line mode the end line never changes the outcome |
| Response.ReadUpToTerminator | nut.go:58-75 | multi-line mode reads up to and including the first line equal to the end line; the response is all lines read, stripped, in order, terminator included, and nothing after it is consumed |
| Response.UnterminatedReadFails | nut.go:63-66 | when the end line never arrives, multi-line mode fails with a read error and the lines gathered so far are discarded |
| Response.MultiLineSucceedsIffTerminated | nut.go:58-75 | with a non-empty end line, a multi-line read succeeds exactly when the end line occurs in the stream |
| Nut.Wire | nut.go:82 | the wire form is the command followed by exactly one newline; a command without a newline frames as one well-formed line |
| Nut.AwaitsOk | nut.go:84 | a verb awaiting `"OK\n"` contains a space and never starts with `"LIST "` |
| Nut.EndLine | nut.go:83-86 | the end line is `"OK\n"` exactly for the verbs awaiting it, and otherwise `"END "` followed by the wire command |
| Nut.MultiLine | nut.go:96 | multi-line mode is only for commands starting `"LIST "`, which contain a space and never await `"OK\n"` |
| Response.Chomp | nut.go:68 | a well-formed line loses exactly its trailing newline and keeps no newline; a line without one is unchanged |
| Nut.Outcome | nut.go:101-105 | a response fails exactly when its first line starts `"ERR "`; a success is the response unchanged; a failure carries the whole second space-separated field of that line: the space-free text after `"ERR "`, ending at the end of the line or at a space |
| Nut.OkEndLineIsInert | nut.go:84-96 | for every verb given the `"OK\n"` end line, that end line is chosen, the read is single-line, and it reads the same as with any other end line |
| Nut.ListEndLine | nut.go:82-86 | a `LIST ` command's end line is `"END "`, the command and a newline |
| Nut.SpacelessCommand | nut.go:82-96 | a command without spaces matches none of the verb prefixes: single-line, with its own `"END "` echo as end line |
| Nut.BareQueriesAreSingleLine | nut.go:84 | bare `HELP`, `VER` and `NETVER` miss the `"HELP "`, `"VER "` and `"NETVER "` prefixes and are single-line with an `"END "` echo end line |
| Nut.ErrorCode | nut.go:101-102 | the code of an `ERR` line has no space, follows `"ERR "` directly, and ends at the end of the line or at a space |
| Nut.ErrorCodeOf | nut.go:102 | from any line `ERR <code>[ <detail>]` the second space-separated field is exactly `<code>` |
| Nut.SendCommand | nut.go:81-106 | the framed command is written; a success has at least one line and no `ERR ` first line; unread lines are a suffix of the pending ones, strictly shorter on success; an empty stream is a read failure |
| Nut.SendSingleLineCommand | nut.go:81-105 | a command not starting with `LIST ` consumes exactly the next line; its response is that line stripped, unless it is an `ERR` line |
| Nut.EmptyLineReply | nut.go:67-70 | a bare `"\n"` reply to a single-line command is the one-line response `[""]` |
| Nut.SendListCommand | nut.go:81-105 | a `LIST ` command consumes up to and including `"END " + cmd + "\n"`; the response is those lines stripped, in order, and later lines stay unread |
| Nut.SendListCommandUnterminated | nut.go:96-99 | a `LIST ` command whose terminator never arrives fails with a read error and returns no lines |
| Nut.SendListCommandOver | nut.go:81-105 | over data lines, the terminator and later lines, a `LIST ` command returns the stripped data lines and terminator and leaves exactly the later lines |
| Nut.ListCommandRejected | nut.go:96-103 | a `LIST ` command answered by a one-line `ERR <code>` with no terminator after it is a read failure, not the server's error |
| Nut.SequentialCommandsDoNotMix | nut.go:81-105 | two single-line commands in a row get the first and second line respectively, with nothing carried over |
| Nut.SendCommandServerError | nut.go:101-103 | a single-line command answered `ERR <code>[ <detail>]` fails with exactly that code |
| Nut.Disconnect | nut.go:42-51 | LOGOUT is sent; a SendCommand error is passed through; true only for a first line `OK Goodbye` or `Goodbye...` |
| Nut.DisconnectReply | nut.go:42-51 | true exactly for the replies `OK Goodbye` and `Goodbye...`, false without error for any other non-error line, the server's code for an `ERR` line, a read error when nothing arrives |
| Nut.Authenticate | nut.go:109-122 | at most USERNAME and PASSWORD are written; a success writes both; a USERNAME error is returned unchanged and only USERNAME is written |
| Nut.AuthenticateUsernameUnanswered | nut.go:110-113 | with no reply to USERNAME the result is a read error and PASSWORD is never written |
| Nut.CredentialsAreSingleLine | nut.go:110-114 | USERNAME and PASSWORD are single-line commands |
| Nut.AuthenticateUsernameRejected | nut.go:110-113 | an `ERR` reply to USERNAME ends authentication with that code, and PASSWORD is never sent |
| Nut.AuthenticateReplies | nut.go:109-122 | after a non-error USERNAME reply, a PASSWORD error is passed through; otherwise the result is true exactly when both replies are `OK` |
| Nut.AuthenticatePasswordUnanswered | nut.go:114-117 | a missing PASSWORD reply is a read error, not a false result |
| Nut.UpsName | nut.go:133-134 | the name is the text after `"UPS "` up to its first double quote (or its end), less one trailing space, and so has no double quote |
| Nut.UpsNameWithoutDescription | nut.go:133-134 | `UPS <name>` with no description names exactly `<name>` |
| Nut.NameOf | nut.go:132-138 | a line contributes one name exactly when it starts with `"UPS "`, and nothing otherwise |
| Nut.UpsNames | nut.go:131-140 | at most one name per response line, none containing a double quote |
| Nut.UpsNamesAppend | nut.go:131-140 | names are extracted line by line, in response order |
| Nut.UpsNamesOfOthers | nut.go:131-132 | lines that do not start with `"UPS "` contribute no names |
| Nut.UpsNameOfLine | nut.go:133-134 | the name of a `UPS <name> "<description>"` line is `<name>` whenever it has no double quote |
| Nut.ListingNames | nut.go:131-140 | the names read from a stripped listing are the listed names, in order |
| Nut.GetUPSList | nut.go:125-142 | LIST UPS is sent; the list fails exactly when the command does, with the command's error unchanged; a success has no more names than response lines |
| Nut.GetUPSListUnterminated | nut.go:127-130 | when `END LIST UPS` never arrives, the list fails with a read error |
| Nut.GetUPSListOver | nut.go:125-142 | over any lines other than `END LIST UPS`, the terminator and later lines: an `ERR` first line is the server's error, otherwise the names of the stripped lines in order, and the later lines stay unread |
| Nut.ListUps | nut.go:125-142 | header lines that are not device lines, then a listing, then `END LIST UPS` yield the listed names in order; header and terminator contribute nothing and later lines stay unread |
| Nut.HeaderNamesNothing | nut.go:131-132 | well-formed lines not starting `"UPS "` still do not once stripped, so they contribute no names |
| Nut.ListUpsWithBegin | nut.go:125-142 | the usual reply, a `BEGIN LIST UPS` header, the devices and `END LIST UPS`, yields the listed names in order |
| Nut.ListUpsExchange | nut.go:127 | LIST UPS over lines other than its terminator returns them stripped, then the terminator, and leaves the later lines |
| Nut.FirstLine | nut.go:147 | a query's result is a non-error line and the session is SendCommand's |
| Nut.Help | nut.go:145-148 | on success, HELP is written and a string is returned |
| Nut.GetVersion | nut.go:151-154 | on success, VER is written and a string is returned |
| Nut.GetNetworkProtocolVersion | nut.go:157-160 | on success, NETVER is written and a string is returned |
| Nut.QueryReplies | nut.go:145-160 | each query returns the next line verbatim, without its newline, and consumes only that line |
| Nut.VersionExample | nut.go:151-154 | a `NUT Server 2.8.0` reply to VER gives `NUT Server 2.8.0` |

## Left out

- Connecting (dialing, the connect timeout and the `Connect` host/port defaulting, nut.go:21-39): real network I/O, and the defaulting depends on `net.SplitHostPort` rules that are not part of this model.
- Read and write deadlines (nut.go:59-62, 87-90) and write failures (nut.go:91-94): time and I/O. A deadline that expires during a read is the same as the stream ending, which is `ReadFailed`. A failed write is not modelled.
- Byte-level buffering: `ReadResponse` builds a fresh `bufio.Reader` on each call (nut.go:55), and that reader may read ahead and drop bytes past the response. The model works on whole lines and nothing is lost between commands, so `SequentialCommandsDoNotMix` is a statement about lines, not bytes.
- Nut.ErrorCode: `errorForMessage`, which maps the code to a typed error, is not part of this model; the error carries the raw code string.
- Nut.GetUPSList: `NewUPS` and the `UPS` type are not part of this model, so the result is the list of names, and the early return when `NewUPS` fails (nut.go:135-137) is not modelled. `NewUPS` is handed the client (nut.go:134) and may talk to the server itself. The model assumes it does no I/O, so the session that `GetUPSList`, `GetUPSListOver`, `ListUps` and `ListUpsWithBegin` promise, and the claim that later lines stay unread, cover only the `LIST UPS` exchange.
- Read failures: in the model a failed read ends the stream and leaves nothing pending. That is the model's choice. Nothing in nut.go closes the connection after a failed read, and each read and write sets a fresh deadline (nut.go:59, 87), so the real connection may still deliver lines later.
- Help: stated only for a successful HELP (a precondition); when SendCommand fails the Go code indexes a nil slice and panics, and no result is invented for it.
- GetVersion: stated only for a successful VER, for the same reason.
- GetNetworkProtocolVersion: stated only for a successful NETVER, for the same reason.
- Bytes and characters: Go strings are byte sequences, and the model works on sequences of Dafny `char`. No behaviour is lost, because every prefix, suffix and separator the engine compares against is ASCII, so matching on characters and matching on bytes agree.
- Concurrency: one caller and one command in flight are assumed, as the protocol is strictly request/response.
