# rsh_server core in Dafny

This project models the relay core of `rsh_server`, a small remote-shell server. It accepts one connection from a remote shell. It sends the commands an operator types to that shell and echoes the shell's output back to the operator. Three pieces of logic are modelled as pure functions over byte sequences:

- **Command assembler** (`assemble_cmd`, module `Assembler`). It turns one line read by `fgets` into the bytes written to the peer. The line's last byte is overwritten with ` ; printf "`, the raw bytes END_OF_TEXT (0x03) and END_OF_TRANSMISSION (0x04), and `"` plus a newline. An empty line (just a newline) gets the `printf` trailer alone. The model follows the C code step by step: a cleared 1024-byte `client_cmd`, `memcpy`, `sprintf` at offset `cmd_len - 1` (which also writes a NUL), and `strlen`. The contracts state the wire format that results.
- **Sentinel scanner** (`read_cli_buffer`, module `Scanner`). It reads the peer's reply one byte at a time. Its input is the finite sequence of bytes that arrive before the readiness wait times out, plus the moment the abort flag is seen. It returns the bytes echoed to the terminal, the number of bytes read, and whether the scan completed, timed out or was aborted. The two flags are sticky, as in the code. A space read once both sentinels have been seen ends the scan. That can be any later space, not only one right after the sentinels.
- **Session loop** (`handle_client`, module `Session`). One scan with timeout 1 drains the prompt. Then, for each operator line, the loop writes the assembled command and, unless the line is `exit\n`, scans the reply with timeout 120. The input is a trace of turns. Each turn holds the line, whether the abort flag was set when `fgets` returned, and the reply. The result is the list of writes and scans, and the reason the loop stopped.

`Bytes` holds the byte type, the control-byte constants and the C-string helpers (NUL termination, `strlen`). `Wrappers` holds `Option` and `Result`.

The scanner input is `Reply(bytes, abortAt)`. `abortAt == Some(k)` means the abort flag is set by the loop check that follows the k-th byte read (`Some(0)`: it is already set). If the scan returns before that check, the session loop's next `while (!user_abort)` check sees the flag.

## Model

| member | source | states |
|---|---|---|
| Bytes.CStr | rsh_server.c:120 | The C string in a buffer is a prefix of it, contains no NUL, and is followed by a NUL whenever it is shorter than the buffer; its length is what `strlen` returns |
| Bytes.CStrOfTerminated | rsh_server.c:113-120 | Text without NUL, followed by the NUL that `sprintf` writes, reads back through `strlen` as exactly that text, whatever lies after it |
| Assembler.LiteralsSpellTheirText | rsh_server.c:19-20 | The byte constants spell the string macros CMD_SEPARATOR (` ; `) and EXIT_CMD (`exit` and a newline), as well as the `printf "` and `"`-plus-newline pieces of the format strings |
| Assembler.SprintfEnd | rsh_server.c:113-117 | Without any bound check, one past the last byte `sprintf` writes (its closing NUL) is index n + 15 for a command line of n bytes, and n + 12 for a line starting with a newline |
| Assembler.FillBufferLayout | rsh_server.c:111-117 | After `memcpy` and `sprintf`, `client_cmd` holds the line minus its last byte, then the separator and trailer, then a NUL, then the untouched zeroes; for an empty line it holds the trailer and a NUL |
| Assembler.AssembledText | rsh_server.c:113-120 | The string left in `client_cmd` is the line minus its last byte plus ` ; ` and the trailer; for `"\n"` it is the trailer alone; a line that starts with a newline but is longer leaves an empty string |
| Assembler.AssembleCmd | rsh_server.c:109-121 | The bytes before `cmd_len` are the exact wire command and `cmd_len` is their length: n + 14 for a command line of n bytes, 12 for `"\n"`; the line's last byte is replaced whether or not it is a newline, and the sentinels go in as raw bytes 0x03 0x04 |
| Assembler.WireOfCommand | rsh_server.c:111-114 | A line that does not start with a newline is sent as its text without the last byte, then ` ; `, then the trailer |
| Assembler.WireOfEmptyLine | rsh_server.c:115-117 | The empty line fits and is sent as the bare trailer |
| Assembler.WireEndsWithTrailer | rsh_server.c:111-117 | Every wire command for an `fgets` line ends with the trailer and a newline and starts with the operator's text; it equals the bare trailer exactly when the line is empty |
| Assembler.AssembleChecked | rsh_server.c:109-121 | The assembler with a bound check: it refuses exactly the lines whose `sprintf` would write past the 1024-byte `client_cmd`, and otherwise returns what the code writes, shorter than the buffer |
| Assembler.FitsExactly | rsh_server.c:125-126 | An `fgets` line fits the buffers exactly when it is the empty line or at most 1009 bytes long |
| Assembler.LongLineOverflows | rsh_server.c:113-114 | A 1010-byte line, which `fgets(user_cmd, 1024, stdin)` accepts, makes `sprintf` write one byte past `client_cmd`; the checked assembler refuses it |
| Assembler.ExitLineIsExact | rsh_server.c:145-147 | For a line `fgets` can return, the `strncmp` prefix test against `"exit\n"` holds exactly when the line is `"exit\n"` |
| Scanner.ScanLoopMeetsSpec | rsh_server.c:72-106 | From any state that agrees with the bytes read so far, the loop stops right after the first space read while both flags are set, or reads up to the limit; it echoes exactly the non-sentinel bytes it read and reports an abort exactly when its own check sees the flag |
| Scanner.Scan | rsh_server.c:60-107 | A scan completes if and only if, within the bytes it may read, some space comes after at least one 0x03 and at least one 0x04 in either order; it then stops after the first such space; otherwise it reads every available byte and ends by timeout or abort; the echo is the bytes read with sentinels removed, in order |
| Scanner.StripKeepsNonSentinels | rsh_server.c:88-104 | A byte appears in the echo exactly when it was read and is not 0x03 or 0x04: spaces and all other bytes are echoed, sentinels never are |
| Scanner.StripAppend | rsh_server.c:97-103 | Echoing is compositional, so bytes are echoed in the order they arrive |
| Scanner.ArmedIsSticky | rsh_server.c:61-62 | The two flags are never cleared: once both sentinels have been read, they stay read for the rest of the scan |
| Scanner.AnyLaterSpaceTerminates | rsh_server.c:95-100 | Once both sentinels have been read, any later space ends the scan, whatever came in between |
| Scanner.ScanStopsAtFirstTerminator | rsh_server.c:95-100 | When a space after both sentinels arrives within the limit and is the first such space, the scan reads up to and including it, echoes that prefix without sentinels, and completes |
| Scanner.ScanIgnoresUnread | rsh_server.c:98-99 | When a scan completes, bytes after the terminating space are never read: appending more to the reply leaves the result unchanged |
| Scanner.AbortedScanReadsNothing | rsh_server.c:72 | With the abort flag already set, a scan reads and echoes nothing and reports the abort |
| Scanner.SilentPeerTimesOut | rsh_server.c:76-79 | When no byte arrives before the wait expires, the scan ends by timeout with nothing read or echoed |
| Scanner.OutputThenTrailer | rsh_server.c:88-100 | When a command's output holds no sentinel byte and the trailer's output (0x03, 0x04, space) follows it, the scan echoes the whole output and the space, spaces inside the output included, and stops right after that space |
| Scanner.FirstSpaceAfterSentinels | rsh_server.c:95-100 | When the bytes before the first space include both sentinels, the scan stops at that space and echoes everything before it except the sentinels, then the space |
| Scanner.HelloWorldReply | rsh_server.c:88-104 | For the reply "hello", 0x03, 0x04, " world", the operator sees "hello " and the scan completes after 8 bytes, leaving "world" unread |
| Scanner.FalseTermination | rsh_server.c:95-100 | If a command's own output holds 0x03 0x04 and then "a b", the scan completes at the first space after 4 bytes, and the trailer's real sentinels stay unread |
| Session.ServeShape | rsh_server.c:132-150 | The loop's events come in pairs in operator order (the write of turn j's assembled line, then the scan of its reply) and it stops at the first turn that does not complete a round, for the reason given by the checks at that turn; if the abort flag is already set when the loop is entered, it writes nothing |
| Session.HandleClient | rsh_server.c:123-151 | The session first scans the prompt with timeout 1. After that, event 2j+1 writes turn j's assembled line, which was read without abort and fits the buffer. Event 2j+2 scans turn j's reply with timeout 120 and never follows the exit command. The session ends with the exit write, or silently at the first pending abort, abort during a read, end of input or too-long line; an abort seen during or after the prompt scan means nothing is written at all |
| Session.AbortDuringPrompt | rsh_server.c:129-132 | If the abort flag is set at any point of the prompt scan, or before the loop's first check, the session ends by the abort with the prompt scan as its only event |
| Session.AbortBeforeStart | rsh_server.c:130-132 | With the abort flag set before the session starts, the prompt scan reads nothing and nothing is written |
| Session.AbortDuringFirstRead | rsh_server.c:136-139 | If the abort flag is set while `fgets` reads a line, that line is dropped and nothing is written |
| Session.ExitEndsSession | rsh_server.c:144-147 | Typing `exit` writes the assembled exit command and ends the session without a reply scan |
| Session.ListCommandWire | rsh_server.c:111-114 | The line `ls\n` is sent as `ls ; printf "`, 0x03, 0x04, `"` and a newline |
| Session.EmptyLineWire | rsh_server.c:115-117 | The empty line is sent as `printf "`, 0x03, 0x04, `"` and a newline, with no separator |

## Left out

- The accept loop in `run` is not modelled: socket creation, `bind`, `listen`, `select` on the listening socket and `accept` (rsh_server.c:153-216). This is operating-system I/O plumbing. The session model starts once a connection exists.
- Signal handling and the global `volatile` abort flag (rsh_server.c:23-29, 229-232) are not modelled. The flag appears only as an input: `Reply.abortAt` for scans, and `Turn.abortAfterRead` for `fgets`. Registering `SIGKILL` has no effect and is not modelled.
- `parse_args`, `usage` and `main` (rsh_server.c:31-58, 218-237) are left out. They are thin wrappers over `getopt`, `atoi`, `htons` and the logging macros of `rsh.h`. `rsh.h` is not part of this model.
- Real time is not modelled. A reply is the bytes that arrive before the wait expires. Linux's in-place update of `tout` across iterations (rsh_server.c:70, 76) is not modelled. Each scan's timeout appears only as a number in its `Scanned` event.
- Scanner.Scan: a `select` failure (rsh_server.c:80-82) is not a separate outcome. That includes a wait interrupted by the abort signal after the available bytes ran out. The model reports such a scan as a timeout that has read every available byte, because that failure path ends the scan in the same way.
- Failed or end-of-file reads are not modelled. The code ignores `read`'s return value and would reprocess a stale byte (rsh_server.c:86). The model assumes every read returns one byte.
- A failed `fgets` is not modelled (rsh_server.c:136). It leaves an empty string, and `assemble_cmd` then writes at `client_cmd[-1]`. NUL bytes typed on the terminal are not modelled either. `ValidTrace` requires every line to be a non-empty C string.
- Session.HandleClient: the modelled operator input is finite. When it runs out while the loop is still going, the session reports `TraceExhausted`. The C loop would block in `fgets` instead.
- Terminal output is not printed. The bytes `RSH_RAW_LOG` would print are returned as each scan's `output`. Error log lines are not modelled.
- The scanner keeps the sticky-flag behaviour of the code. A stricter terminator test, which matches a contiguous 0x03 0x04 space sequence, is not modelled. `Scanner.FalseTermination` and `Scanner.AnyLaterSpaceTerminates` show the behaviour as written.
- For the reply "hello", 0x03, 0x04, " world" the scan echoes "hello " and leaves "world" unread (`Scanner.HelloWorldReply`).
- Session.HandleClient: each turn's reply is an independent input. Bytes a scan leaves unread on the socket are not carried into the next scan's reply, although the code reads one stream. The model is therefore more general than the code: every run of the code is a run of the model in which each reply starts with the bytes the previous scan left.

## Findings

| source | as written | input that shows it | evidently intended | confidence | as-written member | corrected member |
|---|---|---|---|---|---|---|
| rsh_server.c:113-114 | `sprintf` writes the separator, the trailer and a NUL starting at `client_cmd[cmd_len - 1]`, with no check against the 1024-byte buffer | a line of 1009 letters and a newline (1010 bytes), which `fgets` with size 1024 accepts: the NUL lands at index 1024, one past the end | refuse a line whose assembled form does not fit, and write nothing for it | high, not executed | Assembler.LongLineOverflows | Assembler.AssembleChecked |

The session loop uses `AssembleChecked`. A line that does not fit ends the session with `LineTooLong` before anything is written. The code as written has undefined behaviour at that point, so it has no defined next step.
