/** The command assembler (`assemble_cmd`): turns one operator line into the
    bytes written to the remote shell, so that the shell prints the two
    sentinel bytes once the operator's command has finished. */
module Assembler {
  import opened Wrappers
  import opened Bytes

  /** Size of both `user_cmd` and `client_cmd`, and the `fgets` bound. */
  const BUFFER_SIZE: nat := 1024

  /** CMD_SEPARATOR, " ; ". */
  const SEPARATOR: seq<byte> := [32, 59, 32]
  /** The text `printf "` that opens the trailer. */
  const PRINTF_OPEN: seq<byte> := [112, 114, 105, 110, 116, 102, 32, 34]
  /** The text `"` and a newline that closes the trailer. */
  const PRINTF_CLOSE: seq<byte> := [34, NL]

  /** What the format `printf "%c%c"\n` expands to with END_OF_TEXT_BYTE and
      END_OF_TRANSMISSION_BYTE: the two sentinels are inserted as raw bytes,
      not as escape text. */
  const TRAILER: seq<byte> := PRINTF_OPEN + [ETX, EOT] + PRINTF_CLOSE

  /** EXIT_CMD, "exit\n". */
  const EXIT_CMD: seq<byte> := [101, 120, 105, 116, NL]

  /** The byte constants above spell the source's string literals. */
  lemma LiteralsSpellTheirText()
    ensures SEPARATOR == Ascii(" ; ")
    ensures PRINTF_OPEN == Ascii("printf \"")
    ensures PRINTF_CLOSE == Ascii("\"\n")
    ensures EXIT_CMD == Ascii("exit\n")
  {
  }

  /** The byte facts about the literals that the proofs below rely on. */
  lemma LiteralFacts()
    ensures |SEPARATOR| == 3 && |TRAILER| == 12 && |EXIT_CMD| == 5
    ensures NUL !in SEPARATOR + TRAILER
    ensures TRAILER[11] == NL && EXIT_CMD[4] == NL
    ensures NL !in EXIT_CMD[..4]
  {
    assert forall i :: 0 <= i < 3 ==> SEPARATOR[i] != NUL;
    assert forall i :: 0 <= i < 8 ==> PRINTF_OPEN[i] != NUL;
    assert forall i :: 0 <= i < 2 ==> PRINTF_CLOSE[i] != NUL;
    assert forall i :: 0 <= i < 4 ==> EXIT_CMD[i] != NL;
  }

  /** A line as `fgets(user_cmd, 1024, stdin)` leaves it when it succeeds:
      at least one byte, at most 1023, no NUL, and a newline only as the
      last byte (none when the buffer filled up or input ended). */
  predicate IsFgetsLine(line: seq<byte>)
  {
    && 1 <= |line| < BUFFER_SIZE
    && NUL !in line
    && forall k :: 0 <= k < |line| - 1 ==> line[k] != NL
  }

  /** The text `sprintf` formats at `client_cmd[cmd_len - 1]`: the separator
      and the trailer after a real command, the trailer alone after an
      empty line. */
  function Formatted(line: seq<byte>): seq<byte>
    requires 1 <= |line|
  {
    if line[0] != NL then SEPARATOR + TRAILER else TRAILER
  }

  /** One past the last byte that `sprintf` writes (its text and the NUL),
      as the code is written: no bound is checked. */
  function SprintfEnd(line: seq<byte>): (n: nat)
    requires 1 <= |line|
    ensures n == |line| + (if line[0] != NL then 15 else 12)
  {
    LiteralFacts();
    |line| - 1 + |Formatted(line)| + 1
  }

  /** Whether assembling `line` stays inside `client_cmd`. */
  predicate Fits(line: seq<byte>)
  {
    1 <= |line| && SprintfEnd(line) <= BUFFER_SIZE
  }

  /** `client_cmd` and the `cmd_len` that `assemble_cmd` leaves behind. */
  datatype Assembled = Assembled(buffer: seq<byte>, cmdLen: nat)

  /** `client_cmd` after `assemble_cmd` has filled it, as the code is
      written, starting from the cleared buffer the session loop provides:
      copy the line, then format over its last byte. */
  function FillBuffer(line: seq<byte>): (buf: seq<byte>)
    requires Fits(line)
    ensures |buf| == BUFFER_SIZE
  {
    var cleared := Zeroed(BUFFER_SIZE);
    var n := |line|;
    LiteralFacts();
    if line[0] != NL then
      Overwrite(Overwrite(cleared, 0, line), n - 1, SEPARATOR + TRAILER + [NUL])
    else
      Overwrite(cleared, n - 1, TRAILER + [NUL])
  }

  /** The filled buffer is the text, a NUL, and the untouched cleared tail. */
  lemma FillBufferLayout(line: seq<byte>)
    requires Fits(line)
    ensures var n := |line|; var cleared := Zeroed(BUFFER_SIZE);
      && (line[0] != NL ==>
            FillBuffer(line) == (line[..n - 1] + SEPARATOR + TRAILER) + [NUL] + cleared[n + 15..])
      && (line[0] == NL ==>
            FillBuffer(line) == cleared[..n - 1] + TRAILER + [NUL] + cleared[n + 12..])
  {
    if line[0] != NL {
      CommandBufferLayout(line);
    } else {
      EmptyLineBufferLayout(line);
    }
  }

  lemma CommandBufferLayout(line: seq<byte>)
    requires Fits(line) && line[0] != NL
    ensures var n := |line|; var cleared := Zeroed(BUFFER_SIZE);
      FillBuffer(line) == (line[..n - 1] + SEPARATOR + TRAILER) + [NUL] + cleared[n + 15..]
  {
    LiteralFacts();
    var n := |line|;
    var cleared := Zeroed(BUFFER_SIZE);
    var copied := Overwrite(cleared, 0, line);
    assert copied[..n - 1] == line[..n - 1];
    assert copied[n + 15..] == cleared[n + 15..];
  }

  lemma EmptyLineBufferLayout(line: seq<byte>)
    requires Fits(line) && line[0] == NL
    ensures var n := |line|; var cleared := Zeroed(BUFFER_SIZE);
      FillBuffer(line) == cleared[..n - 1] + TRAILER + [NUL] + cleared[n + 12..]
  {
    LiteralFacts();
  }

  /** `assemble_cmd` as written: the filled `client_cmd` and its `strlen`.
      The line's last byte is replaced whether or not it is a newline. */
  function AssembleCmd(line: seq<byte>): (r: Assembled)
    requires NUL !in line && Fits(line)
    ensures |r.buffer| == BUFFER_SIZE && r.cmdLen < BUFFER_SIZE
    ensures NUL !in r.buffer[..r.cmdLen] && r.buffer[r.cmdLen] == NUL
    ensures line[0] != NL ==>
              r.buffer[..r.cmdLen] == line[..|line| - 1] + SEPARATOR + TRAILER
              && r.cmdLen == |line| + 14
    ensures line == [NL] ==> r.buffer[..r.cmdLen] == TRAILER && r.cmdLen == 12
    ensures line[0] == NL && |line| > 1 ==> r.cmdLen == 0
  {
    var buf := FillBuffer(line);
    var text := CStr(buf);
    AssembledText(line);
    LiteralFacts();
    assert |text| < BUFFER_SIZE;
    assert buf[..|text|] == text;
    Assembled(buf, |text|)
  }

  /** The C string left in the filled buffer. */
  lemma AssembledText(line: seq<byte>)
    requires NUL !in line && Fits(line)
    ensures line[0] != NL ==> CStr(FillBuffer(line)) == line[..|line| - 1] + SEPARATOR + TRAILER
    ensures line == [NL] ==> CStr(FillBuffer(line)) == TRAILER
    ensures line[0] == NL && |line| > 1 ==> CStr(FillBuffer(line)) == []
  {
    if line[0] != NL {
      CommandText(line);
    } else if |line| == 1 {
      EmptyLineText(line);
    } else {
      EmptyLineBufferLayout(line);
      assert FillBuffer(line)[0] == NUL;
    }
  }

  lemma CommandText(line: seq<byte>)
    requires NUL !in line && Fits(line) && line[0] != NL
    ensures CStr(FillBuffer(line)) == line[..|line| - 1] + SEPARATOR + TRAILER
  {
    LiteralFacts();
    CommandBufferLayout(line);
    var n := |line|;
    assert NUL !in line[..n - 1];
    CStrOfTerminated(line[..n - 1] + SEPARATOR + TRAILER, Zeroed(BUFFER_SIZE)[n + 15..]);
  }

  lemma EmptyLineText(line: seq<byte>)
    requires line == [NL]
    ensures CStr(FillBuffer(line)) == TRAILER
  {
    LiteralFacts();
    EmptyLineBufferLayout(line);
    var cleared := Zeroed(BUFFER_SIZE);
    assert FillBuffer(line) == TRAILER + [NUL] + cleared[13..] by {
      assert cleared[..0] == [];
    }
    CStrOfTerminated(TRAILER, cleared[13..]);
  }

  /** The bytes `write(client_fd, client_cmd, cmd_len)` sends. */
  function Wire(line: seq<byte>): (w: seq<byte>)
    requires NUL !in line && Fits(line)
  {
    var a := AssembleCmd(line);
    a.buffer[..a.cmdLen]
  }

  /** The wire form of a command line: its text without the last byte, the
      separator and the trailer. */
  lemma WireOfCommand(line: seq<byte>)
    requires NUL !in line && Fits(line) && line[0] != NL
    ensures Wire(line) == line[..|line| - 1] + SEPARATOR + TRAILER
  {
  }

  /** Every wire command for a line the terminal can deliver ends with the
      trailer, hence with a newline, and carries the operator's text before
      it; the sentinels reach the shell as one command line. */
  lemma WireEndsWithTrailer(line: seq<byte>)
    requires IsFgetsLine(line) && Fits(line)
    ensures |Wire(line)| >= |TRAILER| && Wire(line)[|Wire(line)| - |TRAILER|..] == TRAILER
    ensures Wire(line)[|Wire(line)| - 1] == NL
    ensures line[0] == NL <==> Wire(line) == TRAILER
    ensures line[0] != NL ==> Wire(line)[..|line| - 1] == line[..|line| - 1]
  {
    LiteralFacts();
    if line[0] == NL {
      assert line == [NL];
      WireOfEmptyLine();
    } else {
      CommandWireEndsWithTrailer(line);
    }
  }

  lemma CommandWireEndsWithTrailer(line: seq<byte>)
    requires NUL !in line && Fits(line) && line[0] != NL
    ensures |Wire(line)| > |TRAILER| && Wire(line)[|Wire(line)| - |TRAILER|..] == TRAILER
    ensures Wire(line)[..|line| - 1] == line[..|line| - 1]
  {
    LiteralFacts();
    WireOfCommand(line);
    var w := Wire(line);
    assert w[|w| - |TRAILER|..] == TRAILER;
  }

  /** The wire form of the empty line is the bare trailer. */
  lemma WireOfEmptyLine()
    ensures Fits([NL]) && Wire([NL]) == TRAILER
  {
  }

  /** Why `assemble_cmd` may reject a line. */
  datatype AssembleError = CommandTooLong

  /** `assemble_cmd` with the bound check the code omits: a line whose
      assembled form would not fit in `client_cmd` is refused and nothing
      is produced; otherwise the result is what the code writes. */
  function AssembleChecked(line: seq<byte>): (r: Result<seq<byte>, AssembleError>)
    requires 1 <= |line| && NUL !in line
    ensures r.Failure? <==> SprintfEnd(line) > BUFFER_SIZE
    ensures r.Success? ==> Fits(line) && r.value == Wire(line) && |r.value| < BUFFER_SIZE
  {
    if SprintfEnd(line) <= BUFFER_SIZE then Success(Wire(line)) else Failure(CommandTooLong)
  }

  /** Exactly which lines fit: a command of up to 1009 bytes (newline
      included), or the empty line. */
  lemma FitsExactly(line: seq<byte>)
    requires IsFgetsLine(line)
    ensures Fits(line) <==> line[0] == NL || |line| <= BUFFER_SIZE - 15
  {
  }

  /** The overflow as written: a 1010-byte line (1009 letters and a
      newline), which `fgets` accepts, makes `sprintf` write one byte past
      the end of `client_cmd`; the checked assembler refuses it. */
  lemma LongLineOverflows()
    ensures var line := seq(1009, _ => 97 as byte) + [NL];
      && IsFgetsLine(line)
      && SprintfEnd(line) == BUFFER_SIZE + 1
      && AssembleChecked(line) == Failure(CommandTooLong)
  {
    var line := seq(1009, _ => 97 as byte) + [NL];
    assert line[..|line| - 1] == seq(1009, _ => 97 as byte);
    assert line[0] == 97;
  }

  /** `strncmp(user_cmd, EXIT_CMD, strlen(EXIT_CMD)) == 0` for a NUL-free
      line: the line starts with "exit\n". */
  predicate IsExit(line: seq<byte>)
  {
    EXIT_CMD <= line
  }

  /** For a line `fgets` can deliver, the exit test matches exactly the line
      "exit\n" and nothing longer. */
  lemma ExitLineIsExact(line: seq<byte>)
    requires IsFgetsLine(line)
    ensures IsExit(line) <==> line == EXIT_CMD
  {
    LiteralFacts();
    assert IsExit(line) ==> line[4] == NL;
  }
}
