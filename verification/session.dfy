/** The session loop (`handle_client`): drains the remote prompt, then for
    each operator line sends the assembled command and drains the reply,
    until the exit command, an abort, or the end of the modelled input. */
module Session {
  import opened Wrappers
  import opened Bytes
  import opened Assembler
  import opened Scanner

  /** Wait bound for the initial prompt. */
  const PROMPT_TIMEOUT: nat := 1
  /** CLIENT_REPLY_TIMEOUT, the wait bound for a command's reply. */
  const CLIENT_REPLY_TIMEOUT: nat := 120

  /** One round as the environment supplies it: the line `fgets` returned,
      whether the abort flag was set when `fgets` came back, and the reply
      the peer sends once the command is written. */
  datatype Turn = Turn(line: seq<byte>, abortAfterRead: bool, reply: Reply)

  /** What the loop does that is visible outside: a scan of the connection
      with its timeout and result, or a write of bytes to the peer. */
  datatype Event = Scanned(timeout: nat, result: ScanResult) | Wrote(bytes: seq<byte>)

  /** Why the loop returned. `LineTooLong` is where the code as written
      would overflow `client_cmd`; `TraceExhausted` means the modelled
      operator input ran out while the loop was still going. */
  datatype EndReason = ExitCommand | AbortObserved | LineTooLong | TraceExhausted

  datatype SessionResult = SessionResult(events: seq<Event>, end: EndReason)

  /** Every operator line is a non-empty C string, as `strlen` sees it
      after a successful `fgets`. */
  predicate ValidTrace(turns: seq<Turn>)
  {
    forall i :: 0 <= i < |turns| ==> 1 <= |turns[i].line| && NUL !in turns[i].line
  }

  /** The `while (!user_abort)` loop from turn `i` on; `aborted` is whether
      the flag is already set at the loop check. */
  function Serve(turns: seq<Turn>, i: nat, aborted: bool): SessionResult
    requires i <= |turns| && ValidTrace(turns)
    decreases |turns| - i
  {
    if aborted then SessionResult([], AbortObserved)
    else if i == |turns| then SessionResult([], TraceExhausted)
    else
      var t := turns[i];
      if t.abortAfterRead then SessionResult([], AbortObserved)
      else
        match AssembleChecked(t.line)
        case Failure(_) => SessionResult([], LineTooLong)
        case Success(wire) =>
          if IsExit(t.line) then SessionResult([Wrote(wire)], ExitCommand)
          else
            var rest := Serve(turns, i + 1, t.reply.abortAt.Some?);
            SessionResult([Wrote(wire), Scanned(CLIENT_REPLY_TIMEOUT, Scan(t.reply))] + rest.events,
                          rest.end)
  }

  /** A turn after which the loop goes on to the next check: read without
      abort, fitting the buffer, and not the exit command. */
  predicate Continues(t: Turn)
  {
    !t.abortAfterRead && Fits(t.line) && !IsExit(t.line)
  }

  /** One full round: the write, the reply scan, then the rest of the loop. */
  lemma ServeRound(turns: seq<Turn>, i: nat, aborted: bool)
    requires i < |turns| && ValidTrace(turns) && !aborted && Continues(turns[i])
    ensures var rest := Serve(turns, i + 1, turns[i].reply.abortAt.Some?);
      Serve(turns, i, aborted)
        == SessionResult([Wrote(Wire(turns[i].line)),
                          Scanned(CLIENT_REPLY_TIMEOUT, Scan(turns[i].reply))] + rest.events,
                         rest.end)
  {
  }

  /** A round that does not complete ends the loop with at most the write. */
  lemma ServeStops(turns: seq<Turn>, i: nat, aborted: bool)
    requires i <= |turns| && ValidTrace(turns)
    requires aborted || i == |turns| || !Continues(turns[i])
    ensures var r := Serve(turns, i, aborted);
      if aborted then r == SessionResult([], AbortObserved)
      else if i == |turns| then r == SessionResult([], TraceExhausted)
      else if turns[i].abortAfterRead then r == SessionResult([], AbortObserved)
      else if !Fits(turns[i].line) then r == SessionResult([], LineTooLong)
      else r == SessionResult([Wrote(Wire(turns[i].line))], ExitCommand)
  {
  }

  /** Event `e` is the write of turn `t`: its line was read without abort,
      fits the buffer, and `e` sends its assembled form. */
  predicate WroteTurn(t: Turn, e: Event)
  {
    !t.abortAfterRead && NUL !in t.line && Fits(t.line) && e == Wrote(Wire(t.line))
  }

  /** Event `e` is the reply scan of turn `t`, whose line is not the exit
      command, with the long timeout. */
  predicate ScannedTurn(t: Turn, e: Event)
  {
    !IsExit(t.line) && e == Scanned(CLIENT_REPLY_TIMEOUT, Scan(t.reply))
  }

  /** The even-numbered events of the loop from turn `i` are the writes, in
      operator order: event `2(j - i)` writes turn `j`'s assembled line.
      At most two events per turn. */
  predicate WritesLaidOut(turns: seq<Turn>, i: nat, ev: seq<Event>)
    requires i <= |turns|
  {
    && |ev| <= 2 * (|turns| - i)
    && forall j :: i <= j < |turns| && 2 * (j - i) < |ev| ==> WroteTurn(turns[j], ev[2 * (j - i)])
  }

  /** The odd-numbered events are the reply scans: event `2(j - i) + 1`
      scans turn `j`'s reply. A round followed by another saw no abort
      during its reply. */
  predicate ScansLaidOut(turns: seq<Turn>, i: nat, ev: seq<Event>)
    requires i <= |turns|
  {
    ScanEvents(turns, i, ev) && NoAbortBetween(turns, i, ev)
  }

  predicate ScanEvents(turns: seq<Turn>, i: nat, ev: seq<Event>)
    requires i <= |turns|
  {
    forall j :: i <= j < |turns| && 2 * (j - i) + 1 < |ev| ==> ScannedTurn(turns[j], ev[2 * (j - i) + 1])
  }

  predicate NoAbortBetween(turns: seq<Turn>, i: nat, ev: seq<Event>)
    requires i <= |turns|
  {
    forall j :: i <= j < |turns| && 2 * (j - i) + 2 < |ev| ==> turns[j].reply.abortAt.None?
  }

  /** Whether the abort flag is pending at the loop check before turn `j`
      of a loop started at turn `i`: set on entry, or set during (or right
      after) the reply scan of the turn before. */
  predicate AbortPending(turns: seq<Turn>, i: nat, j: nat, aborted: bool)
    requires i <= j <= |turns|
  {
    if j == i then aborted else turns[j - 1].reply.abortAt.Some?
  }

  /** How a loop started at turn `i` ends when it stops at turn `j`: after
      the full rounds of turns `i` to `j - 1`, either with the write of the
      exit command of turn `j`, or silently at the check before turn `j`,
      for the first of these reasons: the abort flag was pending or was set
      while `fgets` read turn `j`; the operator input ran out; the line
      does not fit the buffer. A flag already set when the loop is entered
      stops it before anything is written. */
  predicate EndsAt(turns: seq<Turn>, i: nat, aborted: bool, j: nat, r: SessionResult)
    requires i <= j <= |turns|
  {
    && (aborted ==> r.events == [])
    && (r.end == ExitCommand <==> |r.events| == 2 * (j - i) + 1)
    && (r.end == ExitCommand ==> j < |turns| && IsExit(turns[j].line))
    && (|r.events| == 2 * (j - i) ==>
          var pending := AbortPending(turns, i, j, aborted);
          && (r.end == AbortObserved <==>
                pending || (j < |turns| && turns[j].abortAfterRead))
          && (r.end == TraceExhausted <==> !pending && j == |turns|)
          && (r.end == LineTooLong <==>
                !pending && j < |turns| && !turns[j].abortAfterRead && !Fits(turns[j].line)))
  }

  /** The loop from turn `i` stops at turn `i + |events| / 2`, as stated by
      `EndsAt`. */
  predicate EndsAsStated(turns: seq<Turn>, i: nat, aborted: bool, r: SessionResult)
    requires i <= |turns|
  {
    var j := i + |r.events| / 2;
    j <= |turns| && EndsAt(turns, i, aborted, j, r)
  }

  /** A loop that stops with no event is laid out and ends as stated. */
  lemma SilentStopLaidOut(turns: seq<Turn>, i: nat, aborted: bool, r: SessionResult)
    requires i <= |turns| && ValidTrace(turns) && r.events == [] && r.end != ExitCommand
    requires r.end == AbortObserved <==> aborted || (i < |turns| && turns[i].abortAfterRead)
    requires r.end == TraceExhausted <==> !aborted && i == |turns|
    requires r.end == LineTooLong <==>
               !aborted && i < |turns| && !turns[i].abortAfterRead && !Fits(turns[i].line)
    ensures WritesLaidOut(turns, i, r.events) && ScansLaidOut(turns, i, r.events)
    ensures EndsAsStated(turns, i, aborted, r)
  {
    assert |r.events| / 2 == 0;
  }

  /** A loop that stops right after writing the exit command is laid out and
      ends as stated. */
  lemma ExitStopLaidOut(turns: seq<Turn>, i: nat, aborted: bool)
    requires i < |turns| && ValidTrace(turns) && !aborted
    requires !turns[i].abortAfterRead && Fits(turns[i].line) && IsExit(turns[i].line)
    ensures WritesLaidOut(turns, i, Serve(turns, i, aborted).events)
    ensures ScansLaidOut(turns, i, Serve(turns, i, aborted).events)
    ensures EndsAsStated(turns, i, aborted, Serve(turns, i, aborted))
  {
    ServeStops(turns, i, aborted);
    var r := Serve(turns, i, aborted);
    assert r.events == [Wrote(Wire(turns[i].line))];
    assert |r.events| / 2 == 0;
  }

  lemma StopLaidOut(turns: seq<Turn>, i: nat, aborted: bool)
    requires i <= |turns| && ValidTrace(turns)
    requires aborted || i == |turns| || !Continues(turns[i])
    ensures WritesLaidOut(turns, i, Serve(turns, i, aborted).events)
    ensures ScansLaidOut(turns, i, Serve(turns, i, aborted).events)
    ensures EndsAsStated(turns, i, aborted, Serve(turns, i, aborted))
  {
    ServeStops(turns, i, aborted);
    if !aborted && i < |turns| && !turns[i].abortAfterRead && Fits(turns[i].line) {
      ExitStopLaidOut(turns, i, aborted);
    } else {
      SilentStopLaidOut(turns, i, aborted, Serve(turns, i, aborted));
    }
  }

  /** Prepending a full round for turn `i` (its write `w` and its scan
      `sc`) to a layout that starts at turn `i + 1` gives one that starts at
      turn `i`. The three lemmas below state this without mentioning the
      loop itself, so that the layout reasoning stays small. */
  lemma ConsWrites(turns: seq<Turn>, i: nat, w: Event, sc: Event, rest: seq<Event>)
    requires i < |turns| && WroteTurn(turns[i], w) && WritesLaidOut(turns, i + 1, rest)
    ensures WritesLaidOut(turns, i, [w, sc] + rest)
  {
    var ev := [w, sc] + rest;
    assert |ev| == |rest| + 2 && ev[0] == w;
    forall j | i <= j < |turns| && 2 * (j - i) < |ev|
      ensures WroteTurn(turns[j], ev[2 * (j - i)])
    {
      if j == i {
        assert ev[2 * (j - i)] == w;
      } else {
        var k := 2 * (j - (i + 1));
        assert 2 * (j - i) == k + 2 && ev[k + 2] == rest[k];
        assert WroteTurn(turns[j], rest[k]);
      }
    }
  }

  lemma ConsScans(turns: seq<Turn>, i: nat, w: Event, sc: Event, rest: seq<Event>)
    requires i < |turns| && ScannedTurn(turns[i], sc) && ScanEvents(turns, i + 1, rest)
    ensures ScanEvents(turns, i, [w, sc] + rest)
  {
    var ev := [w, sc] + rest;
    forall j | i <= j < |turns| && 2 * (j - i) + 1 < |ev|
      ensures ScannedTurn(turns[j], ev[2 * (j - i) + 1])
    {
      if j == i {
        assert ev[2 * (j - i) + 1] == sc;
      } else {
        var k := 2 * (j - (i + 1)) + 1;
        assert 2 * (j - i) + 1 == k + 2 && ev[k + 2] == rest[k];
        assert ScannedTurn(turns[j], rest[k]);
      }
    }
  }

  lemma ConsNoAbort(turns: seq<Turn>, i: nat, w: Event, sc: Event, rest: seq<Event>)
    requires i < |turns|
    requires turns[i].reply.abortAt.Some? ==> rest == []
    requires NoAbortBetween(turns, i + 1, rest)
    ensures NoAbortBetween(turns, i, [w, sc] + rest)
  {
    var ev := [w, sc] + rest;
    forall j | i <= j < |turns| && 2 * (j - i) + 2 < |ev|
      ensures turns[j].reply.abortAt.None?
    {
      if j > i {
        assert 2 * (j - (i + 1)) + 2 < |rest|;
      }
    }
  }

  lemma HalfStep(n: nat)
    ensures (n + 2) / 2 == n / 2 + 1
  {
  }

  lemma ConsEnds(turns: seq<Turn>, i: nat, aborted: bool, w: Event, sc: Event, rest: SessionResult)
    requires i < |turns| && !aborted && !turns[i].abortAfterRead && Fits(turns[i].line)
    requires !IsExit(turns[i].line)
    requires EndsAsStated(turns, i + 1, turns[i].reply.abortAt.Some?, rest)
    ensures EndsAsStated(turns, i, aborted, SessionResult([w, sc] + rest.events, rest.end))
  {
    var r := SessionResult([w, sc] + rest.events, rest.end);
    HalfStep(|rest.events|);
    var j := (i + 1) + |rest.events| / 2;
    assert j == i + |r.events| / 2;
    assert EndsAt(turns, i + 1, turns[i].reply.abortAt.Some?, j, rest);
    assert AbortPending(turns, i, j, aborted)
        == AbortPending(turns, i + 1, j, turns[i].reply.abortAt.Some?);
    assert EndsAt(turns, i, aborted, j, r);
  }

  /** A full round extends the layout of the rest of the loop. */
  lemma RoundLaidOut(turns: seq<Turn>, i: nat, aborted: bool)
    requires i < |turns| && ValidTrace(turns) && !aborted && Continues(turns[i])
    requires var rest := Serve(turns, i + 1, turns[i].reply.abortAt.Some?);
      && WritesLaidOut(turns, i + 1, rest.events) && ScansLaidOut(turns, i + 1, rest.events)
      && EndsAsStated(turns, i + 1, turns[i].reply.abortAt.Some?, rest)
    ensures var r := Serve(turns, i, aborted);
      && WritesLaidOut(turns, i, r.events) && ScansLaidOut(turns, i, r.events)
      && EndsAsStated(turns, i, aborted, r)
  {
    var t := turns[i];
    var rest := Serve(turns, i + 1, t.reply.abortAt.Some?);
    var w := Wrote(Wire(t.line));
    var sc := Scanned(CLIENT_REPLY_TIMEOUT, Scan(t.reply));
    ServeRound(turns, i, aborted);
    assert t.reply.abortAt.Some? ==> rest.events == [];
    ConsWrites(turns, i, w, sc, rest.events);
    ConsScans(turns, i, w, sc, rest.events);
    ConsNoAbort(turns, i, w, sc, rest.events);
    ConsEnds(turns, i, aborted, w, sc, rest);
  }

  /** Every run of the loop is laid out and ends as stated. */
  lemma {:induction false} ServeShape(turns: seq<Turn>, i: nat, aborted: bool)
    requires i <= |turns| && ValidTrace(turns)
    ensures WritesLaidOut(turns, i, Serve(turns, i, aborted).events)
    ensures ScansLaidOut(turns, i, Serve(turns, i, aborted).events)
    ensures EndsAsStated(turns, i, aborted, Serve(turns, i, aborted))
    decreases |turns| - i
  {
    if aborted || i == |turns| || !Continues(turns[i]) {
      StopLaidOut(turns, i, aborted);
    } else {
      ServeShape(turns, i + 1, turns[i].reply.abortAt.Some?);
      RoundLaidOut(turns, i, aborted);
    }
  }

  /** `handle_client`: one scan with the short timeout drains the prompt,
      then the loop runs with the abort flag as that scan left it. After the
      prompt scan, event `2j + 1` writes turn `j`'s assembled line and
      event `2j + 2` scans its reply with the long timeout; the exit command
      is never followed by a scan; the session stops at the first turn that
      does not complete a round, for the reason `EndsAt` gives. */
  function HandleClient(prompt: Reply, turns: seq<Turn>): (r: SessionResult)
    requires ValidTrace(turns)
    ensures |r.events| >= 1 && r.events[0] == Scanned(PROMPT_TIMEOUT, Scan(prompt))
    ensures WritesLaidOut(turns, 0, r.events[1..]) && ScansLaidOut(turns, 0, r.events[1..])
    ensures EndsAsStated(turns, 0, prompt.abortAt.Some?, SessionResult(r.events[1..], r.end))
  {
    var rest := Serve(turns, 0, prompt.abortAt.Some?);
    ServeShape(turns, 0, prompt.abortAt.Some?);
    var events := [Scanned(PROMPT_TIMEOUT, Scan(prompt))] + rest.events;
    assert events[1..] == rest.events;
    SessionResult(events, rest.end)
  }

  /** The abort flag set during or after the prompt scan: whatever the scan
      read, nothing is ever written and the session ends by the abort. */
  lemma AbortDuringPrompt(prompt: Reply, turns: seq<Turn>)
    requires ValidTrace(turns) && prompt.abortAt.Some?
    ensures HandleClient(prompt, turns)
         == SessionResult([Scanned(PROMPT_TIMEOUT, Scan(prompt))], AbortObserved)
  {
    var r := HandleClient(prompt, turns);
    assert r.events[1..] == [];
    assert |r.events| == 1;
  }

  /** The abort flag set before the session starts: the prompt scan reads
      nothing and nothing is ever written. */
  lemma AbortBeforeStart(prompt: Reply, turns: seq<Turn>)
    requires ValidTrace(turns) && prompt.abortAt == Some(0)
    ensures HandleClient(prompt, turns)
         == SessionResult([Scanned(PROMPT_TIMEOUT, ScanResult([], 0, Aborted))], AbortObserved)
  {
    AbortedScanReadsNothing(prompt.bytes);
  }

  /** The abort flag set while `fgets` reads the first line: the line is
      dropped and nothing is written. */
  lemma AbortDuringFirstRead(prompt: Reply, t: Turn, more: seq<Turn>)
    requires ValidTrace([t] + more) && prompt.abortAt.None? && t.abortAfterRead
    ensures HandleClient(prompt, [t] + more)
         == SessionResult([Scanned(PROMPT_TIMEOUT, Scan(prompt))], AbortObserved)
  {
  }

  /** The operator types "exit": the assembled exit command is written and
      the session ends without waiting for a reply. */
  lemma ExitEndsSession(prompt: Reply, reply: Reply, more: seq<Turn>)
    requires ValidTrace([Turn(EXIT_CMD, false, reply)] + more) && prompt.abortAt.None?
    ensures Fits(EXIT_CMD)
    ensures HandleClient(prompt, [Turn(EXIT_CMD, false, reply)] + more)
         == SessionResult([Scanned(PROMPT_TIMEOUT, Scan(prompt)), Wrote(Wire(EXIT_CMD))], ExitCommand)
  {
    var turns := [Turn(EXIT_CMD, false, reply)] + more;
    assert Fits(EXIT_CMD) && IsExit(EXIT_CMD);
    assert turns[0].line == EXIT_CMD;
    ServeStops(turns, 0, false);
  }

  /** The operator types "ls": the peer receives `ls ; printf "` followed by
      the raw sentinels and `"` with a newline. */
  lemma ListCommandWire()
    ensures NUL !in Ascii("ls\n") && Fits(Ascii("ls\n"))
    ensures Wire(Ascii("ls\n")) == Ascii("ls ; printf \"") + [ETX, EOT] + Ascii("\"\n")
  {
    ListTexts();
    ListWireBytes();
  }

  lemma ListTexts()
    ensures Ascii("ls\n") == [108, 115, NL]
    ensures Ascii("ls ; printf \"") + [ETX, EOT] + Ascii("\"\n")
         == [108, 115] + SEPARATOR + TRAILER
  {
    assert Ascii("ls ; printf \"") == [108, 115] + SEPARATOR + PRINTF_OPEN;
    assert Ascii("\"\n") == PRINTF_CLOSE;
  }

  lemma ListWireBytes()
    ensures NUL !in [108, 115, NL] && Fits([108, 115, NL])
    ensures Wire([108, 115, NL]) == [108, 115] + SEPARATOR + TRAILER
  {
    var line: seq<byte> := [108, 115, NL];
    LiteralFacts();
    assert line[..2] == [108, 115];
    WireOfCommand(line);
  }

  /** The operator presses enter on an empty line: the peer receives the
      trailer alone. */
  lemma EmptyLineWire()
    ensures Fits([NL]) && Wire([NL]) == Ascii("printf \"") + [ETX, EOT] + Ascii("\"\n")
  {
    WireOfEmptyLine();
    LiteralsSpellTheirText();
  }
}
