/** The sentinel scanner (`read_cli_buffer`): reads the remote shell's reply
    one byte at a time, echoes it to the operator and decides when the reply
    has ended. The reply is the finite sequence of bytes that arrive before
    the readiness wait times out. */
module Scanner {
  import opened Wrappers
  import opened Bytes

  /** The bytes one scan can read before the wait times out, and the moment
      the abort flag is seen: `Some(k)` means it is set by the time the loop
      checks it after `k` bytes were read (`Some(0)`: already set on entry).
      If the scan returns before that check, the caller sees the flag next. */
  datatype Reply = Reply(bytes: seq<byte>, abortAt: Option<nat>)

  /** How a scan ended: the terminator space was read, the wait timed out
      (no error is raised), or the abort flag stopped the loop. */
  datatype Outcome = Completed | TimedOut | Aborted

  /** What a scan echoed to the terminal, how many bytes it read from the
      connection, and how it ended. */
  datatype ScanResult = ScanResult(output: seq<byte>, consumed: nat, outcome: Outcome)

  /** The two sentinel bytes, which are never echoed. */
  predicate IsSentinel(b: byte)
  {
    b == ETX || b == EOT
  }

  /** `s` with every sentinel byte removed, the rest kept in order. */
  function Strip(s: seq<byte>): (r: seq<byte>)
    ensures |r| <= |s|
  {
    if |s| == 0 then []
    else
      var last := s[|s| - 1];
      Strip(s[..|s| - 1]) + (if IsSentinel(last) then [] else [last])
  }

  /** Both flags are set once `j` bytes have been read: an END_OF_TEXT and an
      END_OF_TRANSMISSION byte occur among them, in either order and not
      necessarily next to each other. */
  predicate Armed(s: seq<byte>, j: nat)
    requires j <= |s|
  {
    ETX in s[..j] && EOT in s[..j]
  }

  /** Byte `j` ends the scan: a space read while both flags are set. */
  predicate IsTerminator(s: seq<byte>, j: int)
  {
    0 <= j < |s| && s[j] == SPACE && Armed(s, j)
  }

  predicate NoTerminatorBefore(s: seq<byte>, k: nat)
    requires k <= |s|
  {
    forall j :: 0 <= j < k ==> !IsTerminator(s, j)
  }

  /** How many bytes the scan may read at most: all of them, or those before
      the abort flag is seen. */
  function Limit(reply: Reply): (n: nat)
    ensures n <= |reply.bytes|
  {
    match reply.abortAt
    case None => |reply.bytes|
    case Some(k) => if k < |reply.bytes| then k else |reply.bytes|
  }

  /** The abort flag is seen by the scan's own loop check. */
  predicate AbortsWithin(reply: Reply)
  {
    reply.abortAt.Some? && reply.abortAt.value <= |reply.bytes|
  }

  /** The scan loop from the state after `i` bytes: the two flags and the
      bytes echoed so far. Each iteration checks the abort flag, waits
      (running out of bytes is the timeout), reads one byte and dispatches
      on it exactly as the `switch` does. */
  function ScanLoop(reply: Reply, i: nat, etx: bool, eot: bool, out: seq<byte>): ScanResult
    requires i <= |reply.bytes|
    decreases |reply.bytes| - i
  {
    if reply.abortAt.Some? && reply.abortAt.value <= i then ScanResult(out, i, Aborted)
    else if i == |reply.bytes| then ScanResult(out, i, TimedOut)
    else
      var b := reply.bytes[i];
      if b == EOT then ScanLoop(reply, i + 1, etx, true, out)
      else if b == ETX then ScanLoop(reply, i + 1, true, eot, out)
      else if b == SPACE then
        if etx && eot then ScanResult(out + [b], i + 1, Completed)
        else ScanLoop(reply, i + 1, etx, eot, out + [b])
      else ScanLoop(reply, i + 1, etx, eot, out + [b])
  }

  /** Reading one more byte extends the echoed text by that byte unless it
      is a sentinel, and sets the matching flag if it is one. */
  lemma StepFacts(s: seq<byte>, i: nat)
    requires i < |s|
    ensures Strip(s[..i + 1]) == Strip(s[..i]) + (if IsSentinel(s[i]) then [] else [s[i]])
    ensures ETX in s[..i + 1] <==> ETX in s[..i] || s[i] == ETX
    ensures EOT in s[..i + 1] <==> EOT in s[..i] || s[i] == EOT
  {
    assert s[..i + 1] == s[..i] + [s[i]];
    assert s[..i + 1][..i] == s[..i];
  }

  /** What a scan that has read `i` bytes without finishing promises about
      its result `r`: it stops at the first terminator within the limit, or
      reads up to the limit; it echoes exactly the non-sentinel bytes it
      read; it reports an abort exactly when its own check saw the flag. */
  predicate MeetsSpec(reply: Reply, i: nat, r: ScanResult)
  {
    && i <= r.consumed <= Limit(reply)
    && r.output == Strip(reply.bytes[..r.consumed])
    && (r.outcome == Completed ==>
          1 <= r.consumed && IsTerminator(reply.bytes, r.consumed - 1)
          && NoTerminatorBefore(reply.bytes, r.consumed - 1))
    && (r.outcome != Completed ==>
          r.consumed == Limit(reply) && NoTerminatorBefore(reply.bytes, Limit(reply)))
    && (r.outcome == Aborted <==> r.outcome != Completed && AbortsWithin(reply))
  }

  /** The loop state after `i` bytes agrees with those bytes: the flags say
      which sentinels were read, the echo holds the rest, and no terminator
      has been read yet. */
  predicate Consistent(s: seq<byte>, i: nat, etx: bool, eot: bool, out: seq<byte>)
  {
    && i <= |s|
    && etx == (ETX in s[..i]) && eot == (EOT in s[..i])
    && out == Strip(s[..i])
    && NoTerminatorBefore(s, i)
  }

  /** Reading a byte that is not a terminator keeps the state consistent. */
  lemma ReadKeepsConsistent(s: seq<byte>, i: nat, etx: bool, eot: bool, out: seq<byte>)
    requires Consistent(s, i, etx, eot, out) && i < |s| && !IsTerminator(s, i)
    ensures Consistent(s, i + 1, etx || s[i] == ETX, eot || s[i] == EOT,
                       out + (if IsSentinel(s[i]) then [] else [s[i]]))
  {
    StepFacts(s, i);
  }

  /** Reading the terminator ends the scan as specified. */
  lemma TerminatorMeetsSpec(reply: Reply, i: nat, etx: bool, eot: bool, out: seq<byte>)
    requires Consistent(reply.bytes, i, etx, eot, out) && i < Limit(reply)
    requires reply.bytes[i] == SPACE && etx && eot
    ensures MeetsSpec(reply, i, ScanResult(out + [SPACE], i + 1, Completed))
  {
    StepFacts(reply.bytes, i);
  }

  /** Running out of bytes or seeing the abort flag ends the scan as
      specified. */
  lemma StopMeetsSpec(reply: Reply, i: nat, etx: bool, eot: bool, out: seq<byte>)
    requires Consistent(reply.bytes, i, etx, eot, out) && i == Limit(reply)
    requires reply.abortAt.None? || i <= reply.abortAt.value
    ensures MeetsSpec(reply, i, ScanLoop(reply, i, etx, eot, out))
  {
  }

  /** One iteration that reads a byte other than the terminator: the flags
      record a sentinel, the echo grows by any other byte. */
  lemma ScanLoopStep(reply: Reply, i: nat, etx: bool, eot: bool, out: seq<byte>)
    requires i < |reply.bytes| && !(reply.abortAt.Some? && reply.abortAt.value <= i)
    requires !(reply.bytes[i] == SPACE && etx && eot)
    ensures var b := reply.bytes[i];
      ScanLoop(reply, i, etx, eot, out)
      == ScanLoop(reply, i + 1, etx || b == ETX, eot || b == EOT,
                  out + (if IsSentinel(b) then [] else [b]))
  {
    var b := reply.bytes[i];
    if IsSentinel(b) {
      assert out + [] == out;
    }
  }

  /** What a scan promises from a later state it also promises from an
      earlier one. */
  lemma MeetsSpecEarlier(reply: Reply, i: nat, r: ScanResult)
    requires MeetsSpec(reply, i + 1, r)
    ensures MeetsSpec(reply, i, r)
  {
  }

  /** The loop, started from a state consistent with the bytes read so far,
      meets the specification. */
  lemma {:induction false} ScanLoopMeetsSpec(reply: Reply, i: nat, etx: bool, eot: bool, out: seq<byte>)
    requires Consistent(reply.bytes, i, etx, eot, out)
    requires reply.abortAt.None? || i <= reply.abortAt.value
    ensures MeetsSpec(reply, i, ScanLoop(reply, i, etx, eot, out))
    decreases |reply.bytes| - i
  {
    var s := reply.bytes;
    if i == Limit(reply) {
      StopMeetsSpec(reply, i, etx, eot, out);
    } else if s[i] == SPACE && etx && eot {
      TerminatorMeetsSpec(reply, i, etx, eot, out);
    } else {
      var b := s[i];
      ReadKeepsConsistent(s, i, etx, eot, out);
      ScanLoopStep(reply, i, etx, eot, out);
      var next := out + (if IsSentinel(b) then [] else [b]);
      ScanLoopMeetsSpec(reply, i + 1, etx || b == ETX, eot || b == EOT, next);
      MeetsSpecEarlier(reply, i, ScanLoop(reply, i + 1, etx || b == ETX, eot || b == EOT, next));
    }
  }

  /** `read_cli_buffer`: a scan from cleared flags.
      It succeeds exactly when a space arrives, within the limit, after at
      least one END_OF_TEXT and one END_OF_TRANSMISSION byte read by this
      scan; it then stops right after the first such space. Otherwise it
      reads every byte up to the limit and ends by timeout or abort.
      Whatever it reads it echoes, minus the sentinels, in order. */
  function Scan(reply: Reply): (r: ScanResult)
    ensures r.consumed <= Limit(reply)
    ensures r.output == Strip(reply.bytes[..r.consumed])
    ensures r.outcome == Completed <==>
              exists j :: 0 <= j < Limit(reply) && IsTerminator(reply.bytes, j)
    ensures r.outcome == Completed ==>
              1 <= r.consumed && IsTerminator(reply.bytes, r.consumed - 1)
              && NoTerminatorBefore(reply.bytes, r.consumed - 1)
    ensures r.outcome != Completed ==> r.consumed == Limit(reply)
    ensures r.outcome == Aborted <==> r.outcome != Completed && AbortsWithin(reply)
  {
    assert reply.bytes[..0] == [];
    ScanLoopMeetsSpec(reply, 0, false, false, []);
    ScanLoop(reply, 0, false, false, [])
  }

  /** The echo keeps exactly the bytes that are not sentinels: every space
      and every other byte is echoed, no sentinel ever is. */
  lemma {:induction false} StripKeepsNonSentinels(s: seq<byte>)
    ensures forall b :: b in Strip(s) <==> b in s && !IsSentinel(b)
  {
    if |s| > 0 {
      var init := s[..|s| - 1];
      StripKeepsNonSentinels(init);
      assert s == init + [s[|s| - 1]];
    }
  }

  /** The echo of a concatenation is the concatenation of the echoes, so
      the bytes keep their order. */
  lemma {:induction false} StripAppend(a: seq<byte>, b: seq<byte>)
    ensures Strip(a + b) == Strip(a) + Strip(b)
    decreases |b|
  {
    if |b| > 0 {
      var init := b[..|b| - 1];
      StripAppend(a, init);
      assert (a + b)[..|a + b| - 1] == a + init;
    } else {
      assert a + b == a;
    }
  }

  /** The flags are never cleared: once both sentinels have been read, they
      stay read for the rest of the scan. */
  lemma ArmedIsSticky(s: seq<byte>, j: nat, k: nat)
    requires j <= k <= |s| && Armed(s, j)
    ensures Armed(s, k)
  {
    assert s[..j] == s[..k][..j];
  }

  /** The inherited fragility: once both sentinels have been read anywhere
      in the scan, the next space ends it, whatever came in between. */
  lemma AnyLaterSpaceTerminates(s: seq<byte>, j: nat, k: nat)
    requires j <= k < |s| && Armed(s, j) && s[k] == SPACE
    ensures IsTerminator(s, k)
  {
    ArmedIsSticky(s, j, k);
  }

  /** The scan is decided by its first terminator: when a space after both
      sentinels arrives within the limit, the scan reads up to and
      including that space and nothing more. */
  lemma ScanStopsAtFirstTerminator(reply: Reply, j: nat)
    requires j < Limit(reply) && IsTerminator(reply.bytes, j)
    requires NoTerminatorBefore(reply.bytes, j)
    ensures Scan(reply) == ScanResult(Strip(reply.bytes[..j + 1]), j + 1, Completed)
  {
    var r := Scan(reply);
    assert r.outcome == Completed;
    assert !(r.consumed - 1 < j);
    assert !(j < r.consumed - 1);
  }

  /** A scan that completes has read its terminator last, and more bytes
      after the reply change nothing: they stay unread. */
  lemma ScanIgnoresUnread(bytes: seq<byte>, more: seq<byte>, abortAt: Option<nat>)
    requires Scan(Reply(bytes, abortAt)).outcome == Completed
    ensures Scan(Reply(bytes + more, abortAt)) == Scan(Reply(bytes, abortAt))
  {
    var r1 := Scan(Reply(bytes, abortAt));
    var s := bytes + more;
    var j := r1.consumed - 1;
    assert s[..j] == bytes[..j] && s[..j + 1] == bytes[..j + 1];
    assert forall k :: 0 <= k <= j ==> s[..k] == bytes[..k] && s[k] == bytes[k];
    assert forall k :: 0 <= k <= j ==> (IsTerminator(s, k) <==> IsTerminator(bytes, k));
    ScanStopsAtFirstTerminator(Reply(bytes, abortAt), j);
    ScanStopsAtFirstTerminator(Reply(s, abortAt), j);
  }

  /** A scan that starts with the abort flag already set reads nothing. */
  lemma AbortedScanReadsNothing(bytes: seq<byte>)
    ensures Scan(Reply(bytes, Some(0))) == ScanResult([], 0, Aborted)
  {
  }

  /** A peer that sends nothing before the wait expires ends the scan by
      timeout, not by success. */
  lemma SilentPeerTimesOut()
    ensures Scan(Reply([], None)) == ScanResult([], 0, TimedOut)
  {
  }

  /** Text without sentinels is echoed unchanged. */
  lemma {:induction false} StripOfPlainText(s: seq<byte>)
    requires forall k :: 0 <= k < |s| ==> !IsSentinel(s[k])
    ensures Strip(s) == s
  {
    if |s| > 0 {
      StripOfPlainText(s[..|s| - 1]);
    }
  }

  /** In `pre + [SPACE] + rest`, where `pre` holds both sentinels and no
      space, that space is the first terminator. */
  lemma SpaceAfterPrefixTerminates(pre: seq<byte>, rest: seq<byte>)
    requires SPACE !in pre && ETX in pre && EOT in pre
    ensures IsTerminator(pre + [SPACE] + rest, |pre|)
    ensures NoTerminatorBefore(pre + [SPACE] + rest, |pre|)
  {
    var s := pre + [SPACE] + rest;
    assert s[..|pre|] == pre;
    assert forall k :: 0 <= k < |pre| ==> s[k] == pre[k] != SPACE;
  }

  /** A reply whose first space comes after both sentinels: the scan reads
      through that space, echoes everything before it minus the sentinels,
      then the space, and leaves the rest unread. */
  lemma FirstSpaceAfterSentinels(pre: seq<byte>, rest: seq<byte>)
    requires SPACE !in pre && ETX in pre && EOT in pre
    ensures Scan(Reply(pre + [SPACE] + rest, None))
         == ScanResult(Strip(pre) + [SPACE], |pre| + 1, Completed)
  {
    var s := pre + [SPACE] + rest;
    SpaceAfterPrefixTerminates(pre, rest);
    ScanStopsAtFirstTerminator(Reply(s, None), |pre|);
    assert s[..|pre| + 1] == pre + [SPACE];
    StripAppend(pre, [SPACE]);
  }

  /** Sentinels contribute nothing to the echo. */
  lemma StripOfSentinels(text: seq<byte>)
    requires forall k :: 0 <= k < |text| ==> !IsSentinel(text[k])
    ensures Strip(text + [ETX, EOT]) == text && Strip([ETX, EOT] + text) == text
  {
    SentinelPairEchoesNothing();
    StripOfPlainText(text);
    StripAppend(text, [ETX, EOT]);
    StripAppend([ETX, EOT], text);
    assert text + [] == text && [] + text == text;
  }

  lemma SentinelPairEchoesNothing()
    ensures Strip([ETX, EOT]) == []
  {
    assert [ETX, EOT][..1] == [ETX];
  }

  /** The trailer's output ends the scan right after a command's output.
      When the command printed no sentinel byte, the reply is its output,
      the two sentinels and the space of the trailer's output; the scan
      echoes the output and that space and reads nothing after it. Spaces
      in the output do not end the scan, since no sentinel has been seen. */
  lemma OutputThenTrailer(text: seq<byte>, rest: seq<byte>)
    requires forall k :: 0 <= k < |text| ==> !IsSentinel(text[k])
    ensures Scan(Reply(text + [ETX, EOT, SPACE] + rest, None))
         == ScanResult(text + [SPACE], |text| + 3, Completed)
  {
    var s := text + [ETX, EOT, SPACE] + rest;
    var j := |text| + 2;
    OutputThenTrailerTerminates(text, rest);
    ScanStopsAtFirstTerminator(Reply(s, None), j);
    assert s[..j + 1] == (text + [ETX, EOT]) + [SPACE];
    StripOfSentinels(text);
    StripAppend(text + [ETX, EOT], [SPACE]);
    assert Strip([SPACE]) == [SPACE];
  }

  lemma OutputThenTrailerTerminates(text: seq<byte>, rest: seq<byte>)
    requires forall k :: 0 <= k < |text| ==> !IsSentinel(text[k])
    ensures IsTerminator(text + [ETX, EOT, SPACE] + rest, |text| + 2)
    ensures NoTerminatorBefore(text + [ETX, EOT, SPACE] + rest, |text| + 2)
  {
    var s := text + [ETX, EOT, SPACE] + rest;
    var n := |text|;
    assert s[..n + 2] == text + [ETX, EOT];
    assert s[n] == ETX && s[n + 1] == EOT;
    forall k | 0 <= k < n
      ensures ETX !in s[..k]
    {
      assert s[..k] == text[..k];
    }
  }

  /** The peer sends "hello", the two sentinels, a space and "world": the
      operator sees "hello " and the scan stops after the space, leaving
      "world" unread. */
  lemma HelloWorldReply()
    ensures var bytes := Ascii("hello") + [ETX, EOT] + Ascii(" world");
      Scan(Reply(bytes, None)) == ScanResult(Ascii("hello "), 8, Completed)
  {
    HelloWorldTexts();
    OutputThenTrailer(Ascii("hello"), Ascii("world"));
  }

  lemma HelloWorldTexts()
    ensures Ascii("hello") + [ETX, EOT] + Ascii(" world")
         == Ascii("hello") + [ETX, EOT, SPACE] + Ascii("world")
    ensures Ascii("hello ") == Ascii("hello") + [SPACE]
    ensures forall k :: 0 <= k < |Ascii("hello")| ==> !IsSentinel(Ascii("hello")[k])
  {
    assert Ascii("hello") == [104, 101, 108, 108, 111];
    assert Ascii(" world") == [SPACE] + Ascii("world");
  }

  /** False termination: a command whose own output contains the two
      sentinels followed by "a b" ends the scan at the first space; the
      sentinels that the trailer prints are left for the next scan. */
  lemma FalseTermination()
    ensures var bytes := [ETX, EOT] + Ascii("a b") + [ETX, EOT, SPACE];
      Scan(Reply(bytes, None)) == ScanResult(Ascii("a "), 4, Completed)
  {
    var pre := [ETX, EOT] + Ascii("a");
    FalseTerminationTexts();
    StripOfSentinels(Ascii("a"));
    FirstSpaceAfterSentinels(pre, Ascii("b") + [ETX, EOT, SPACE]);
  }

  lemma FalseTerminationTexts()
    ensures [ETX, EOT] + Ascii("a b") + [ETX, EOT, SPACE]
         == ([ETX, EOT] + Ascii("a")) + [SPACE] + (Ascii("b") + [ETX, EOT, SPACE])
    ensures Ascii("a ") == Ascii("a") + [SPACE]
    ensures Ascii("a") == [97]
    ensures SPACE !in [ETX, EOT] + Ascii("a") && ETX in [ETX, EOT] + Ascii("a")
    ensures EOT in [ETX, EOT] + Ascii("a")
  {
    assert Ascii("a b") == Ascii("a") + [SPACE] + Ascii("b");
    assert ([ETX, EOT] + Ascii("a"))[1] == EOT;
  }
}
