/** `HomePrinterRelay`, the relay the service actually starts: its command
    loop, which records each DATA block, and `ProcessData`, which pulls the
    one base64 block out of a recorded message and writes it as a PDF. A
    session is fed the lines `StreamReader.ReadLine` returns, in order;
    running out of lines is `ReadLine` returning null. */
module HomePrinterRelay {
  import opened Wrappers
  import opened Strings
  import opened Smtp
  import opened Decimal
  import opened Ascii
  import Base64

  // ---------------------------------------------------------------------
  // The command loop (`ProcessSingleClient`)
  // ---------------------------------------------------------------------

  /** The dot-unescape applied to each DATA line: a line starting with `..`
      has every non-overlapping `..` replaced by `.`, not just the leading one. */
  function Unescape(line: string): (r: string)
    ensures !StartsWith(line, "..") ==> r == line
    ensures StartsWith(line, "..") ==> StartsWith(r, ".")
  {
    if StartsWith(line, "..") then Replace(line, "..", ".") else line
  }

  /** Where the only `..` is the leading one, the unescape removes exactly
      the dot a sender added in front of a line starting with `.`. */
  lemma UnescapeLeadingDot(t: string)
    requires forall j :: !OccursAt(t, "..", j)
    ensures Unescape("." + ("." + t)) == "." + t
  {
    var line := "." + ("." + t);
    assert line[..2] == ".." && line[2..] == t;
    ReplaceWithoutOccurrence(t, "..", ".");
  }

  /** A line already holding a `..` past its start loses dots there too:
      `..a..b` is recorded as `.a.b`. */
  lemma UnescapeReplacesInnerPairs()
    ensures Unescape("..a..b") == ".a.b"
  {
    var line := "..a..b";
    assert line[..2] == ".." && line[2..] == "a..b";
    var t := "a..b";
    assert t[..2][0] == 'a';
    assert t[1..] == "..b" && t[1..][..2] == ".." && t[1..][2..] == "b";
  }

  /** The DATA block from line `pos` on: every line before the first lone
      `.`, unescaped, and the line after that `.`; `None` where the lines run
      out first (`currentLine.StartsWith` on null throws). */
  function DataBlock(lines: seq<string>, pos: nat): (r: Option<(seq<string>, nat)>)
    ensures r.None? <==> forall j :: pos <= j < |lines| ==> lines[j] != DataEnd
    ensures r.Some? ==> pos < r.value.1 <= |lines| && lines[r.value.1 - 1] == DataEnd
    ensures r.Some? ==> |r.value.0| == r.value.1 - 1 - pos
    ensures r.Some? ==> forall j :: pos <= j < r.value.1 - 1 ==>
      lines[j] != DataEnd && r.value.0[j - pos] == Unescape(lines[j])
    decreases |lines| - pos
  {
    if pos >= |lines| then None
    else if lines[pos] == DataEnd then Some(([], pos + 1))
    else
      match DataBlock(lines, pos + 1)
      case None => None
      case Some((block, next)) => Some(([Unescape(lines[pos])] + block, next))
  }

  /** What a session leaves behind: the replies sent, the DATA blocks
      recorded (each handed to `ProcessData`), and how it ended. */
  datatype Session = Session(replies: seq<string>, messages: seq<seq<string>>, ending: Ending)

  /** What one command line does. */
  datatype Command = Close | Ignore | Answer | Data

  /** The command dispatch: a case-sensitive prefix match. An empty line or
      one starting with `QUIT` or `quit` closes the connection; `EHLO`,
      `RCPT TO:` and `MAIL FROM:` are answered, except a bare `EHLO`, whose
      `Substring(5)` throws before the reply; anything unrecognised is only
      logged. */
  function Dispatch(msg: string): (c: Command)
    ensures c == Close <==> msg == "" || StartsWith(msg, "QUIT") || StartsWith(msg, "quit")
    ensures c == Answer <==>
      (StartsWith(msg, "EHLO") && |msg| >= 5) || StartsWith(msg, "RCPT TO:") || StartsWith(msg, "MAIL FROM:")
    ensures c == Data <==> StartsWith(msg, "DATA")
  {
    CommandInitials(msg);
    if msg == "" || StartsWith(msg, "QUIT") || StartsWith(msg, "quit") then Close
    else if StartsWith(msg, "EHLO") then (if |msg| < 5 then Ignore else Answer)
    else if StartsWith(msg, "RCPT TO:") || StartsWith(msg, "MAIL FROM:") then Answer
    else if StartsWith(msg, "DATA") then Data
    else Ignore
  }

  /** The command loop from line `pos` on: `250 OK` for each answered
      command; `354` for `DATA`, then `250 OK` once its block has ended at
      its `.`. */
  function Run(lines: seq<string>, pos: nat, replies: seq<string>, messages: seq<seq<string>>): (r: Session)
    ensures |replies| > 0 ==> |r.replies| > 0 && r.replies[0] == replies[0]
    ensures FixedReplies(replies) ==> FixedReplies(r.replies)
    ensures |r.messages| >= |messages| && r.messages[..|messages|] == messages
    decreases |lines| - pos
  {
    if pos >= |lines| then Session(replies, messages, Disconnect)
    else
      match Dispatch(lines[pos])
      case Close => Session(replies, messages, Quit)
      case Ignore => Run(lines, pos + 1, replies, messages)
      case Answer => Run(lines, pos + 1, replies + [OkReply], messages)
      case Data =>
        match DataBlock(lines, pos + 1)
        case Some((block, next)) => Run(lines, next, replies + [StartData, OkReply], messages + [block])
        case None => Session(replies + [StartData], messages, Disconnect)
  }

  /** A whole connection: the banner, then the command loop. */
  function Serve(lines: seq<string>): (r: Session)
    ensures |r.replies| >= 1 && r.replies[0] == Banner
    ensures FixedReplies(r.replies)
  {
    Run(lines, 0, [Banner], [])
  }

  /** `ProcessSingleClient`: the command loop, with the DATA loop that
      copies the block line by line into the message file. */
  method ProcessSingleClient(lines: seq<string>) returns (r: Session)
    ensures r == Serve(lines)
  {
    var replies := [Banner];
    var messages: seq<seq<string>> := [];
    var pos := 0;
    while pos < |lines|
      invariant Run(lines, pos, replies, messages) == Serve(lines)
      decreases |lines| - pos
    {
      var msg := lines[pos];
      pos := pos + 1;
      if msg == "" || StartsWith(msg, "QUIT") || StartsWith(msg, "quit") {
        return Session(replies, messages, Quit);
      } else if StartsWith(msg, "EHLO") {
        if |msg| < 5 {
          // `msg.Substring(5)` throws; the exception is caught and logged
          continue;
        }
        replies := replies + [OkReply];
      } else if StartsWith(msg, "RCPT TO:") {
        var emailTo := CleanEmailString(msg, "RCPT TO:");
        replies := replies + [OkReply];
      } else if StartsWith(msg, "MAIL FROM:") {
        var emailFrom := CleanEmailString(msg, "MAIL FROM:");
        replies := replies + [OkReply];
      } else if StartsWith(msg, "DATA") {
        var block := ReceiveData(lines, pos);
        if block.None? {
          // `ReadLine` returned null and `currentLine.StartsWith` threw; the
          // next `ReadLine` is null again and closes the session
          return Session(replies + [StartData], messages, Disconnect);
        }
        replies := replies + [StartData, OkReply];
        messages := messages + [block.value.0];
        pos := block.value.1;
      }
    }
    return Session(replies, messages, Disconnect);
  }

  /** The DATA loop of `ProcessSingleClient`: copies lines, unescaped, up
      to the lone `.`. */
  method ReceiveData(lines: seq<string>, start: nat) returns (r: Option<(seq<string>, nat)>)
    ensures r == DataBlock(lines, start)
  {
    var pos := start;
    var file: seq<string> := [];
    while true
      invariant start <= pos && (pos == start || pos <= |lines|)
      invariant |file| == pos - start
      invariant forall j :: start <= j < pos ==> lines[j] != DataEnd && file[j - start] == Unescape(lines[j])
      decreases |lines| - pos
    {
      if pos >= |lines| {
        return None;
      }
      var currentLine := lines[pos];
      pos := pos + 1;
      if currentLine == DataEnd {
        break;
      }
      if StartsWith(currentLine, "..") {
        currentLine := Replace(currentLine, "..", ".");
      }
      file := file + [currentLine];
    }
    DataBlockAt(lines, start, pos, file);
    return Some((file, pos));
  }

  /** The block ending at the first `.` after `start` is the one `DataBlock`
      finds. */
  lemma {:induction false} DataBlockAt(lines: seq<string>, start: nat, next: nat, block: seq<string>)
    requires start < next <= |lines| && lines[next - 1] == DataEnd
    requires |block| == next - 1 - start
    requires forall j :: start <= j < next - 1 ==> lines[j] != DataEnd && block[j - start] == Unescape(lines[j])
    ensures DataBlock(lines, start) == Some((block, next))
    decreases next - start
  {
    if start < next - 1 {
      DataBlockAt(lines, start + 1, next, block[1..]);
      assert block == [Unescape(lines[start])] + block[1..];
    }
  }

  // ---------------------------------------------------------------------
  // The output file name
  // ---------------------------------------------------------------------

  /** The parts of `DateTime.Now` the name uses. */
  datatype DateTime = DateTime(year: nat, month: nat, day: nat, hour: nat, minute: nat, second: nat)

  predicate ValidDateTime(t: DateTime) {
    1 <= t.year <= 9999 && 1 <= t.month <= 12 && 1 <= t.day <= 31 &&
    t.hour < 24 && t.minute < 60 && t.second < 60
  }

  const ScanSuffix: string := " - Scan.pdf"

  /** `{Year}-{Month:D2}-{Day:D2} {Hour:D2}-{Minute:D2}-{Second:D2} - Scan.pdf`:
      the year as it is, everything else as two digits. */
  function FileName(t: DateTime): (r: string)
    requires ValidDateTime(t)
    ensures |r| == |Digits(t.year)| + 26
    ensures EndsWith(r, ScanSuffix)
  {
    Digits(t.year) + "-" + Pad2(t.month) + "-" + Pad2(t.day) + " " +
    Pad2(t.hour) + "-" + Pad2(t.minute) + "-" + Pad2(t.second) + ScanSuffix
  }

  /** Where each field sits in the name, `n` being the length of the year. */
  lemma FileNameFields(t: DateTime)
    requires ValidDateTime(t)
    ensures var r, n := FileName(t), |Digits(t.year)|;
      r[..n] == Digits(t.year) &&
      r[n + 1..n + 3] == Pad2(t.month) && r[n + 4..n + 6] == Pad2(t.day) &&
      r[n + 7..n + 9] == Pad2(t.hour) && r[n + 10..n + 12] == Pad2(t.minute) &&
      r[n + 13..n + 15] == Pad2(t.second)
  {
  }

  /** Two moments a second or more apart get different names. */
  lemma FileNameInjective(a: DateTime, b: DateTime)
    requires ValidDateTime(a) && ValidDateTime(b)
    requires FileName(a) == FileName(b)
    ensures a == b
  {
    FileNameFields(a);
    FileNameFields(b);
    var n := |Digits(a.year)|;
    assert Digits(a.year) == FileName(a)[..n] == Digits(b.year);
    DigitsInjective(a.year, b.year);
  }

  // ---------------------------------------------------------------------
  // Extracting the scan (`ProcessData`)
  // ---------------------------------------------------------------------

  /** The line that announces the base64 block. */
  const StartLineText: string := "Content-Transfer-Encoding: base64"

  /** What `StringBuilder.AppendLine` adds after each line. */
  const NewLine: string := "\n"

  /** `Path.Combine(dir, name)` for a relative `name`, with `/` as separator. */
  function Combine(dir: string, name: string): (r: string)
    ensures EndsWith(r, name)
    ensures dir != "" ==> StartsWith(r, dir)
  {
    if dir == "" then name
    else if EndsWith(dir, "/") then dir + name
    else dir + "/" + name
  }

  /** A file written: its path and its bytes. */
  datatype Output = Output(path: string, contents: seq<byte>)

  /** The `foreach` over the message's lines from line `i` on, given the two
      flags and the text built so far: the text in hand at the first empty
      line read after reading has started, or `None` where the lines run out
      first. */
  function Gather(lines: seq<string>, i: nat, startTextFound: bool, isReading: bool, text: string): (r: Option<string>)
    ensures r.Some? ==> exists k :: i <= k < |lines| && lines[k] == ""
    decreases |lines| - i
  {
    if i >= |lines| then None
    else
      var line := lines[i];
      if !isReading then
        if line == StartLineText then Gather(lines, i + 1, true, false, text)
        else if startTextFound then Gather(lines, i + 1, true, true, text)
        else Gather(lines, i + 1, false, false, text)
      else if line == "" then Some(text)
      else Gather(lines, i + 1, startTextFound, true, text + line + NewLine)
  }

  /** What `ProcessData` writes for a recorded message, if anything: the
      decoded block under the timestamped name in `filePath`. Nothing is
      written where the lines run out, where `filePath` is null
      (`Path.Combine` throws) or where the block is not base64. */
  function Extracted(lines: seq<string>, filePath: Option<string>, now: DateTime): (r: Option<Output>)
    requires ValidDateTime(now)
    ensures r.Some? ==> filePath.Some? && r.value.path == Combine(filePath.value, FileName(now))
    ensures r.Some? ==> exists k :: 0 <= k < |lines| && lines[k] == ""
    ensures var text := Gather(lines, 0, false, false, "");
      r.Some? <==> filePath.Some? && text.Some? && Base64.Decode(text.value).Some?
    ensures var text := Gather(lines, 0, false, false, "");
      r.Some? ==> r.value.contents == Base64.Decode(text.value).value
  {
    match Gather(lines, 0, false, false, "")
    case None => None
    case Some(text) =>
      if filePath.None? then None
      else
        match Base64.Decode(text)
        case None => None
        case Some(bytes) => Some(Output(Combine(filePath.value, FileName(now)), bytes))
  }

  /** `ProcessData`: one pass over the message's lines with the two flags and
      a `StringBuilder`; at most one file is written. */
  method ProcessData(lines: seq<string>, filePath: Option<string>, now: DateTime) returns (r: Option<Output>)
    requires ValidDateTime(now)
    ensures r == Extracted(lines, filePath, now)
  {
    var startTextFound := false;
    var isReading := false;
    var builder := "";
    for i := 0 to |lines|
      invariant Gather(lines, i, startTextFound, isReading, builder) == Gather(lines, 0, false, false, "")
    {
      var line := lines[i];
      if !isReading {
        if line == StartLineText {
          startTextFound := true;
        } else if startTextFound {
          // the line after the marker is taken to be the blank one
          isReading := true;
        }
      } else {
        if line == "" {
          var newFileName := FileName(now);
          if filePath.None? {
            // `Path.Combine` throws on a null path
            return None;
          }
          var newFile := Combine(filePath.value, newFileName);
          var bytes := Base64.Decode(builder);
          if bytes.None? {
            // `Convert.FromBase64String` throws
            return None;
          }
          return Some(Output(newFile, bytes.value));
        } else {
          builder := builder + line + NewLine;
        }
      }
    }
    return None;
  }

  /** The lines of a block run together, as the encoder's output is. */
  function Concat(chunks: seq<string>): string {
    if chunks == [] then "" else chunks[0] + Concat(chunks[1..])
  }

  /** The lines of a block each followed by a line break, as `AppendLine`
      builds them. */
  function JoinLines(chunks: seq<string>): string {
    if chunks == [] then "" else chunks[0] + NewLine + JoinLines(chunks[1..])
  }

  /** The line breaks `AppendLine` adds are white space to the decoder. */
  lemma {:induction false} StripJoinLines(chunks: seq<string>)
    ensures Base64.StripWhitespace(JoinLines(chunks)) == Base64.StripWhitespace(Concat(chunks))
    decreases |chunks|
  {
    if chunks != [] {
      var c, rest := chunks[0], chunks[1..];
      StripJoinLines(rest);
      Base64.StripAppend(c + NewLine, JoinLines(rest));
      Base64.StripAppend(c, NewLine);
      Base64.StripAppend(c, Concat(rest));
      assert Base64.StripWhitespace(NewLine) == [];
    }
  }

  /** Before the marker, lines leave the flags as they are. */
  lemma {:induction false} GatherSkipsToMarker(lines: seq<string>, i: nat, k: nat)
    requires i <= k <= |lines|
    requires forall j :: i <= j < k ==> lines[j] != StartLineText
    ensures Gather(lines, i, false, false, "") == Gather(lines, k, false, false, "")
    decreases k - i
  {
    if i < k {
      GatherSkipsToMarker(lines, i + 1, k);
    }
  }

  /** Once reading, every line up to the first empty one is appended with
      its line break. */
  lemma {:induction false} GatherReads(lines: seq<string>, i: nat, k: nat, found: bool, text: string)
    requires i <= k < |lines| && lines[k] == ""
    requires forall j :: i <= j < k ==> lines[j] != ""
    ensures Gather(lines, i, found, true, text) == Some(text + JoinLines(lines[i..k]))
    decreases k - i
  {
    if i < k {
      GatherReads(lines, i + 1, k, found, text + lines[i] + NewLine);
      assert lines[i..k] == [lines[i]] + lines[i + 1..k];
      assert text + lines[i] + NewLine + JoinLines(lines[i + 1..k]) == text + (lines[i] + NewLine + JoinLines(lines[i + 1..k]));
    } else {
      assert lines[i..k] == [];
      assert text + JoinLines(lines[i..k]) == text;
    }
  }

  /** The block a message laid out as the scanner sends it is gathered:
      anything without the marker, the marker, the line after it, the
      non-empty block lines, an empty line, anything. */
  lemma GathersBlock(pre: seq<string>, skip: string, chunks: seq<string>, post: seq<string>)
    requires forall j :: 0 <= j < |pre| ==> pre[j] != StartLineText
    requires skip != StartLineText
    requires forall j :: 0 <= j < |chunks| ==> chunks[j] != ""
    ensures Gather(pre + [StartLineText, skip] + chunks + [""] + post, 0, false, false, "") == Some(JoinLines(chunks))
  {
    var lines := pre + [StartLineText, skip] + chunks + [""] + post;
    var m := |pre|;
    var k := m + 2 + |chunks|;
    assert lines[m] == StartLineText && lines[m + 1] == skip && lines[k] == "";
    assert lines[m + 2..k] == chunks;
    GatherSkipsToMarker(lines, 0, m);
    assert Gather(lines, m, false, false, "") == Gather(lines, m + 1, true, false, "");
    assert Gather(lines, m + 1, true, false, "") == Gather(lines, m + 2, true, true, "");
    GatherReads(lines, m + 2, k, true, "");
    assert "" + JoinLines(chunks) == JoinLines(chunks);
  }

  /** The gathered lines decode to what their run-together text encodes. */
  lemma DecodesJoinedLines(chunks: seq<string>, pdf: seq<byte>)
    requires Concat(chunks) == Base64.Encode(pdf)
    ensures Base64.Decode(JoinLines(chunks)) == Some(pdf)
  {
    StripJoinLines(chunks);
    Base64.DecodeEncode(pdf);
  }

  /** A message laid out as the scanner sends it, its PDF's base64 text
      broken into non-empty lines, is written out as exactly that PDF. */
  lemma ExtractsScan(pre: seq<string>, skip: string, chunks: seq<string>, post: seq<string>,
                     pdf: seq<byte>, dir: string, now: DateTime)
    requires ValidDateTime(now)
    requires forall j :: 0 <= j < |pre| ==> pre[j] != StartLineText
    requires skip != StartLineText
    requires forall j :: 0 <= j < |chunks| ==> chunks[j] != ""
    requires Concat(chunks) == Base64.Encode(pdf)
    ensures Extracted(pre + [StartLineText, skip] + chunks + [""] + post, Some(dir), now) ==
      Some(Output(Combine(dir, FileName(now)), pdf))
  {
    GathersBlock(pre, skip, chunks, post);
    DecodesJoinedLines(chunks, pdf);
  }

  // ---------------------------------------------------------------------
  // Whole sessions
  // ---------------------------------------------------------------------

  /** A finished DATA block never looked past its `.`. */
  lemma {:induction false} DataBlockExtends(lines: seq<string>, more: seq<string>, pos: nat)
    requires DataBlock(lines, pos).Some?
    ensures DataBlock(lines + more, pos) == DataBlock(lines, pos)
    decreases |lines| - pos
  {
    assert (lines + more)[pos] == lines[pos];
    if lines[pos] != DataEnd {
      DataBlockExtends(lines, more, pos + 1);
    }
  }

  /** Once a line from the client has closed the session, whatever it sends
      after that changes nothing. */
  lemma {:induction false} ClosedIgnoresLaterInput(lines: seq<string>, more: seq<string>, pos: nat,
                                                    replies: seq<string>, messages: seq<seq<string>>)
    requires Run(lines, pos, replies, messages).ending == Quit
    ensures Run(lines + more, pos, replies, messages) == Run(lines, pos, replies, messages)
    decreases |lines| - pos
  {
    assert (lines + more)[pos] == lines[pos];
    match Dispatch(lines[pos])
    case Close =>
    case Ignore => ClosedIgnoresLaterInput(lines, more, pos + 1, replies, messages);
    case Answer => ClosedIgnoresLaterInput(lines, more, pos + 1, replies + [OkReply], messages);
    case Data =>
      DataBlockExtends(lines, more, pos + 1);
      var (block, next) := DataBlock(lines, pos + 1).value;
      ClosedIgnoresLaterInput(lines, more, next, replies + [StartData, OkReply], messages + [block]);
  }

  /** Every character of a block line is in the run-together text. */
  lemma {:induction false} ConcatHasChunkChars(chunks: seq<string>, j: nat, c: char)
    requires j < |chunks| && c in chunks[j]
    ensures c in Concat(chunks)
    decreases j
  {
    if j > 0 {
      ConcatHasChunkChars(chunks[1..], j - 1, c);
    }
  }

  /** No line of the scanner's message starts with a dot: the block lines
      are base64 text and the rest is given. */
  lemma NoDotLines(pre: seq<string>, chunks: seq<string>, post: seq<string>, pdf: seq<byte>)
    requires forall j :: 0 <= j < |pre| ==> !StartsWith(pre[j], ".")
    requires forall j :: 0 <= j < |post| ==> !StartsWith(post[j], ".")
    requires Concat(chunks) == Base64.Encode(pdf)
    ensures var body := pre + [StartLineText, ""] + chunks + [""] + post;
      forall j :: 0 <= j < |body| ==> !StartsWith(body[j], ".")
  {
    var body := pre + [StartLineText, ""] + chunks + [""] + post;
    var m := |pre|;
    forall j | 0 <= j < |body|
      ensures !StartsWith(body[j], ".")
    {
      if m + 2 <= j < m + 2 + |chunks| {
        var c := chunks[j - m - 2];
        assert body[j] == c;
        if c != "" {
          assert c[0] in c;
          ConcatHasChunkChars(chunks, j - m - 2, c[0]);
        }
      } else if j == m {
        assert body[j][0] == 'C';
      } else if j < m {
        assert body[j] == pre[j];
      } else if j > m + 2 + |chunks| {
        assert body[j] == post[j - m - 3 - |chunks|];
      }
    }
  }

  /** A message none of whose lines starts with a dot is recorded unchanged,
      up to the `.` after it. */
  lemma RecordedUnchanged(lines: seq<string>, start: nat, body: seq<string>)
    requires start + |body| < |lines| && lines[start..start + |body|] == body && lines[start + |body|] == DataEnd
    requires forall j :: 0 <= j < |body| ==> !StartsWith(body[j], ".")
    ensures DataBlock(lines, start) == Some((body, start + |body| + 1))
  {
    forall j | start <= j < start + |body|
      ensures lines[j] != DataEnd && body[j - start] == Unescape(lines[j])
    {
      assert lines[j] == body[j - start];
    }
    DataBlockAt(lines, start, start + |body| + 1, body);
  }

  /** `EHLO` with an argument is answered. */
  lemma EhloAnswered(msg: string)
    requires StartsWith(msg, "EHLO ")
    ensures Dispatch(msg) == Answer
  {
    assert msg[..4] == "EHLO" && msg[0] == 'E';
  }

  /** A bare `EHLO` is not: `Substring(5)` throws before the reply. */
  lemma BareEhloIgnored()
    ensures Dispatch("EHLO") == Ignore
  {
    assert "EHLO"[0] == 'E';
  }

  /** `RCPT TO:` and `MAIL FROM:` are answered. */
  lemma AddressCommandAnswered(msg: string)
    requires StartsWith(msg, "RCPT TO:") || StartsWith(msg, "MAIL FROM:")
    ensures Dispatch(msg) == Answer
  {
    assert msg[0] == 'R' || msg[0] == 'M';
  }

  lemma DataDispatched()
    ensures Dispatch("DATA") == Data
  {
    assert "DATA"[0] == 'D' && StartsWith("DATA", "DATA");
  }

  /** Lower-case `quit` closes the connection as `QUIT` does. */
  lemma LowerCaseQuitCloses(msg: string)
    requires StartsWith(msg, "quit")
    ensures Dispatch(msg) == Close
  {
  }

  /** An answered command adds exactly one `250 OK`. */
  lemma AnswerStep(lines: seq<string>, pos: nat, replies: seq<string>, messages: seq<seq<string>>)
    requires pos < |lines| && Dispatch(lines[pos]) == Answer
    ensures Run(lines, pos, replies, messages) == Run(lines, pos + 1, replies + [OkReply], messages)
  {
  }

  /** `DATA` adds `354`, then `250 OK` once its block is recorded. */
  lemma DataStep(lines: seq<string>, pos: nat, replies: seq<string>, messages: seq<seq<string>>)
    requires pos < |lines| && Dispatch(lines[pos]) == Data && DataBlock(lines, pos + 1).Some?
    ensures var (block, next) := DataBlock(lines, pos + 1).value;
      Run(lines, pos, replies, messages) == Run(lines, next, replies + [StartData, OkReply], messages + [block])
  {
  }

  /** The scanner's four commands: three `250 OK`s, then the `354` and
      `250 OK` of a DATA block that ends. */
  lemma CommandsAnswered(lines: seq<string>)
    requires |lines| > 4
    requires Dispatch(lines[0]) == Answer && Dispatch(lines[1]) == Answer && Dispatch(lines[2]) == Answer
    requires Dispatch(lines[3]) == Data && DataBlock(lines, 4).Some?
    ensures var (block, next) := DataBlock(lines, 4).value;
      Serve(lines) == Run(lines, next, [Banner, OkReply, OkReply, OkReply, StartData, OkReply], [block])
  {
    var r1 := [Banner] + [OkReply];
    var r2 := r1 + [OkReply];
    var r3 := r2 + [OkReply];
    AnswerStep(lines, 0, [Banner], []);
    AnswerStep(lines, 1, r1, []);
    AnswerStep(lines, 2, r2, []);
    DataStep(lines, 3, r3, []);
    ScannerReplies();
    assert [] + [DataBlock(lines, 4).value.0] == [DataBlock(lines, 4).value.0];
  }

  /** The scanner's commands around a message none of whose lines starts
      with a dot: the replies are 220, 250, 250, 250, 354, 250 and the
      message is recorded unchanged. */
  lemma RecordsMessage(ehlo: string, from: string, to: string, body: seq<string>)
    requires StartsWith(ehlo, "EHLO ") && StartsWith(from, "MAIL FROM:") && StartsWith(to, "RCPT TO:")
    requires forall j :: 0 <= j < |body| ==> !StartsWith(body[j], ".")
    ensures Serve([ehlo, from, to, "DATA"] + body + [DataEnd, "QUIT"]) ==
      Session([Banner, OkReply, OkReply, OkReply, StartData, OkReply], [body], Quit)
  {
    var lines := [ehlo, from, to, "DATA"] + body + [DataEnd, "QUIT"];
    var n := 4 + |body| + 1;
    assert lines[4..4 + |body|] == body;
    RecordedUnchanged(lines, 4, body);
    EhloAnswered(lines[0]);
    AddressCommandAnswered(lines[1]);
    AddressCommandAnswered(lines[2]);
    DataDispatched();
    CommandsAnswered(lines);
    assert lines[n] == "QUIT" && StartsWith(lines[n], "QUIT");
    assert Dispatch(lines[n]) == Close;
  }

  /** The conversation the scanner holds: `EHLO`, `MAIL FROM:`, `RCPT TO:`,
      `DATA`, its message, `.`, `QUIT`. The relay answers 220, 250, 250, 250,
      354 and 250, records the message unchanged, and writes exactly the
      scanned PDF. */
  lemma ScannerSession(ehlo: string, from: string, to: string,
                       pre: seq<string>, chunks: seq<string>, post: seq<string>,
                       pdf: seq<byte>, dir: string, now: DateTime)
    requires StartsWith(ehlo, "EHLO ") && StartsWith(from, "MAIL FROM:") && StartsWith(to, "RCPT TO:")
    requires ValidDateTime(now)
    requires forall j :: 0 <= j < |pre| ==> pre[j] != StartLineText && !StartsWith(pre[j], ".")
    requires forall j :: 0 <= j < |post| ==> !StartsWith(post[j], ".")
    requires forall j :: 0 <= j < |chunks| ==> chunks[j] != ""
    requires Concat(chunks) == Base64.Encode(pdf)
    ensures var body := pre + [StartLineText, ""] + chunks + [""] + post;
      var s := Serve([ehlo, from, to, "DATA"] + body + [DataEnd, "QUIT"]);
      s == Session([Banner, OkReply, OkReply, OkReply, StartData, OkReply], [body], Quit) &&
      Extracted(s.messages[0], Some(dir), now) == Some(Output(Combine(dir, FileName(now)), pdf))
  {
    NoDotLines(pre, chunks, post, pdf);
    RecordsMessage(ehlo, from, to, pre + [StartLineText, ""] + chunks + [""] + post);
    ExtractsScan(pre, "", chunks, post, pdf, dir, now);
  }
}
