/** `SmtpRelayServer`, the relay that parses the DATA section itself: its
    command loop, the DATA section with its multipart headers, and the MIME
    parts inside it. A session is fed the lines its `ReadLine` returns, in
    order; running out of lines is the peer going away. */
module RelayServer {
  import opened Wrappers
  import opened Strings
  import opened Smtp
  import Base64

  /** The parts of the `MailMessage` the session fills in. */
  datatype Envelope = Envelope(from: Option<string>, to: seq<string>, subject: Option<string>, replyTo: seq<string>)

  const NoMessage := Envelope(None, [], None, [])

  /** How a loop over lines ended. */
  datatype Scan<T> =
    | Finished(value: T, next: nat)  // at its own end line; `next` is the line after it
    | Threw(value: T, next: nat)     // an exception at line `next - 1`
    | Disconnected(value: T)         // the lines ran out

  /** What one line does to a loop's state. */
  datatype Step<T> = Next(state: T) | Stop | Fail

  // ---------------------------------------------------------------------
  // One MIME part (`ProcessClientDataBoundary`)
  // ---------------------------------------------------------------------

  /** The locals of `ProcessClientDataBoundary`; `base64` records that
      `contentTransferEncoding` was set. */
  datatype Part = Part(
    contentType: Option<string>,
    description: Option<string>,
    disposition: Option<string>,
    base64: bool,
    encodedData: string,
    reading: bool,
    isAttachment: bool,
    fileName: Option<string>)

  const NoPart := Part(None, None, None, false, "", false, false, None)

  const ContentTypeHeader: string := "Content-Type: "
  const DescriptionHeader: string := "Content-Description: "
  const DispositionHeader: string := "Content-Disposition: "
  const EncodingHeader: string := "Content-Transfer-Encoding: "

  /** The characters a `Content-Disposition` value is split on. */
  const DispositionSeparators: seq<string> := [";", "=", " "]

  /** Token `j` of a split `Content-Disposition`, spaces removed, is `word`. */
  predicate TokenIs(tokens: seq<string>, j: int, word: string) {
    0 <= j < |tokens| && Remove(tokens[j], ' ') == word
  }

  /** `j` is the last index holding `word`. */
  predicate LastTokenIs(tokens: seq<string>, j: int, word: string) {
    TokenIs(tokens, j, word) && forall k :: j < k < |tokens| ==> !TokenIs(tokens, k, word)
  }

  /** The token loop over a `Content-Disposition` value, from token `i` on:
      the new attachment flag and file name, or `None` where `split[i + 1]`
      is read past the end. */
  function DispositionTokens(tokens: seq<string>, i: nat, attachment: bool, fileName: Option<string>)
    : (r: Option<(bool, Option<string>)>)
    requires i <= |tokens|
    ensures r.None? <==> i < |tokens| && TokenIs(tokens, |tokens| - 1, "filename")
    ensures r.Some? ==>
      (r.value.0 <==> attachment || exists j :: i <= j && TokenIs(tokens, j, "attachment"))
    ensures r.Some? && (forall j :: i <= j ==> !TokenIs(tokens, j, "filename")) ==>
      r.value.1 == fileName
    ensures r.Some? ==> forall j :: i <= j && LastTokenIs(tokens, j, "filename") ==>
      j + 1 < |tokens| && r.value.1 == Some(Remove(tokens[j + 1], '"'))
    decreases |tokens| - i
  {
    if i == |tokens| then Some((attachment, fileName))
    else
      if TokenIs(tokens, i, "attachment") then DispositionTokens(tokens, i + 1, true, fileName)
      else if TokenIs(tokens, i, "filename") then
        if i + 1 < |tokens| then DispositionTokens(tokens, i + 1, attachment, Some(Remove(tokens[i + 1], '"')))
        else None
      else DispositionTokens(tokens, i + 1, attachment, fileName)
  }

  /** The token loop of `ProcessClientDataBoundary` over a split
      `Content-Disposition` value. */
  method ReadDisposition(split: seq<string>, attachment: bool, name: Option<string>)
    returns (r: Option<(bool, Option<string>)>)
    ensures r == DispositionTokens(split, 0, attachment, name)
  {
    var isAttachment, fileName := attachment, name;
    for i := 0 to |split|
      invariant DispositionTokens(split, i, isAttachment, fileName) == DispositionTokens(split, 0, attachment, name)
    {
      if Remove(split[i], ' ') == "attachment" {
        isAttachment := true;
      } else if Remove(split[i], ' ') == "filename" {
        if i + 1 >= |split| {
          // `split[i + 1]` is out of range
          return None;
        }
        fileName := Some(Remove(split[i + 1], '"'));
      }
    }
    return Some((isAttachment, fileName));
  }

  /** The split of a `Content-Disposition` value ends in a `filename` token,
      which makes the token loop throw. */
  predicate DispositionThrows(value: string) {
    var tokens := Split(value, DispositionSeparators);
    |tokens| > 0 && TokenIs(tokens, |tokens| - 1, "filename")
  }

  /** The lines that end a part. */
  predicate IsPartEnd(msg: string, boundary: string) {
    msg == boundary || msg == "--" + boundary || msg == "--" + boundary + "--"
  }

  /** The four part headers differ at index 9, so a line starts with at
      most one of them. */
  lemma HeadersDistinct(msg: string)
    ensures StartsWith(msg, ContentTypeHeader) ==>
      !StartsWith(msg, DescriptionHeader) && !StartsWith(msg, DispositionHeader) && !StartsWith(msg, EncodingHeader)
    ensures StartsWith(msg, DescriptionHeader) ==> !StartsWith(msg, DispositionHeader) && !StartsWith(msg, EncodingHeader)
    ensures StartsWith(msg, DispositionHeader) ==> !StartsWith(msg, EncodingHeader)
  {
    if StartsWith(msg, ContentTypeHeader) { assert msg[9] == ContentTypeHeader[9] == 'y'; }
    if StartsWith(msg, DescriptionHeader) { assert msg[9] == DescriptionHeader[9] == 'e'; }
    if StartsWith(msg, DispositionHeader) { assert msg[9] == DispositionHeader[9] == 'i'; }
    if StartsWith(msg, EncodingHeader) { assert msg[9] == EncodingHeader[9] == 'r'; }
  }

  /** One line of a part. */
  function PartLine(p: Part, boundary: string, msg: string): (r: Step<Part>)
    ensures r.Stop? <==> msg != "" && IsPartEnd(msg, boundary)
    ensures r.Fail? <==> (msg != "" && !IsPartEnd(msg, boundary) && !p.reading &&
      ((StartsWith(msg, EncodingHeader) && msg[|EncodingHeader|..] != "base64") ||
       (StartsWith(msg, DispositionHeader) && DispositionThrows(msg[|DispositionHeader|..]))))
    ensures msg == "" ==> r == Next(p.(reading := !p.reading))
    ensures r.Next? && msg != "" && p.reading ==> r.state == p.(encodedData := p.encodedData + msg)
    ensures r.Next? && msg != "" && !p.reading ==>
      r.state.encodedData == p.encodedData && (r.state.reading <==> StartsWith(msg, EncodingHeader))
  {
    HeadersDistinct(msg);
    if msg == "" then Next(p.(reading := !p.reading))
    else if IsPartEnd(msg, boundary) then Stop
    else if p.reading then Next(p.(encodedData := p.encodedData + msg))
    else if StartsWith(msg, ContentTypeHeader) then Next(p.(contentType := Some(msg[|ContentTypeHeader|..])))
    else if StartsWith(msg, DescriptionHeader) then Next(p.(description := Some(msg[|DescriptionHeader|..])))
    else if StartsWith(msg, DispositionHeader) then
      var value := msg[|DispositionHeader|..];
      match DispositionTokens(Split(value, DispositionSeparators), 0, p.isAttachment, p.fileName)
      case None => Fail
      case Some((attachment, fileName)) =>
        Next(p.(disposition := Some(value), isAttachment := attachment, fileName := fileName))
    else if StartsWith(msg, EncodingHeader) then
      if msg[|EncodingHeader|..] == "base64" then Next(p.(base64 := true, reading := true))
      else Fail
    else Next(p)
  }

  /** The part loop from line `pos` on. */
  function ScanPart(lines: seq<string>, pos: nat, boundary: string, p: Part): (r: Scan<Part>)
    ensures (r.Finished? || r.Threw?) ==> pos < r.next <= |lines|
    decreases |lines| - pos
  {
    if pos >= |lines| then Disconnected(p)
    else
      match PartLine(p, boundary, lines[pos])
      case Next(q) => ScanPart(lines, pos + 1, boundary, q)
      case Stop => Finished(p, pos + 1)
      case Fail => Threw(p, pos + 1)
  }

  /** `ProcessClientDataBoundary`: reads the lines of one part, after its
      opening boundary line, up to and including the line that ends it. */
  method ProcessClientDataBoundary(lines: seq<string>, start: nat, boundary: string) returns (r: Scan<Part>)
    ensures r == ScanPart(lines, start, boundary, NoPart)
  {
    var contentType: Option<string> := None;
    var contentDescription: Option<string> := None;
    var contentDisposition: Option<string> := None;
    var base64 := false;
    var encodedData := "";
    var readingEncodedData := false;
    var isAttachment := false;
    var fileName: Option<string> := None;
    var pos := start;
    while pos < |lines|
      invariant ScanPart(lines, pos, boundary, Part(contentType, contentDescription, contentDisposition,
        base64, encodedData, readingEncodedData, isAttachment, fileName)) == ScanPart(lines, start, boundary, NoPart)
      decreases |lines| - pos
    {
      var before := Part(contentType, contentDescription, contentDisposition,
        base64, encodedData, readingEncodedData, isAttachment, fileName);
      var msg := lines[pos];
      pos := pos + 1;
      HeadersDistinct(msg);
      if msg == "" {
        assert encodedData + msg == encodedData;
        readingEncodedData := !readingEncodedData;
      } else if IsPartEnd(msg, boundary) {
        return Finished(before, pos);
      }

      if readingEncodedData {
        encodedData := encodedData + msg;
      } else if StartsWith(msg, ContentTypeHeader) {
        contentType := Some(msg[|ContentTypeHeader|..]);
      } else if StartsWith(msg, DescriptionHeader) {
        contentDescription := Some(msg[|DescriptionHeader|..]);
      } else if StartsWith(msg, DispositionHeader) {
        var value := msg[|DispositionHeader|..];
        contentDisposition := Some(value);
        var tokens := ReadDisposition(Split(value, DispositionSeparators), isAttachment, fileName);
        if tokens.None? {
          return Threw(before, pos);
        }
        isAttachment, fileName := tokens.value.0, tokens.value.1;
      } else if StartsWith(msg, EncodingHeader) {
        var encodingType := msg[|EncodingHeader|..];
        if encodingType != "base64" {
          // NotSupportedException
          return Threw(before, pos);
        }
        base64 := true;
        readingEncodedData := true;
      }
      assert PartLine(before, boundary, msg) == Next(Part(contentType, contentDescription, contentDisposition,
        base64, encodedData, readingEncodedData, isAttachment, fileName));
    }
    return Disconnected(Part(contentType, contentDescription, contentDisposition,
      base64, encodedData, readingEncodedData, isAttachment, fileName));
  }

  // ---------------------------------------------------------------------
  // The DATA section (`ProcessClientDataSection`)
  // ---------------------------------------------------------------------

  /** The strings a `Content-Type:` line is split on. */
  const ContentTypeSeparators: seq<string> := [": ", "; ", "="]

  /** `j` is the last index holding `word`. */
  predicate LastPieceIs(pieces: seq<string>, j: int, word: string) {
    0 <= j < |pieces| && pieces[j] == word && forall k :: j < k < |pieces| ==> pieces[k] != word
  }

  /** The loop over the pieces of a `Content-Type:` line from piece `i` on:
      the boundary it leaves, or `None` where `parts[i + 1]` is read past the
      end. */
  function BoundaryPieces(pieces: seq<string>, i: nat, boundary: Option<string>): (r: Option<Option<string>>)
    requires i <= |pieces|
    ensures r.None? <==> i < |pieces| && pieces[|pieces| - 1] == "boundary"
    ensures r.Some? && (forall j :: i <= j < |pieces| ==> pieces[j] != "boundary") ==> r.value == boundary
    ensures r.Some? ==> forall j :: i <= j && LastPieceIs(pieces, j, "boundary") ==>
      j + 1 < |pieces| && r.value == Some(Remove(pieces[j + 1], '"'))
    decreases |pieces| - i
  {
    if i == |pieces| then Some(boundary)
    else if pieces[i] == "boundary" then
      if i + 1 < |pieces| then BoundaryPieces(pieces, i + 1, Some(Remove(pieces[i + 1], '"')))
      else None
    else BoundaryPieces(pieces, i + 1, boundary)
  }

  /** A `Content-Type:` line: the content type (piece 1) and the boundary now
      in force, or `None` where the source throws. */
  function ParseContentType(msg: string, boundary: Option<string>): (r: Option<(string, Option<string>)>)
    ensures var pieces := Split(msg, ContentTypeSeparators);
      r.None? <==> |pieces| < 2 || (|pieces| > 2 && pieces[|pieces| - 1] == "boundary")
    ensures r.Some? ==> r.value.0 == Split(msg, ContentTypeSeparators)[1]
  {
    var pieces := Split(msg, ContentTypeSeparators);
    if |pieces| < 2 then None
    else
      match BoundaryPieces(pieces, 2, boundary)
      case None => None
      case Some(b) => Some((pieces[1], b))
  }

  /** The locals of `ProcessClientDataSection`. */
  datatype Section = Section(boundary: Option<string>, contentType: Option<string>)

  const NoSection := Section(None, None)

  /** What one line of the DATA section does. */
  datatype SectionStep =
    | Continue(section: Section, envelope: Envelope)  // go on with the next line
    | OpenPart(boundary: string)                       // a part follows
    | End                                              // the lone `.`
    | Abort                                            // a `Content-Type:` line throws

  /** The header names the section looks at begin with five different
      letters, and a boundary line begins with `-`. */
  lemma SectionHeaderInitials(msg: string)
    ensures StartsWith(msg, "From: ") ==> msg[0] == 'F'
    ensures StartsWith(msg, "To: ") ==> msg[0] == 'T'
    ensures StartsWith(msg, "Subject: ") ==> msg[0] == 'S'
    ensures StartsWith(msg, "Reply-To:") ==> msg[0] == 'R'
    ensures StartsWith(msg, "Content-Type:") ==> msg[0] == 'C'
    ensures StartsWith(msg, "--") ==> msg[0] == '-'
  {
  }

  /** One line of the DATA section: `Subject: ` sets the subject,
      `Reply-To:` adds a cleaned address, `Content-Type:` sets the content
      type and the boundary (or throws), the boundary line opens a part, the
      lone `.` ends the section, and every other line is skipped. */
  function SectionLine(s: Section, env: Envelope, msg: string): (r: SectionStep)
    ensures r == End <==> msg == DataEnd
    ensures r == Abort <==> StartsWith(msg, "Content-Type:") && ParseContentType(msg, s.boundary).None?
    ensures r.OpenPart? <==> s.boundary.Some? && msg == "--" + s.boundary.value
    ensures r.OpenPart? ==> r.boundary == s.boundary.value
    ensures StartsWith(msg, "Subject: ") ==> r == Continue(s, env.(subject := Some(msg[9..])))
    ensures StartsWith(msg, "Reply-To:") ==>
      r == Continue(s, env.(replyTo := env.replyTo + [CleanEmailString(msg, "Reply-To:")]))
    ensures StartsWith(msg, "Content-Type:") && ParseContentType(msg, s.boundary).Some? ==>
      var (contentType, boundary) := ParseContentType(msg, s.boundary).value;
      r == Continue(Section(boundary, Some(contentType)), env)
    ensures (!StartsWith(msg, "Subject: ") && !StartsWith(msg, "Reply-To:") && !StartsWith(msg, "Content-Type:") &&
             !(s.boundary.Some? && msg == "--" + s.boundary.value) && msg != DataEnd) ==> r == Continue(s, env)
  {
    SectionHeaderInitials(msg);
    assert s.boundary.Some? ==> ("--" + s.boundary.value)[0] == '-';
    if msg == "" || StartsWith(msg, "From: ") || StartsWith(msg, "To: ") then Continue(s, env)
    else if StartsWith(msg, "Subject: ") then Continue(s, env.(subject := Some(msg[9..])))
    else if StartsWith(msg, "Reply-To:") then
      Continue(s, env.(replyTo := env.replyTo + [CleanEmailString(msg, "Reply-To:")]))
    else if StartsWith(msg, "Content-Type:") then
      match ParseContentType(msg, s.boundary)
      case None => Abort
      case Some((contentType, boundary)) => Continue(Section(boundary, Some(contentType)), env)
    else if s.boundary.Some? && msg == "--" + s.boundary.value then OpenPart(s.boundary.value)
    else if msg == DataEnd then End
    else Continue(s, env)
  }

  /** The section loop from line `pos` on, filling in `env`. A part that
      ends normally resumes the section after its last line; one that
      throws ends the section as well. */
  function ScanSection(lines: seq<string>, pos: nat, s: Section, env: Envelope): (r: Scan<Envelope>)
    ensures (r.Finished? || r.Threw?) ==> pos < r.next <= |lines|
    ensures r.Finished? ==> lines[r.next - 1] == DataEnd
    decreases |lines| - pos
  {
    if pos >= |lines| then Disconnected(env)
    else
      match SectionLine(s, env, lines[pos])
      case Continue(s', env') => ScanSection(lines, pos + 1, s', env')
      case Abort => Threw(env, pos + 1)
      case OpenPart(boundary) =>
        (match ScanPart(lines, pos + 1, boundary, NoPart)
         case Finished(_, next) => ScanSection(lines, next, s, env)
         case Threw(_, next) => Threw(env, next)
         case Disconnected(_) => Disconnected(env))
      case End => Finished(env, pos + 1)
  }

  /** `ProcessClientDataSection`: reads the lines after `DATA` up to and
      including the lone `.`, processing each part it announces. */
  method ProcessClientDataSection(lines: seq<string>, start: nat, env: Envelope) returns (r: Scan<Envelope>)
    ensures r == ScanSection(lines, start, NoSection, env)
  {
    var boundaryString: Option<string> := None;
    var dataContentType: Option<string> := None;
    var message := env;
    var pos := start;
    while pos < |lines|
      invariant ScanSection(lines, pos, Section(boundaryString, dataContentType), message) ==
        ScanSection(lines, start, NoSection, env)
      decreases |lines| - pos
    {
      var msg := lines[pos];
      pos := pos + 1;
      if msg == "" {
        continue;
      } else if StartsWith(msg, "From: ") {
      } else if StartsWith(msg, "To: ") {
      } else if StartsWith(msg, "Subject: ") {
        message := message.(subject := Some(msg[9..]));
      } else if StartsWith(msg, "Reply-To:") {
        message := message.(replyTo := message.replyTo + [CleanEmailString(msg, "Reply-To:")]);
      } else if StartsWith(msg, "Content-Type:") {
        var parts := Split(msg, ContentTypeSeparators);
        if |parts| < 2 {
          // `parts[1]` is out of range
          return Threw(message, pos);
        }
        ghost var before := boundaryString;
        dataContentType := Some(parts[1]);
        for i := 2 to |parts|
          invariant BoundaryPieces(parts, i, boundaryString) == BoundaryPieces(parts, 2, before)
        {
          if parts[i] == "boundary" {
            if i + 1 >= |parts| {
              // `parts[i + 1]` is out of range
              return Threw(message, pos);
            }
            boundaryString := Some(Remove(parts[i + 1], '"'));
          }
        }
      } else if boundaryString.Some? && msg == "--" + boundaryString.value {
        var part := ProcessClientDataBoundary(lines, pos, boundaryString.value);
        match part
        case Finished(_, next) =>
          pos := next;
        case Threw(_, next) =>
          return Threw(message, next);
        case Disconnected(_) =>
          return Disconnected(message);
      } else if msg == DataEnd {
        return Finished(message, pos);
      }
    }
    return Disconnected(message);
  }

  // ---------------------------------------------------------------------
  // The command loop (`ProcessSingleClient`)
  // ---------------------------------------------------------------------

  /** What a session leaves behind: the message, the replies sent, and how it ended. */
  datatype Session = Session(envelope: Envelope, replies: seq<string>, ending: Ending)

  /** `Replace("<", "").Replace(">", "")` on a command argument: spaces stay. */
  function StripAngles(s: string): (r: string)
    ensures forall c :: c in r <==> c in s && c != '<' && c != '>'
  {
    Remove(Remove(s, '<'), '>')
  }

  /** What one command line does to the session. */
  datatype Command = Close | Skip | Hello | Recipient(address: string) | Sender(address: string) | Data

  /** One command line. A line starting with `QUIT` closes the session
      (lower-case `quit` is not recognised); `EHLO` with an argument,
      `RCPT TO:` and `MAIL FROM:` are answered, a bare `EHLO` is not, since
      its `Substring(5)` throws; the addresses lose their angle brackets;
      anything else, the empty line included, is skipped. */
  function Dispatch(msg: string): (c: Command)
    ensures c == Close <==> StartsWith(msg, "QUIT")
    ensures c == Hello <==> StartsWith(msg, "EHLO") && |msg| >= 5
    ensures c.Recipient? <==> StartsWith(msg, "RCPT TO:")
    ensures c.Recipient? ==> c.address == StripAngles(msg[8..])
    ensures c.Sender? <==> StartsWith(msg, "MAIL FROM:")
    ensures c.Sender? ==> c.address == StripAngles(msg[10..])
    ensures c == Data <==> StartsWith(msg, "DATA")
  {
    CommandInitials(msg);
    if StartsWith(msg, "QUIT") then Close
    else if msg == "" then Skip
    else if StartsWith(msg, "EHLO") then (if |msg| < 5 then Skip else Hello)
    else if StartsWith(msg, "RCPT TO:") then Recipient(StripAngles(msg[8..]))
    else if StartsWith(msg, "MAIL FROM:") then Sender(StripAngles(msg[10..]))
    else if StartsWith(msg, "DATA") then Data
    else Skip
  }

  /** The command loop from line `pos` on: `250 OK` for each answered
      command; `354` for `DATA`, then `250 OK` once the section has ended at
      its `.`, the loop going on after the section's last line. */
  function Run(lines: seq<string>, pos: nat, env: Envelope, replies: seq<string>): (r: Session)
    ensures |replies| > 0 ==> |r.replies| > 0 && r.replies[0] == replies[0]
    ensures FixedReplies(replies) ==> FixedReplies(r.replies)
    ensures |r.replies| >= |replies| && r.replies[..|replies|] == replies
    decreases |lines| - pos
  {
    if pos >= |lines| then Session(env, replies, Disconnect)
    else
      match Dispatch(lines[pos])
      case Close => Session(env, replies, Quit)
      case Skip => Run(lines, pos + 1, env, replies)
      case Hello => Run(lines, pos + 1, env, replies + [OkReply])
      case Recipient(address) => Run(lines, pos + 1, env.(to := env.to + [address]), replies + [OkReply])
      case Sender(address) => Run(lines, pos + 1, env.(from := Some(address)), replies + [OkReply])
      case Data =>
        match ScanSection(lines, pos + 1, NoSection, env)
        case Finished(e, next) => Run(lines, next, e, replies + [StartData, OkReply])
        case Threw(e, next) => Run(lines, next, e, replies + [StartData])
        case Disconnected(e) => Session(e, replies + [StartData], Disconnect)
  }

  /** A whole connection: the banner, then the command loop over every line. */
  function Serve(lines: seq<string>): (r: Session)
    ensures |r.replies| >= 1 && r.replies[0] == Banner
    ensures FixedReplies(r.replies)
  {
    Run(lines, 0, NoMessage, [Banner])
  }

  /** `ProcessSingleClient`: one connection, one `MailMessage` for all of it. */
  method ProcessSingleClient(lines: seq<string>) returns (r: Session)
    ensures r == Serve(lines)
  {
    var replies := [Banner];
    var emailMessage := NoMessage;
    var pos := 0;
    while pos < |lines|
      invariant Run(lines, pos, emailMessage, replies) == Serve(lines)
      decreases |lines| - pos
    {
      var msg := lines[pos];
      pos := pos + 1;
      if StartsWith(msg, "QUIT") {
        return Session(emailMessage, replies, Quit);
      } else if msg == "" {
        continue;
      } else if StartsWith(msg, "EHLO") {
        if |msg| < 5 {
          // `msg.Substring(5)` throws; the exception is caught and logged
          continue;
        }
        replies := replies + [OkReply];
      } else if StartsWith(msg, "RCPT TO:") {
        emailMessage := emailMessage.(to := emailMessage.to + [StripAngles(msg[8..])]);
        replies := replies + [OkReply];
      } else if StartsWith(msg, "MAIL FROM:") {
        emailMessage := emailMessage.(from := Some(StripAngles(msg[10..])));
        replies := replies + [OkReply];
      } else if StartsWith(msg, "DATA") {
        ghost var before := replies;
        replies := replies + [StartData];
        var section := ProcessClientDataSection(lines, pos, emailMessage);
        match section
        case Finished(e, next) =>
          emailMessage, pos := e, next;
          replies := replies + [OkReply];
          assert replies == before + [StartData, OkReply];
        case Threw(e, next) =>
          // the exception is caught and logged; no `250 OK`
          emailMessage, pos := e, next;
        case Disconnected(e) =>
          return Session(e, replies, Disconnect);
      }
    }
    return Session(emailMessage, replies, Disconnect);
  }

  // ---------------------------------------------------------------------
  // Properties
  // ---------------------------------------------------------------------

  /** A part that has ended (or thrown) never looked past its last line, so
      input arriving later does not change it. */
  lemma {:induction false} ScanPartExtends(lines: seq<string>, more: seq<string>, pos: nat, boundary: string, p: Part)
    requires !ScanPart(lines, pos, boundary, p).Disconnected?
    ensures ScanPart(lines + more, pos, boundary, p) == ScanPart(lines, pos, boundary, p)
    decreases |lines| - pos
  {
    assert (lines + more)[pos] == lines[pos];
    match PartLine(p, boundary, lines[pos])
    case Next(q) => ScanPartExtends(lines, more, pos + 1, boundary, q);
    case Stop =>
    case Fail =>
  }

  /** The same for a DATA section. */
  lemma {:induction false} ScanSectionExtends(lines: seq<string>, more: seq<string>, pos: nat, s: Section, env: Envelope)
    requires !ScanSection(lines, pos, s, env).Disconnected?
    ensures ScanSection(lines + more, pos, s, env) == ScanSection(lines, pos, s, env)
    decreases |lines| - pos
  {
    assert (lines + more)[pos] == lines[pos];
    match SectionLine(s, env, lines[pos])
    case Continue(s', env') => ScanSectionExtends(lines, more, pos + 1, s', env');
    case Abort =>
    case OpenPart(boundary) =>
      var part := ScanPart(lines, pos + 1, boundary, NoPart);
      if !part.Disconnected? {
        ScanPartExtends(lines, more, pos + 1, boundary, NoPart);
        if part.Finished? {
          ScanSectionExtends(lines, more, part.next, s, env);
        }
      }
    case End =>
  }

  /** Once `QUIT` has closed the session, whatever the client sends after it
      changes nothing: not the message, not the replies. */
  lemma {:induction false} QuitIgnoresLaterInput(lines: seq<string>, more: seq<string>, pos: nat, env: Envelope, replies: seq<string>)
    requires Run(lines, pos, env, replies).ending == Quit
    ensures Run(lines + more, pos, env, replies) == Run(lines, pos, env, replies)
    decreases |lines| - pos
  {
    assert (lines + more)[pos] == lines[pos];
    match Dispatch(lines[pos])
    case Close =>
    case Skip => QuitIgnoresLaterInput(lines, more, pos + 1, env, replies);
    case Hello => QuitIgnoresLaterInput(lines, more, pos + 1, env, replies + [OkReply]);
    case Recipient(address) =>
      QuitIgnoresLaterInput(lines, more, pos + 1, env.(to := env.to + [address]), replies + [OkReply]);
    case Sender(address) =>
      QuitIgnoresLaterInput(lines, more, pos + 1, env.(from := Some(address)), replies + [OkReply]);
    case Data =>
      var section := ScanSection(lines, pos + 1, NoSection, env);
      ScanSectionExtends(lines, more, pos + 1, NoSection, env);
      match section
      case Finished(e, next) => QuitIgnoresLaterInput(lines, more, next, e, replies + [StartData, OkReply]);
      case Threw(e, next) => QuitIgnoresLaterInput(lines, more, next, e, replies + [StartData]);
  }

  /** Outside a part, a section ends at its first lone `.`. This is a
      sufficient condition, not the exact one: it rules out every line that
      starts with `--`, while only `--` followed by the boundary in force
      opens a part (`SectionLine` states the exact case). When in addition
      no `Content-Type:` line throws, the section finishes right after the
      `.`. */
  lemma {:induction false} SectionEndsAtFirstDot(lines: seq<string>, pos: nat, k: nat, s: Section, env: Envelope)
    requires pos <= k < |lines| && lines[k] == DataEnd
    requires forall j :: pos <= j < k ==> lines[j] != DataEnd && !StartsWith(lines[j], "--")
    requires forall j :: pos <= j < k && StartsWith(lines[j], "Content-Type:") ==>
      ParseContentType(lines[j], None).Some?
    ensures ScanSection(lines, pos, s, env).Finished?
    ensures ScanSection(lines, pos, s, env).next == k + 1
    decreases k - pos
  {
    if pos < k {
      var msg := lines[pos];
      assert s.boundary.Some? ==> msg != "--" + s.boundary.value by {
        if s.boundary.Some? && msg == "--" + s.boundary.value {
          assert StartsWith(msg, "--");
        }
      }
      match SectionLine(s, env, msg)
      case Continue(s', env') => SectionEndsAtFirstDot(lines, pos + 1, k, s', env');
    }
  }

  /** A line of base64 text: alphabet characters and padding only. */
  predicate IsEncodedText(line: string) {
    line != "" && forall c :: c in line ==> Base64.IsAlphabet(c) || c == '='
  }

  /** A base64 text line holds no `-`, while every header name and every
      boundary line but the bare boundary does. */
  lemma EncodedLineIsNoHeader(p: Part, boundary: string, msg: string)
    requires IsEncodedText(msg) && msg != boundary && !p.reading
    ensures PartLine(p, boundary, msg) == Next(p)
  {
    EncodedTextHasNoDash(msg, boundary);
  }

  lemma EncodedTextHasNoDash(msg: string, boundary: string)
    requires IsEncodedText(msg) && msg != boundary
    ensures !StartsWith(msg, ContentTypeHeader) && !StartsWith(msg, DescriptionHeader)
    ensures !StartsWith(msg, DispositionHeader) && !StartsWith(msg, EncodingHeader)
    ensures !IsPartEnd(msg, boundary)
  {
    assert msg[0] in msg;
    assert msg[0] != '-';
    if |msg| > 7 {
      assert msg[7] in msg;
      assert msg[7] != '-';
    }
    DifferentAt(msg, ContentTypeHeader, 7);
    DifferentAt(msg, DescriptionHeader, 7);
    DifferentAt(msg, DispositionHeader, 7);
    DifferentAt(msg, EncodingHeader, 7);
    assert ("--" + boundary)[0] == '-' && ("--" + boundary + "--")[0] == '-';
  }

  /** A string that differs from `h` at index `k`, or is too short to reach
      it, does not start with `h`. */
  lemma DifferentAt(msg: string, h: string, k: nat)
    requires k < |h| && (k < |msg| ==> msg[k] != h[k])
    ensures !StartsWith(msg, h)
  {
    if |h| <= |msg| {
      assert msg[..|h|][k] == msg[k];
    }
  }

  /** With accumulation off, base64 text lines are read as (unknown) headers:
      they change nothing, and the part runs on to its closing boundary. */
  lemma {:induction false} EncodedLinesAreSkipped(lines: seq<string>, pos: nat, k: nat, boundary: string, p: Part)
    requires pos <= k < |lines| && lines[k] != "" && IsPartEnd(lines[k], boundary) && !p.reading
    requires forall j :: pos <= j < k ==> IsEncodedText(lines[j]) && lines[j] != boundary
    ensures ScanPart(lines, pos, boundary, p) == Finished(p, k + 1)
    decreases k - pos
  {
    if pos < k {
      EncodedLineIsNoHeader(p, boundary, lines[pos]);
      EncodedLinesAreSkipped(lines, pos + 1, k, boundary, p);
    }
  }

  /** A transfer-encoding header outside the body: `base64` turns
      accumulation on, any other encoding throws. */
  lemma EncodingLine(p: Part, boundary: string, value: string)
    requires !p.reading
    requires boundary != EncodingHeader + value
    ensures PartLine(p, boundary, EncodingHeader + value) ==
      if value == "base64" then Next(p.(base64 := true, reading := true)) else Fail
  {
    var msg := EncodingHeader + value;
    assert msg[0] == 'C';
    assert ("--" + boundary)[0] == '-' && ("--" + boundary + "--")[0] == '-';
    assert msg[..|EncodingHeader|] == EncodingHeader && msg[|EncodingHeader|..] == value;
    HeadersDistinct(msg);
  }

  /** A conventionally laid out part (the transfer-encoding header, the blank
      line, the base64 body, the line that ends the part) accumulates none of
      its body: the header turns accumulation on and the blank line turns it
      off again before the body arrives. */
  lemma ConventionalPartDropsBody(lines: seq<string>, pos: nat, k: nat, boundary: string)
    requires pos + 2 <= k < |lines|
    requires lines[pos] == EncodingHeader + "base64" && lines[pos + 1] == ""
    requires boundary != EncodingHeader + "base64"
    requires forall j :: pos + 2 <= j < k ==> IsEncodedText(lines[j]) && lines[j] != boundary
    requires lines[k] != "" && IsPartEnd(lines[k], boundary)
    ensures ScanPart(lines, pos, boundary, NoPart) == Finished(NoPart.(base64 := true), k + 1)
  {
    EncodingLine(NoPart, boundary, "base64");
    assert PartLine(NoPart.(base64 := true, reading := true), boundary, lines[pos + 1]) == Next(NoPart.(base64 := true));
    EncodedLinesAreSkipped(lines, pos + 2, k, boundary, NoPart.(base64 := true));
  }

  /** The part loop takes every empty text as the blank line between headers
      and body. `ReadLine` also returns "" after a read that completes no
      line (`LineFramer.ReadSplitAddsEmptyText`), so the same part can end
      normally or throw depending on how its bytes arrived: here a second
      transfer-encoding header is body text, unless a split read puts ""
      before it. */
  lemma SplitReadChangesPart()
    ensures ScanPart([EncodingHeader + "base64", EncodingHeader + "7bit", "--bnd"], 0, "bnd", NoPart).Finished?
    ensures ScanPart([EncodingHeader + "base64", "", EncodingHeader + "7bit", "--bnd"], 0, "bnd", NoPart).Threw?
  {
    var other := EncodingHeader + "7bit";
    var reading := NoPart.(base64 := true, reading := true);
    EncodingLine(NoPart, "bnd", "base64");
    EncodingLine(reading.(reading := false), "bnd", "7bit");
    assert IsPartEnd("--bnd", "bnd");
    var whole := [EncodingHeader + "base64", other, "--bnd"];
    assert ScanPart(whole, 2, "bnd", reading.(encodedData := other)).Finished?;
    assert ScanPart(whole, 1, "bnd", reading).Finished?;
    var split := [EncodingHeader + "base64", "", other, "--bnd"];
    assert ScanPart(split, 2, "bnd", reading.(reading := false)).Threw?;
    assert ScanPart(split, 1, "bnd", reading).Threw?;
  }

  /** A `Subject: ` line sets the subject to the rest of the line. */
  lemma SubjectLine(s: Section, env: Envelope, subject: string)
    ensures SectionLine(s, env, "Subject: " + subject) == Continue(s, env.(subject := Some(subject)))
  {
    var msg := "Subject: " + subject;
    assert msg[..9] == "Subject: " && msg[9..] == subject;
  }

  /** The section from its boundary line on, given that the part after it
      ends on line `k` and a `.` follows. */
  lemma PartThenDot(lines: seq<string>, pos: nat, k: nat, s: Section, env: Envelope)
    requires pos < k && k + 1 < |lines|
    requires s.boundary.Some? && lines[pos] == "--" + s.boundary.value
    requires ScanPart(lines, pos + 1, s.boundary.value, NoPart).Finished?
    requires ScanPart(lines, pos + 1, s.boundary.value, NoPart).next == k + 1
    requires lines[k + 1] == DataEnd
    ensures ScanSection(lines, pos, s, env) == Finished(env, k + 2)
  {
    assert SectionLine(s, env, lines[k + 1]) == End;
    assert ScanSection(lines, k + 1, s, env) == Finished(env, k + 2);
  }

  /** The DATA section a scanner sends, from line `pos` on: the subject, a
      multipart content type, the opening boundary, one conventionally laid
      out base64 part of `n` body lines, the closing boundary and the `.`. */
  lemma ScannerSection(lines: seq<string>, pos: nat, n: nat, subject: string, contentType: string,
                       boundary: string, env: Envelope)
    requires pos + n + 7 <= |lines|
    requires lines[pos] == "Subject: " + subject && lines[pos + 1] == contentType
    requires StartsWith(contentType, "Content-Type:")
    requires ParseContentType(contentType, None).Some? && ParseContentType(contentType, None).value.1 == Some(boundary)
    requires lines[pos + 2] == "--" + boundary
    requires lines[pos + 3] == EncodingHeader + "base64" && lines[pos + 4] == ""
    requires boundary != EncodingHeader + "base64"
    requires forall j :: pos + 5 <= j < pos + 5 + n ==> IsEncodedText(lines[j]) && lines[j] != boundary
    requires lines[pos + 5 + n] == "--" + boundary + "--" && lines[pos + 6 + n] == DataEnd
    ensures ScanSection(lines, pos, NoSection, env) == Finished(env.(subject := Some(subject)), pos + n + 7)
  {
    var env' := env.(subject := Some(subject));
    var section := Section(Some(boundary), Some(ParseContentType(contentType, None).value.0));
    assert ScanSection(lines, pos + 2, section, env') == Finished(env', pos + n + 7) by {
      assert ("--" + boundary + "--")[0] == '-';
      ConventionalPartDropsBody(lines, pos + 3, pos + 5 + n, boundary);
      PartThenDot(lines, pos + 2, pos + 5 + n, section, env');
    }
    assert ScanSection(lines, pos + 1, NoSection, env') == ScanSection(lines, pos + 2, section, env') by {
      assert SectionLine(NoSection, env', lines[pos + 1]) == Continue(section, env');
    }
    SubjectLine(NoSection, env, subject);
  }

  /** `QUIT` ends the session with what it has so far. */
  lemma QuitStep(lines: seq<string>, pos: nat, env: Envelope, replies: seq<string>)
    requires pos < |lines| && StartsWith(lines[pos], "QUIT")
    ensures Run(lines, pos, env, replies) == Session(env, replies, Quit)
  {
  }

  /** `EHLO` with an argument is answered and changes nothing else. */
  lemma HelloStep(lines: seq<string>, pos: nat, env: Envelope, replies: seq<string>)
    requires pos < |lines| && StartsWith(lines[pos], "EHLO") && |lines[pos]| >= 5
    ensures Run(lines, pos, env, replies) == Run(lines, pos + 1, env, replies + [OkReply])
  {
  }

  /** `MAIL FROM:` is answered and sets the sender. */
  lemma SenderStep(lines: seq<string>, pos: nat, env: Envelope, replies: seq<string>)
    requires pos < |lines| && StartsWith(lines[pos], "MAIL FROM:")
    ensures Run(lines, pos, env, replies) ==
      Run(lines, pos + 1, env.(from := Some(StripAngles(lines[pos][10..]))), replies + [OkReply])
  {
  }

  /** `RCPT TO:` is answered and adds a recipient. */
  lemma RecipientStep(lines: seq<string>, pos: nat, env: Envelope, replies: seq<string>)
    requires pos < |lines| && StartsWith(lines[pos], "RCPT TO:")
    ensures Run(lines, pos, env, replies) ==
      Run(lines, pos + 1, env.(to := env.to + [StripAngles(lines[pos][8..])]), replies + [OkReply])
  {
  }

  /** `DATA` whose section ends at its `.` is answered `354` and `250 OK`,
      and the loop goes on after the `.` with the section's message. */
  lemma DataStep(lines: seq<string>, pos: nat, env: Envelope, replies: seq<string>)
    requires pos < |lines| && StartsWith(lines[pos], "DATA")
    requires ScanSection(lines, pos + 1, NoSection, env).Finished?
    ensures var section := ScanSection(lines, pos + 1, NoSection, env);
      Run(lines, pos, env, replies) == Run(lines, section.next, section.value, replies + [StartData, OkReply])
  {
  }

  /** The greeting, sender and recipient of a scanner's conversation are
      each answered and fill in the envelope. */
  lemma ScannerEnvelope(lines: seq<string>, ehlo: string, from: string, to: string)
    requires |lines| > 3
    requires lines[0] == ehlo && StartsWith(ehlo, "EHLO") && |ehlo| >= 5
    requires lines[1] == from && StartsWith(from, "MAIL FROM:")
    requires lines[2] == to && StartsWith(to, "RCPT TO:")
    ensures Run(lines, 0, NoMessage, [Banner]) ==
      Run(lines, 3, NoMessage.(from := Some(StripAngles(from[10..]))).(to := [StripAngles(to[8..])]),
          [Banner, OkReply, OkReply, OkReply])
  {
    var env1 := NoMessage.(from := Some(StripAngles(from[10..])));
    var r1 := [Banner] + [OkReply];
    var r2 := r1 + [OkReply];
    var r3 := r2 + [OkReply];
    HelloStep(lines, 0, NoMessage, [Banner]);
    SenderStep(lines, 1, NoMessage, r1);
    RecipientStep(lines, 2, env1, r2);
    ConversationFacts(StripAngles(to[8..]));
    ScannerReplies();
  }

  /** Proof plumbing, modelling nothing: the recipient list after one
      `RCPT TO:` and the command words as literal identities. They are kept
      apart from the scenario lemmas because proving them next to `Run`
      terms exceeds the solver's resource limit. */
  lemma ConversationFacts(recipient: string)
    ensures [] + [recipient] == [recipient]
    ensures StartsWith("DATA", "DATA") && StartsWith("QUIT", "QUIT")
  {
  }

  /** The command loop over a scanner's conversation, given by line: the
      greeting, sender, recipient and `DATA`, the section of
      `ScannerSection` and `QUIT`. */
  lemma ScannerCommands(lines: seq<string>, n: nat, ehlo: string, from: string, to: string, subject: string)
    requires |lines| == n + 12
    requires lines[0] == ehlo && StartsWith(ehlo, "EHLO") && |ehlo| >= 5
    requires lines[1] == from && StartsWith(from, "MAIL FROM:")
    requires lines[2] == to && StartsWith(to, "RCPT TO:")
    requires lines[3] == "DATA" && lines[n + 11] == "QUIT"
    requires ScanSection(lines, 4, NoSection, Envelope(Some(StripAngles(from[10..])), [StripAngles(to[8..])], None, [])) ==
      Finished(Envelope(Some(StripAngles(from[10..])), [StripAngles(to[8..])], Some(subject), []), n + 11)
    ensures Run(lines, 0, NoMessage, [Banner]) ==
      Session(Envelope(Some(StripAngles(from[10..])), [StripAngles(to[8..])], Some(subject), []),
              [Banner, OkReply, OkReply, OkReply, StartData, OkReply], Quit)
  {
    var env2 := NoMessage.(from := Some(StripAngles(from[10..]))).(to := [StripAngles(to[8..])]);
    var env3 := env2.(subject := Some(subject));
    var done := [Banner, OkReply, OkReply, OkReply, StartData, OkReply];
    ScannerEnvelope(lines, ehlo, from, to);
    ConversationFacts(StripAngles(to[8..]));
    ScannerReplies();
    DataStep(lines, 3, env2, [Banner, OkReply, OkReply, OkReply]);
    QuitStep(lines, n + 11, env3, done);
  }

  /** The conversation a scanner holds with the relay: the greeting, sender,
      recipient and `DATA`, a section with a subject and a multipart content
      type, one base64 part, the closing boundary, the `.` and `QUIT`. Every
      command is answered, the section ends at its `.`, and the message
      carries the sender, the recipient and the subject. */
  lemma ScannerConversation(ehlo: string, from: string, to: string, subject: string,
                            contentType: string, boundary: string, encoded: seq<string>)
    requires StartsWith(ehlo, "EHLO") && |ehlo| >= 5
    requires StartsWith(from, "MAIL FROM:") && StartsWith(to, "RCPT TO:")
    requires StartsWith(contentType, "Content-Type:")
    requires ParseContentType(contentType, None).Some? && ParseContentType(contentType, None).value.1 == Some(boundary)
    requires boundary != EncodingHeader + "base64"
    requires forall j :: 0 <= j < |encoded| ==> IsEncodedText(encoded[j]) && encoded[j] != boundary
    ensures var lines := [ehlo, from, to, "DATA", "Subject: " + subject, contentType, "--" + boundary,
                          EncodingHeader + "base64", ""] + encoded + ["--" + boundary + "--", DataEnd, "QUIT"];
      Serve(lines) ==
        Session(Envelope(Some(StripAngles(from[10..])), [StripAngles(to[8..])], Some(subject), []),
                [Banner, OkReply, OkReply, OkReply, StartData, OkReply], Quit)
  {
    var head := [ehlo, from, to, "DATA", "Subject: " + subject, contentType, "--" + boundary,
                 EncodingHeader + "base64", ""];
    var tail := ["--" + boundary + "--", DataEnd, "QUIT"];
    var lines := head + encoded + tail;
    var n := |encoded|;
    assert forall j :: 0 <= j < 9 ==> lines[j] == head[j];
    assert forall j :: 9 <= j < 9 + n ==> lines[j] == encoded[j - 9];
    assert lines[n + 9] == tail[0] && lines[n + 10] == tail[1] && lines[n + 11] == tail[2];
    var env2 := Envelope(Some(StripAngles(from[10..])), [StripAngles(to[8..])], None, []);
    ScannerSection(lines, 4, n, subject, contentType, boundary, env2);
    ScannerCommands(lines, n, ehlo, from, to, subject);
  }
}
