# printersmtpserver in Dafny

printersmtpserver is a small SMTP relay. It lets a home printer's
"scan to e-mail" feature drop the scanned PDF into a folder instead of
sending it anywhere. The scanner opens a connection and sends `EHLO`,
`MAIL FROM:`, `RCPT TO:` and `DATA`. It then sends a MIME message with the
PDF as base64 text, a line holding a single `.`, and `QUIT`. The relay
answers each command with the fixed replies a sender expects (`220`,
`250 OK`, `354`). It records the message, then finds the base64 block in it
and writes the decoded bytes to `<year>-<MM>-<dd> <HH>-<mm>-<ss> - Scan.pdf`
in the configured output directory.

This project models the core of the relay and proves properties of the
model. The core is:

- **The byte line reader of `SmtpRelayServer`** (`LineFramer.dfy`). Received
  bytes go into a back buffer, a `MemoryStream` whose position marks the end
  of the unread bytes. Each complete CR LF line is cut from its front and
  decoded as ASCII. The buffer is a class over a byte array. Its methods are
  proved against the pure functions `TakeLine` and `ReadCall`. The lemmas
  show that:
  - framing loses no byte;
  - no line holds a terminator;
  - however the bytes are split into reads, `ReadLine` returns the same
    non-empty lines. Only the empty texts differ: a read that completes no
    line returns "".
- **The `SmtpRelayServer` session** (`RelayServer.dfy`):
  - its command loop;
  - the DATA section with its `Content-Type` boundary;
  - the MIME part parser with its `Content-Disposition` tokens.

  Each loop is a method proved equal to a tail-recursive function. That
  function applies a step function to one line at a time (`Dispatch`,
  `SectionLine`, `PartLine`), and each step function's contract says what
  every kind of line does. The closing lemma, `ScannerConversation`, follows
  a scanner's conversation through the replies and the message.
- **The `HomePrinterRelay` session and `ProcessData`**
  (`HomePrinterRelay.dfy`). This is the relay the service actually runs:
  - its command loop;
  - the DATA loop, which records the block with `..` unescaped;
  - the extraction of the base64 block from a recorded message;
  - the timestamped file name.

  The closing lemma, `ScannerSession`, follows the scanner's whole
  conversation through the replies, the recorded message and the file
  written. The file holds exactly the PDF the scanner encoded.
- **`HomePrinterRelaySettings`** (`Settings.dfy`). Settings are read from
  command-line arguments first, then from environment variables, and
  otherwise default to null or 0.
- **The two recipient filters** (`Filters.dfy`).
- **`CleanEmailString`** (`Smtp.dfy`), together with the reply texts the
  two servers share.

The library behaviour the core relies on is written out on `seq<char>` and
bytes:

- `Strings.dfy`: `StartsWith`, `Replace`, `Split` and ASCII case folding;
- `Decimal.dfy`: `int.ToString`, the `D2` format and `int.TryParse`;
- `Base64.dfy`: `Convert.FromBase64String`, with an encoder as its partner
  and a proved round trip;
- `Ascii.dfy`: `Encoding.ASCII.GetString`.

A session is modelled as the sequence of texts its `ReadLine` calls return.
Running out of them is the peer going away. For `SmtpRelayServer` these texts
are `LineFramer.Reads` of the bytes received: the complete lines, plus an
empty text wherever a read completed no line. The `SmtpRelayServer.ReadLine(socket)`
never returns null, and `HomePrinterRelay`'s `ReadLine` returns null only at
end of input. Wherever the source throws and the exception is caught, the
model takes the same path: a `Threw`/`None` result, no reply, and the loop
goes on. Examples:

- a bare `EHLO`, whose `Substring(5)` throws;
- a `Content-Type:` line with fewer than two pieces;
- a `Content-Disposition` that ends in `filename`;
- a transfer encoding other than base64;
- end of input inside a `HomePrinterRelay` DATA block.

Where a general description of the relay and the code differ, the model
follows the code:

- The `SmtpPort` property starts at 25, but `LoadSettings` always overwrites
  it from `GetSettingInt`. A missing port is therefore 0, not 25
  (`Settings.MissingSettings`).
- The dot-unescape in `HomePrinterRelay` replaces every `..` in a line that
  starts with `..`, not only the leading dot
  (`HomePrinterRelay.UnescapeReplacesInnerPairs`).
- In `SmtpRelayServer`'s part parser, the transfer-encoding header turns
  accumulation on, and the blank line after the headers turns it off again.
  So the base64 body of a conventionally laid out part is never collected
  (`RelayServer.ConventionalPartDropsBody`).
- `SmtpRelayServer`'s part parser flips accumulation on every empty text.
  `ReadLine` returns one for an empty line and also after a read that
  completes no line. So the way the bytes were split into reads can decide
  whether a part ends normally or throws
  (`RelayServer.SplitReadChangesPart`, `LineFramer.ReadSplitAddsEmptyText`).
- `SmtpRelayServer` skips an empty line and closes only on `QUIT`.
  `HomePrinterRelay` closes on an empty line, on `QUIT` and on `quit`.

## Model

| member | source | states |
|---|---|---|
| Smtp.CleanEmailString | src/SmtpServerServiceLibrary/SmtpRelayServer.cs:296-299 | the result holds exactly the characters after the prefix other than `<`, `>` and space, and is no longer than that remainder |
| Smtp.CleanEmailStringIsReplace | src/SmtpServerServiceLibrary/SmtpRelayServer.cs:298 | removing the three characters is the chain of three `Replace(x, "")` calls |
| Smtp.CleanEmailStringKeepsCleanAddress | src/SmtpServerServiceLibrary/Legacy/HomePrinterRelay.cs:204-207 | an argument without angle brackets or spaces comes back unchanged |
| Strings.StartsWith | src/SmtpServerServiceLibrary/SmtpRelayServer.cs:90-121 | the ordinal `StartsWith` behind every command and header test: a text starts only with something no longer than itself, and `StartsWithIsConcat` gives the full meaning |
| Strings.StartsWithIsConcat | src/SmtpServerServiceLibrary/SmtpRelayServer.cs:90-121 | a text starts with `p` iff it is `p` followed by some text |
| Strings.EndsWith | src/SmtpServerServiceLibrary/Filters/DestinationDomainFilter.cs:29 | ordinal `EndsWith`: it holds iff the suffix is no longer than the text and the text is its own beginning followed by the suffix |
| Strings.EqualsIgnoreCase | src/SmtpServerServiceLibrary/Legacy/HomePrinterRelaySettings.cs:41 | `string.Compare(a, b, true) == 0` iff both have the same length and, once folded, the same character at every position |
| Strings.Replace | src/SmtpServerServiceLibrary/Legacy/HomePrinterRelay.cs:124 | `Replace` scanning from the left: replacing a pattern by itself changes nothing, a replacement no longer than the pattern never lengthens the text and one no shorter never shortens it; `ReplaceWithoutOccurrence` and `RemoveIsReplace` pin it further |
| Strings.Remove | src/SmtpServerServiceLibrary/SmtpRelayServer.cs:254 | `Replace(" ", "")` style removal: a character is in the result iff it is in the input and is not the removed one |
| Strings.RemoveIsReplace | src/SmtpServerServiceLibrary/SmtpRelayServer.cs:298 | removing a character equals `Replace` of its one-character string by "" |
| Strings.RemoveAbsent | src/SmtpServerServiceLibrary/SmtpRelayServer.cs:298 | removing a character that does not occur changes nothing |
| Strings.ReplaceWithoutOccurrence | src/SmtpServerServiceLibrary/Legacy/HomePrinterRelay.cs:124 | `Replace` leaves a string without any occurrence of the pattern unchanged |
| Strings.ToUpper | src/SmtpServerServiceLibrary/Legacy/HomePrinterRelaySettings.cs:48 | same length, each character upper-cased |
| Strings.ToLower | src/SmtpServerServiceLibrary/Filters/DestinationDomainFilter.cs:29 | same length, each character lower-cased |
| Strings.SeparatorAt | src/SmtpServerServiceLibrary/SmtpRelayServer.cs:182 | the index of the first separator, in array order, that the text starts with, and none before it matches |
| Strings.Pieces | src/SmtpServerServiceLibrary/SmtpRelayServer.cs:182 | `Split` without empty-entry removal always yields at least one piece |
| Strings.Cuts | src/SmtpServerServiceLibrary/SmtpRelayServer.cs:182 | every separator the split cuts at is one of the given separators |
| Strings.PiecesRebuild | src/SmtpServerServiceLibrary/SmtpRelayServer.cs:182 | there is one more piece than cuts, and the pieces with the cut separators between them rebuild the input exactly |
| Strings.NonEmpty | src/SmtpServerServiceLibrary/SmtpRelayServer.cs:182 | `RemoveEmptyEntries` keeps exactly the non-empty pieces |
| Strings.NonEmptySingleton | src/SmtpServerServiceLibrary/SmtpRelayServer.cs:182 | a single piece is kept iff it is non-empty |
| Strings.NonEmptyAppend | src/SmtpServerServiceLibrary/SmtpRelayServer.cs:182 | removing empty entries distributes over concatenation, so the kept pieces keep their order |
| Strings.FirstPieceIsPrefix | src/SmtpServerServiceLibrary/SmtpRelayServer.cs:182 | the first piece of a split is a prefix of the input |
| Strings.PiecesAvoidSeparators | src/SmtpServerServiceLibrary/SmtpRelayServer.cs:182 | no piece contains any separator anywhere |
| Strings.Split | src/SmtpServerServiceLibrary/SmtpRelayServer.cs:182 | `Split` with `RemoveEmptyEntries`: the tokens are exactly the non-empty pieces, and there are no more tokens than pieces; `PiecesRebuild` rebuilds the input from the pieces, and `SplitTokens` keeps every token free of separators |
| Strings.SplitTokens | src/SmtpServerServiceLibrary/SmtpRelayServer.cs:251 | every token of a split with `RemoveEmptyEntries` is non-empty and free of separators |
| Decimal.Digits | src/SmtpServerServiceLibrary/Legacy/HomePrinterRelay.cs:178 | `ToString()` of a natural number is at least one digit and only digits |
| Decimal.ValueOfDigits | src/SmtpServerServiceLibrary/Legacy/HomePrinterRelay.cs:178 | reading the digits of `n` back gives `n` |
| Decimal.DigitsInjective | src/SmtpServerServiceLibrary/Legacy/HomePrinterRelay.cs:178 | distinct numbers print differently |
| Decimal.Pad2 | src/SmtpServerServiceLibrary/Legacy/HomePrinterRelay.cs:178-179 | the `D2` text of `n < 100` is exactly two digits whose value is `n` |
| Decimal.TryParseInt | src/SmtpServerServiceLibrary/Legacy/HomePrinterRelaySettings.cs:28 | `int.TryParse` succeeds only on a non-null, non-empty string and only with a 32-bit value |
| Decimal.TryParseRoundTrip | src/SmtpServerServiceLibrary/Legacy/HomePrinterRelaySettings.cs:28 | every 32-bit value survives `ToString` and `TryParse` |
| Decimal.TryParseRejectsNonDigit | src/SmtpServerServiceLibrary/Legacy/HomePrinterRelaySettings.cs:28-31 | text with a non-digit after its first character fails to parse |
| Decimal.ValueLeadingZero | src/SmtpServerServiceLibrary/Legacy/HomePrinterRelaySettings.cs:28 | a leading zero does not change the value of a digit string |
| Decimal.TryParseDigits | src/SmtpServerServiceLibrary/Legacy/HomePrinterRelaySettings.cs:28 | a non-empty digit string within 32 bits parses to its value, with or without a leading `+` |
| Ascii.AsciiText | src/SmtpServerServiceLibrary/SmtpRelayServer.cs:400 | `Encoding.ASCII.GetString` gives one character per byte: the byte itself below 128, `?` otherwise |
| Base64.StripWhitespace | src/SmtpServerServiceLibrary/Legacy/HomePrinterRelay.cs:182 | the decoder's view of the text: exactly the non-white-space characters, none added |
| Base64.StripAppend | src/SmtpServerServiceLibrary/Legacy/HomePrinterRelay.cs:182 | skipping white space distributes over concatenation |
| Base64.Symbol | src/SmtpServerServiceLibrary/Legacy/HomePrinterRelay.cs:182 | each six-bit value maps to an alphabet character that is neither white space nor padding |
| Base64.SymbolRoundTrip | src/SmtpServerServiceLibrary/Legacy/HomePrinterRelay.cs:182 | the alphabet maps six-bit values one to one |
| Base64.Split3 | src/SmtpServerServiceLibrary/Legacy/HomePrinterRelay.cs:182 | three bytes cut into four six-bit values pack back into the same three bytes |
| Base64.Encode | src/SmtpServerServiceLibrary/Legacy/HomePrinterRelay.cs:182 | the reference encoder emits only alphabet characters and padding, never white space |
| Base64.Decode | src/SmtpServerServiceLibrary/Legacy/HomePrinterRelay.cs:182 | `FromBase64String` succeeds only when the text without white space is a multiple of four characters long, giving three bytes per group, at most two fewer for padding; `DecodeEncode` is its round trip with the encoder and `DecodeIgnoresBreaks` its indifference to line breaks |
| Base64.DecodeEncode | src/SmtpServerServiceLibrary/Legacy/HomePrinterRelay.cs:182 | `FromBase64String` undoes the encoder for every byte string |
| Base64.DecodeIgnoresBreaks | src/SmtpServerServiceLibrary/Legacy/HomePrinterRelay.cs:182 | inserting white space anywhere does not change what text decodes to |
| LineFramer.FindCrLf | src/SmtpServerServiceLibrary/SmtpRelayServer.cs:396-404 | the offset found holds a CR LF and none lies before it; `None` iff there is no CR LF from `from` on |
| LineFramer.ScanLine | src/SmtpServerServiceLibrary/SmtpRelayServer.cs:392-408 | `totalBytesRead` is 0 with an empty line iff there is no CR LF in range; otherwise it is two past the first CR LF and the line is the ASCII text before it |
| LineFramer.TakeLine | src/SmtpServerServiceLibrary/SmtpRelayServer.cs:369-390 | one extraction: with no CR LF, no text and the bytes untouched; otherwise the text before the first CR LF and the bytes after it, which are shorter |
| LineFramer.EmptyTextMeansEmptyOrNoLine | src/SmtpServerServiceLibrary/SmtpRelayServer.cs:398-407 | an empty result means either no complete line or an empty line, indistinguishably |
| LineFramer.PrefixBeforeFirstCrLf | src/SmtpServerServiceLibrary/SmtpRelayServer.cs:398-402 | a line cut before the first CR LF contains no CR LF |
| LineFramer.FrameLosesNothing | src/SmtpServerServiceLibrary/SmtpRelayServer.cs:369-390 | the lines, each put back before its CR LF, followed by the rest, are exactly the bytes received |
| LineFramer.FrameCutsAtEveryCrLf | src/SmtpServerServiceLibrary/SmtpRelayServer.cs:369-390 | no line and no leftover holds a CR LF |
| LineFramer.FindCrLfExtends | src/SmtpServerServiceLibrary/SmtpRelayServer.cs:396-404 | a line found in the buffer is found unchanged when more bytes arrive |
| LineFramer.FrameAppend | src/SmtpServerServiceLibrary/SmtpRelayServer.cs:355-358 | framing `a + b` is framing `a`, then framing its leftover followed by `b` |
| LineFramer.Texts | src/SmtpServerServiceLibrary/SmtpRelayServer.cs:400 | one ASCII text per byte line, in order |
| LineFramer.TakeLineThenFrame | src/SmtpServerServiceLibrary/SmtpRelayServer.cs:369-390 | taking one line off the front and framing the rest with later bytes gives the same non-empty texts as framing everything |
| LineFramer.PolledReadFrames | src/SmtpServerServiceLibrary/SmtpRelayServer.cs:329-358 | a call that reads the socket drops a buffered empty line and takes one line from the rest and the new bytes, losing no non-empty line |
| LineFramer.ReadCallFrames | src/SmtpServerServiceLibrary/SmtpRelayServer.cs:327-367 | one `ReadLine` call returns its line and leaves bytes whose non-empty lines, with the line itself, are those of everything still to come |
| LineFramer.ReadCall | src/SmtpServerServiceLibrary/SmtpRelayServer.cs:327-367 | one `ReadLine` call: when the socket delivers nothing it is one extraction from the buffer, and it never leaves more bytes than it had and received; `ReadCallFrames` ties it to framing |
| LineFramer.Reads | src/SmtpServerServiceLibrary/SmtpRelayServer.cs:327-367 | the successive `ReadLine` results: none exactly when no chunk is left and no line is complete, and at least one call per chunk read; `ReadsAreFramedLines` is its partner |
| LineFramer.ReadsAreFramedLines | src/SmtpServerServiceLibrary/SmtpRelayServer.cs:327-367 | however the bytes are split into reads, the non-empty texts the successive `ReadLine` calls return are the non-empty lines of all the bytes framed at once |
| LineFramer.ReadSplitAddsEmptyText | src/SmtpServerServiceLibrary/SmtpRelayServer.cs:327-367 | `AB` then `C` CR LF in two reads return "" and then `ABC`; in one read they return `ABC` alone |
| LineFramer.CopyPrefix | src/SmtpServerServiceLibrary/SmtpRelayServer.cs:357 | a fresh array of the new capacity that starts with the old contents |
| LineFramer.CopyInto | src/SmtpServerServiceLibrary/SmtpRelayServer.cs:384 | the bytes are written at the offset and everything before it is unchanged |
| LineFramer.BackBuffer.constructor | src/SmtpServerServiceLibrary/SmtpRelayServer.cs:83 | a new back buffer is empty |
| LineFramer.BackBuffer.Write | src/SmtpServerServiceLibrary/SmtpRelayServer.cs:357 | the buffered bytes become the old ones followed by the new ones, growing the array when needed |
| LineFramer.BackBuffer.ProcessReadBackBuffer | src/SmtpServerServiceLibrary/SmtpRelayServer.cs:369-390 | returns the line and leaves the bytes that `TakeLine` gives for the old contents, in the same array |
| LineFramer.BackBuffer.ReadLine | src/SmtpServerServiceLibrary/SmtpRelayServer.cs:327-367 | a buffered non-empty line is returned without reading; otherwise the received bytes are appended and one extraction is tried; an empty read returns ""; in all cases the result is `ReadCall` of the old contents |
| RelayServer.DispositionTokens | src/SmtpServerServiceLibrary/SmtpRelayServer.cs:251-259 | the token loop throws iff the last token is `filename`; it sets the attachment flag iff some token is `attachment`; the file name is the quote-stripped token after the last `filename`, and unchanged without one |
| RelayServer.ReadDisposition | src/SmtpServerServiceLibrary/SmtpRelayServer.cs:252-259 | the `for` loop over the tokens computes `DispositionTokens` |
| RelayServer.HeadersDistinct | src/SmtpServerServiceLibrary/SmtpRelayServer.cs:240-261 | a line starts with at most one of the four part headers, so the order of the tests does not matter |
| RelayServer.PartLine | src/SmtpServerServiceLibrary/SmtpRelayServer.cs:219-275 | one part line: it stops iff it is a non-empty end line; it throws iff it is a non-base64 encoding or a disposition ending in `filename` while not accumulating; an empty line flips accumulation; accumulating appends the line verbatim; otherwise the data is unchanged and accumulation is on iff the line is the encoding header |
| RelayServer.ScanPart | src/SmtpServerServiceLibrary/SmtpRelayServer.cs:217-276 | a part that ends or throws has consumed at least one line and no more than there are |
| RelayServer.SplitReadChangesPart | src/SmtpServerServiceLibrary/SmtpRelayServer.cs:225-228 | a part whose second transfer-encoding header is body text ends normally, but throws when a split read puts an empty text before that header |
| RelayServer.ProcessClientDataBoundary | src/SmtpServerServiceLibrary/SmtpRelayServer.cs:205-294 | the part loop with its eight locals computes `ScanPart` from the line after the boundary |
| RelayServer.BoundaryPieces | src/SmtpServerServiceLibrary/SmtpRelayServer.cs:184-190 | the piece loop from the start index throws iff that range is non-empty and its last piece is `boundary`; otherwise the boundary is the quote-stripped piece after the last `boundary` in the range, and unchanged without one |
| RelayServer.ParseContentType | src/SmtpServerServiceLibrary/SmtpRelayServer.cs:179-191 | a `Content-Type:` line throws iff it splits into fewer than two pieces, or into more than two with the last being `boundary` (with exactly two pieces the loop from index 2 never runs, so a lone `boundary` is a content type); otherwise the content type is piece 1 |
| RelayServer.SectionLine | src/SmtpServerServiceLibrary/SmtpRelayServer.cs:157-201 | one section line: it ends the section iff it is the lone `.`; it throws iff it is a `Content-Type:` line that does not parse; it opens a part iff it is `--` and the boundary in force; `Subject: ` sets the subject to the rest of the line; `Reply-To:` appends the cleaned address; a parsed `Content-Type:` sets the content type and boundary; every other line changes nothing |
| RelayServer.ScanSection | src/SmtpServerServiceLibrary/SmtpRelayServer.cs:149-202 | a section that ends or throws has consumed at least one line and no more than there are; one that ends does so on a lone `.` line |
| RelayServer.SubjectLine | src/SmtpServerServiceLibrary/SmtpRelayServer.cs:171-174 | a `Subject: ` line sets the subject to the text after the prefix |
| RelayServer.PartThenDot | src/SmtpServerServiceLibrary/SmtpRelayServer.cs:192-201 | after a part that ends normally the section resumes, and a `.` right after it ends the section |
| RelayServer.ProcessClientDataSection | src/SmtpServerServiceLibrary/SmtpRelayServer.cs:143-203 | the section loop, with the boundary loop and the part calls, computes `ScanSection` |
| RelayServer.StripAngles | src/SmtpServerServiceLibrary/SmtpRelayServer.cs:111 | the address keeps every character but `<` and `>` |
| RelayServer.Dispatch | src/SmtpServerServiceLibrary/SmtpRelayServer.cs:89-131 | one command line: it closes iff it starts with `QUIT`; it is answered as a greeting iff it starts with `EHLO` and has an argument; it adds a recipient iff it starts with `RCPT TO:` and sets the sender iff it starts with `MAIL FROM:`, each with the address after the prefix stripped of angle brackets; it starts a DATA section iff it starts with `DATA`; anything else, the empty line included, is skipped |
| RelayServer.Run | src/SmtpServerServiceLibrary/SmtpRelayServer.cs:85-137 | the command loop keeps the replies it was given as a prefix, keeps the first reply, and adds only the three fixed texts |
| RelayServer.Serve | src/SmtpServerServiceLibrary/SmtpRelayServer.cs:73-141 | every session opens with the `220` banner and sends only the fixed replies |
| RelayServer.ProcessSingleClient | src/SmtpServerServiceLibrary/SmtpRelayServer.cs:73-141 | the session loop, with the DATA section call, computes `Serve` |
| RelayServer.ScanPartExtends | src/SmtpServerServiceLibrary/SmtpRelayServer.cs:217-276 | a part that ended or threw never looked at the lines after it |
| RelayServer.ScanSectionExtends | src/SmtpServerServiceLibrary/SmtpRelayServer.cs:149-202 | a section that ended or threw never looked at the lines after it |
| RelayServer.QuitIgnoresLaterInput | src/SmtpServerServiceLibrary/SmtpRelayServer.cs:90-95 | after `QUIT` nothing the client sends changes the session |
| RelayServer.SectionEndsAtFirstDot | src/SmtpServerServiceLibrary/SmtpRelayServer.cs:157-201 | a sufficient condition: when no earlier line starts with `--` (a superset of the lines that open a part) and no `Content-Type:` line throws, the section ends right after its first lone `.` |
| RelayServer.EncodedTextHasNoDash | src/SmtpServerServiceLibrary/SmtpRelayServer.cs:230-261 | a base64 text line is no part header and no end line except the bare boundary |
| RelayServer.EncodedLineIsNoHeader | src/SmtpServerServiceLibrary/SmtpRelayServer.cs:235-275 | a base64 text line read while not accumulating leaves the part as it is |
| RelayServer.EncodingLine | src/SmtpServerServiceLibrary/SmtpRelayServer.cs:261-275 | outside the body, a `base64` transfer encoding turns accumulation on and any other encoding throws |
| RelayServer.EncodedLinesAreSkipped | src/SmtpServerServiceLibrary/SmtpRelayServer.cs:217-276 | base64 text lines up to a line that ends the part leave the part unchanged, and it ends after that line |
| RelayServer.ConventionalPartDropsBody | src/SmtpServerServiceLibrary/SmtpRelayServer.cs:225-274 | wherever it starts, a part laid out as encoding header, blank line, base64 body and closing line collects none of its body and ends after the closing line |
| RelayServer.QuitStep | src/SmtpServerServiceLibrary/SmtpRelayServer.cs:90-95 | `QUIT` ends the session with the message and replies it has |
| RelayServer.HelloStep | src/SmtpServerServiceLibrary/SmtpRelayServer.cs:103-107 | `EHLO` with an argument adds one `250 OK` and changes nothing else |
| RelayServer.RecipientStep | src/SmtpServerServiceLibrary/SmtpRelayServer.cs:108-114 | `RCPT TO:` adds one `250 OK` and appends the address to the recipients |
| RelayServer.SenderStep | src/SmtpServerServiceLibrary/SmtpRelayServer.cs:115-120 | `MAIL FROM:` adds one `250 OK` and sets the sender |
| RelayServer.DataStep | src/SmtpServerServiceLibrary/SmtpRelayServer.cs:121-126 | `DATA` whose section ends at its `.` adds `354` and `250 OK`, takes the section's message and resumes after the `.` |
| RelayServer.ScannerSection | src/SmtpServerServiceLibrary/SmtpRelayServer.cs:143-203 | a section of subject, multipart content type, one conventional base64 part, closing boundary and `.` ends after the `.` with only the subject set |
| RelayServer.ScannerEnvelope | src/SmtpServerServiceLibrary/SmtpRelayServer.cs:103-120 | the greeting, sender and recipient are each answered and fill in the sender and the one recipient |
| RelayServer.ScannerCommands | src/SmtpServerServiceLibrary/SmtpRelayServer.cs:85-137 | those commands, `DATA` with such a section, and `QUIT` give the six replies, the message and a closed session |
| RelayServer.ScannerConversation | src/SmtpServerServiceLibrary/SmtpRelayServer.cs:73-141 | a scanner's whole conversation gives the replies 220, 250, 250, 250, 354, 250, a message with its sender, recipient and subject, and ends on `QUIT` |
| HomePrinterRelay.Unescape | src/SmtpServerServiceLibrary/Legacy/HomePrinterRelay.cs:123-124 | a line not starting with `..` is kept; one starting with `..` still starts with `.` |
| HomePrinterRelay.UnescapeLeadingDot | src/SmtpServerServiceLibrary/Legacy/HomePrinterRelay.cs:123-124 | a dot-stuffed line with no other `..` loses exactly the added dot |
| HomePrinterRelay.UnescapeReplacesInnerPairs | src/SmtpServerServiceLibrary/Legacy/HomePrinterRelay.cs:124 | `..a..b` is recorded as `.a.b`: inner pairs lose a dot too |
| HomePrinterRelay.DataBlock | src/SmtpServerServiceLibrary/Legacy/HomePrinterRelay.cs:121-127 | the block fails iff no lone `.` follows; otherwise it ends at the first `.` and holds each earlier line unescaped, in order |
| HomePrinterRelay.ReceiveData | src/SmtpServerServiceLibrary/Legacy/HomePrinterRelay.cs:119-128 | the DATA loop computes `DataBlock` |
| HomePrinterRelay.DataBlockAt | src/SmtpServerServiceLibrary/Legacy/HomePrinterRelay.cs:121-127 | the unescaped lines before the first `.` are the block `DataBlock` gives |
| HomePrinterRelay.Dispatch | src/SmtpServerServiceLibrary/Legacy/HomePrinterRelay.cs:84-137 | a line closes iff it is empty or starts with `QUIT` or `quit`; it is answered iff it starts with `EHLO` and has an argument, or starts with `RCPT TO:` or `MAIL FROM:`; it starts a DATA block iff it starts with `DATA` |
| HomePrinterRelay.Run | src/SmtpServerServiceLibrary/Legacy/HomePrinterRelay.cs:79-143 | the command loop keeps the first reply and the messages already recorded, and adds only fixed replies |
| HomePrinterRelay.Serve | src/SmtpServerServiceLibrary/Legacy/HomePrinterRelay.cs:67-147 | every session opens with the `220` banner and sends only the fixed replies |
| HomePrinterRelay.ProcessSingleClient | src/SmtpServerServiceLibrary/Legacy/HomePrinterRelay.cs:67-147 | the session loop computes `Serve` |
| HomePrinterRelay.EhloAnswered | src/SmtpServerServiceLibrary/Legacy/HomePrinterRelay.cs:93-97 | `EHLO` with an argument is answered |
| HomePrinterRelay.BareEhloIgnored | src/SmtpServerServiceLibrary/Legacy/HomePrinterRelay.cs:95 | a bare `EHLO` gets no reply, because `Substring(5)` throws |
| HomePrinterRelay.AddressCommandAnswered | src/SmtpServerServiceLibrary/Legacy/HomePrinterRelay.cs:98-110 | `RCPT TO:` and `MAIL FROM:` are answered |
| HomePrinterRelay.DataDispatched | src/SmtpServerServiceLibrary/Legacy/HomePrinterRelay.cs:111 | `DATA` starts a data block |
| HomePrinterRelay.LowerCaseQuitCloses | src/SmtpServerServiceLibrary/Legacy/HomePrinterRelay.cs:84 | lower-case `quit` closes the connection too |
| HomePrinterRelay.AnswerStep | src/SmtpServerServiceLibrary/Legacy/HomePrinterRelay.cs:93-110 | an answered command adds exactly one `250 OK` and nothing else |
| HomePrinterRelay.DataStep | src/SmtpServerServiceLibrary/Legacy/HomePrinterRelay.cs:111-133 | a completed DATA block adds `354` and `250 OK` and records the block |
| HomePrinterRelay.CommandsAnswered | src/SmtpServerServiceLibrary/Legacy/HomePrinterRelay.cs:93-133 | three answered commands and a DATA block give the replies 220, 250, 250, 250, 354, 250 and one recorded block |
| HomePrinterRelay.DataBlockExtends | src/SmtpServerServiceLibrary/Legacy/HomePrinterRelay.cs:121 | a finished DATA block never looked past its `.` |
| HomePrinterRelay.ClosedIgnoresLaterInput | src/SmtpServerServiceLibrary/Legacy/HomePrinterRelay.cs:84-90 | after the closing line nothing the client sends changes the session |
| HomePrinterRelay.NoDotLines | src/SmtpServerServiceLibrary/Legacy/HomePrinterRelay.cs:123 | base64 block lines never start with a dot, so the unescape leaves them alone |
| HomePrinterRelay.RecordedUnchanged | src/SmtpServerServiceLibrary/Legacy/HomePrinterRelay.cs:121-127 | a message with no line starting with `.` is recorded exactly as sent |
| HomePrinterRelay.RecordsMessage | src/SmtpServerServiceLibrary/Legacy/HomePrinterRelay.cs:67-147 | the scanner's commands around such a message yield 220, 250, 250, 250, 354, 250, that message recorded, and a closed connection |
| HomePrinterRelay.FileName | src/SmtpServerServiceLibrary/Legacy/HomePrinterRelay.cs:178-179 | the name is 26 characters longer than the year's digits and ends in ` - Scan.pdf` |
| HomePrinterRelay.FileNameFields | src/SmtpServerServiceLibrary/Legacy/HomePrinterRelay.cs:178-179 | the year, month, day, hour, minute and second each sit at a fixed offset after the year |
| HomePrinterRelay.FileNameInjective | src/SmtpServerServiceLibrary/Legacy/HomePrinterRelay.cs:177-179 | two different moments, to the second, get different file names |
| HomePrinterRelay.Combine | src/SmtpServerServiceLibrary/Legacy/HomePrinterRelay.cs:181 | the path ends with the file name and starts with a non-empty directory |
| HomePrinterRelay.Gather | src/SmtpServerServiceLibrary/Legacy/HomePrinterRelay.cs:158-191 | text is produced only if an empty line is reached |
| HomePrinterRelay.Extracted | src/SmtpServerServiceLibrary/Legacy/HomePrinterRelay.cs:149-202 | a file is written iff the directory is non-null, a block is gathered and it decodes; it is written at the timestamped name in the directory and holds exactly the decoded block |
| HomePrinterRelay.ProcessData | src/SmtpServerServiceLibrary/Legacy/HomePrinterRelay.cs:149-202 | the one-pass loop with two flags and a `StringBuilder` computes `Extracted` |
| HomePrinterRelay.StripJoinLines | src/SmtpServerServiceLibrary/Legacy/HomePrinterRelay.cs:188 | the line breaks `AppendLine` adds are invisible to the decoder |
| HomePrinterRelay.GatherSkipsToMarker | src/SmtpServerServiceLibrary/Legacy/HomePrinterRelay.cs:160-171 | lines before the marker change nothing |
| HomePrinterRelay.GatherReads | src/SmtpServerServiceLibrary/Legacy/HomePrinterRelay.cs:172-190 | once reading, every line up to the first empty one is appended with a line break |
| HomePrinterRelay.GathersBlock | src/SmtpServerServiceLibrary/Legacy/HomePrinterRelay.cs:158-191 | in a message of other lines, the marker, one skipped line, non-empty block lines and an empty line, exactly the block is gathered |
| HomePrinterRelay.DecodesJoinedLines | src/SmtpServerServiceLibrary/Legacy/HomePrinterRelay.cs:182-188 | block lines whose run-together text encodes a PDF decode to that PDF |
| HomePrinterRelay.ExtractsScan | src/SmtpServerServiceLibrary/Legacy/HomePrinterRelay.cs:149-202 | such a message is written as exactly that PDF, under the timestamped name in the directory |
| HomePrinterRelay.ScannerSession | src/SmtpServerServiceLibrary/Legacy/HomePrinterRelay.cs:67-147 | the scanner's whole conversation yields the six fixed replies, records its message unchanged, and writes exactly the scanned PDF |
| Settings.Flag | src/SmtpServerServiceLibrary/Legacy/HomePrinterRelaySettings.cs:38 | the flag is the name after `--` |
| Settings.VariableName | src/SmtpServerServiceLibrary/Legacy/HomePrinterRelaySettings.cs:48 | the variable is the name after `SMTP_`, as long as the name plus five |
| Settings.FlagIndex | src/SmtpServerServiceLibrary/Legacy/HomePrinterRelaySettings.cs:39-45 | the index found is the first flag match, ignoring case, among the arguments with one after them; `None` iff there is none |
| Settings.FromEnvironment | src/SmtpServerServiceLibrary/Legacy/HomePrinterRelaySettings.cs:48-53 | the variable's value when it is set and non-empty, `None` otherwise |
| Settings.Setting | src/SmtpServerServiceLibrary/Legacy/HomePrinterRelaySettings.cs:35-57 | a setting comes from an argument or from the environment, nowhere else |
| Settings.GetSetting | src/SmtpServerServiceLibrary/Legacy/HomePrinterRelaySettings.cs:35-57 | the loop with early return and the two fallbacks computes `Setting` |
| Settings.GetSettingInt | src/SmtpServerServiceLibrary/Legacy/HomePrinterRelaySettings.cs:25-33 | the result is a 32-bit value: what the setting parses to when it parses, and 0 when it does not |
| Settings.LoadSettings | src/SmtpServerServiceLibrary/Legacy/HomePrinterRelaySettings.cs:15-23 | the directory is the `OutputPath` setting and the port is `GetSettingInt` of the `SmtpPort` setting, a 32-bit value |
| Settings.FirstFlagWins | src/SmtpServerServiceLibrary/Legacy/HomePrinterRelaySettings.cs:38-45 | the argument after the first matching flag is the setting, whatever follows and whatever the environment holds |
| Settings.NoFlagFallsBack | src/SmtpServerServiceLibrary/Legacy/HomePrinterRelaySettings.cs:47-56 | without a matching flag, the environment decides, and its absence gives null |
| Settings.LastFlagIgnored | src/SmtpServerServiceLibrary/Legacy/HomePrinterRelaySettings.cs:39 | a flag in the last position is never used |
| Settings.FlagIgnoresCase | src/SmtpServerServiceLibrary/Legacy/HomePrinterRelaySettings.cs:41 | `--OUTPUTPATH` sets `OutputPath` |
| Settings.OutputPathVariable | src/SmtpServerServiceLibrary/Legacy/HomePrinterRelaySettings.cs:48 | the output directory is read from `SMTP_OUTPUTPATH` |
| Settings.SmtpPortVariable | src/SmtpServerServiceLibrary/Legacy/HomePrinterRelaySettings.cs:48 | the port is read from `SMTP_SMTPPORT` |
| Settings.MissingSettings | src/SmtpServerServiceLibrary/Legacy/HomePrinterRelaySettings.cs:13-21 | with neither source, the directory is null and the port is 0, not the initial 25 |
| Settings.PortRoundTrip | src/SmtpServerServiceLibrary/Legacy/HomePrinterRelaySettings.cs:25-33 | every 32-bit port given as `--SmtpPort` is the port loaded |
| Settings.PortFromEnvironment | src/SmtpServerServiceLibrary/Legacy/HomePrinterRelaySettings.cs:25-57 | without a `--SmtpPort` flag, a port in `SMTP_SMTPPORT` written with a `+` sign and a leading zero is loaded as its value |
| Settings.UnparsablePortIsZero | src/SmtpServerServiceLibrary/Legacy/HomePrinterRelaySettings.cs:28-31 | a port that does not parse is loaded as 0 |
| Filters.Accepts | src/SmtpServerServiceLibrary/Filters/DestinationDomainFilter.cs:29 | the test inside the `Any` lambdas: an empty address never passes; the address filter passes its own address, and only addresses of its length; the domain filter passes every address ending in the domain, and none shorter than the domain; `MatchesIff` lifts it to the message |
| Filters.Any | src/SmtpServerServiceLibrary/Filters/DestinationEmailAddressFilter.cs:30-32 | `Any` over no recipients is false |
| Filters.FilterMatchesMessage | src/SmtpServerServiceLibrary/Filters/DestinationDomainFilter.cs:24-30 | a match needs a non-null, non-empty configured value and at least one recipient |
| Filters.AnyIsExists | src/SmtpServerServiceLibrary/Filters/DestinationEmailAddressFilter.cs:30-32 | the scan holds iff some recipient passes the test |
| Filters.MatchesIff | src/SmtpServerServiceLibrary/Filters/DestinationEmailAddressFilter.cs:25-33 | a message matches iff the filter is configured and some non-empty recipient address passes its test |
| Filters.AnyAppend | src/SmtpServerServiceLibrary/Filters/DestinationDomainFilter.cs:29 | two recipient lists together match iff either does |
| Filters.MatchesMonotone | src/SmtpServerServiceLibrary/Filters/DestinationEmailAddressFilter.cs:30-32 | adding recipients, before or after, never turns a match into a non-match |
| Filters.MatchesIgnoresOrder | src/SmtpServerServiceLibrary/Filters/DestinationDomainFilter.cs:29 | reordering the recipients does not change the verdict |
| Filters.DomainSuffixIgnoresLabels | src/SmtpServerServiceLibrary/Filters/DestinationDomainFilter.cs:29 | `x@evilexample.com` matches the domain `example.com`: the test is a plain suffix test |
| Filters.AddressIgnoresCase | src/SmtpServerServiceLibrary/Filters/DestinationEmailAddressFilter.cs:32 | the address comparison ignores case |

## Left out

- Sockets, the listener and accepting connections (`Start`, `Stop`, `OnClientConnect`), `WriteLine`, logging and the `DataRead`/`DataWritten` events. A session is the sequence of lines it receives; a reply is a string added to the session's list.
- Concurrency: each connection runs on its own task and `ProcessData` runs on the thread pool. The model processes one session at a time, and each recorded block is handed to `ProcessData` directly.
- The temporary file between the DATA loop and `ProcessData` (`GetTempFileName`, `WriteLineAsync`, `ReadAllLines`, `Delete`). The recorded lines are passed on as they are, because a line `ReadLine` returns holds no line break.
- `DateTime.Now` is a parameter, and the environment is a map from variable name to value.
- The `IsRunning` flag and shutdown while a session is in progress: every session runs until it closes or its lines run out.
- A peer that closes while `socket.Connected` still reports true makes `SmtpRelayServer` loop on empty reads. The model ends the session when the lines run out.
- Replies sent after the peer has gone, and exceptions from writing them.
- The empty attachment block after the part loop in `ProcessClientDataBoundary`: it has no effect.
- RelayServer.Run: `MAIL FROM:` and `RCPT TO:` are always answered. `MailAddress` and `MailAddressCollection` parse the address and may throw, which would suppress the `250 OK`; that validation is not modelled.
- LineFramer.BackBuffer.ReadLine: one socket read delivers at most 8192 bytes; the model accepts a read of any size.
- HomePrinterRelay.Combine: written with `/` as the separator and for a relative file name; `Path.Combine` uses the platform's separator.
- HomePrinterRelay.NewLine: `AppendLine` adds `Environment.NewLine`, which is CR LF on Windows. The model uses LF; both are white space to the decoder, so the extracted bytes are the same.
- Decimal.TryParseInt: the leading and trailing white space and the culture-specific signs that `int.TryParse` also accepts are not modelled. Such text parses to `None` here.
- Strings.ToUpper: case folding (and `string.Compare` ignoring case) is ASCII-only, not culture-sensitive.
- Strings.ToLower: ASCII-only for the same reason.
- Strings.StartsWith: `StartsWith` and `EndsWith` without a `StringComparison` compare culture-sensitively in .NET. The model compares ordinally, which agrees on the ASCII command words and header names the servers test for.
- RelayServer.ScanSection: `ReplyToList.Add` throws on an empty or unparsable address (such as `Reply-To: <>`), and the `Subject` setter throws on a CR or LF. Either would end the section and suppress its `250 OK`. The model appends every cleaned address and sets every subject, because `MailAddress` parsing is not modelled.
- The `SmtpRelayServer` subject, recipient and reply-to values are kept as text. The `MailMessage` object, the attachment classes, `EmailMessage`, `RelayRoutingRule` and `IFilter` are not part of this model.
