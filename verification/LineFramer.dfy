/** The byte-level line reader of `SmtpRelayServer`: received bytes are kept in
    a back buffer (a `MemoryStream` whose `Position` marks the end of the
    unread bytes) and complete CR LF terminated lines are cut from its front. */
module LineFramer {
  import opened Wrappers
  import opened Ascii
  import Strings

  const CR: byte := 13
  const LF: byte := 10

  /** A CR LF pair starts at offset `i` of `s`. */
  predicate CrLfAt(s: seq<byte>, i: int) {
    0 <= i && i + 1 < |s| && s[i] == CR && s[i + 1] == LF
  }

  /** The first CR LF pair of `s` starts at offset `i`. */
  predicate FirstCrLfAt(s: seq<byte>, i: int) {
    CrLfAt(s, i) && forall j :: 0 <= j < i ==> !CrLfAt(s, j)
  }

  predicate NoCrLf(s: seq<byte>) {
    forall j :: 0 <= j < |s| ==> !CrLfAt(s, j)
  }

  /** The offset of the first CR LF pair at or after `from`. */
  function FindCrLf(s: seq<byte>, from: nat): (r: Option<nat>)
    ensures r.Some? ==> from <= r.value && CrLfAt(s, r.value)
    ensures r.Some? ==> forall j :: from <= j < r.value ==> !CrLfAt(s, j)
    ensures r.None? ==> forall j :: from <= j ==> !CrLfAt(s, j)
    decreases |s| - from
  {
    if from + 1 >= |s| then None
    else if CrLfAt(s, from) then Some(from)
    else FindCrLf(s, from + 1)
  }

  /** What one successful extraction does to the buffered bytes `s`: the text
      before the first CR LF and the bytes after it; with no CR LF, no text and
      `s` untouched. */
  function TakeLine(s: seq<byte>): (r: (string, seq<byte>))
    ensures NoCrLf(s) ==> r == ("", s)
    ensures forall i :: FirstCrLfAt(s, i) ==> r == (AsciiText(s[..i]), s[i + 2..])
    ensures NoCrLf(s) || |r.1| + 2 <= |s|
  {
    match FindCrLf(s, 0)
    case None => ("", s)
    case Some(i) => (AsciiText(s[..i]), s[i + 2..])
  }

  /** An empty line and the absence of a line yield the same empty text. */
  lemma EmptyTextMeansEmptyOrNoLine(s: seq<byte>)
    ensures TakeLine(s).0 == "" <==> NoCrLf(s) || CrLfAt(s, 0)
  {
    match FindCrLf(s, 0)
    case None =>
    case Some(i) =>
      assert FirstCrLfAt(s, i);
      if i > 0 {
        assert |TakeLine(s).0| == i;
      }
  }

  /** All complete lines of `s`, front to back, and the unterminated rest. */
  function Frame(s: seq<byte>): (r: (seq<seq<byte>>, seq<byte>))
    decreases |s|
  {
    match FindCrLf(s, 0)
    case None => ([], s)
    case Some(i) =>
      var (lines, rest) := Frame(s[i + 2..]);
      ([s[..i]] + lines, rest)
  }

  /** The lines joined back, each followed by CR LF. */
  function Join(lines: seq<seq<byte>>): seq<byte> {
    if lines == [] then [] else lines[0] + [CR, LF] + Join(lines[1..])
  }

  /** A line cut before the first terminator holds no terminator. */
  lemma PrefixBeforeFirstCrLf(s: seq<byte>, i: nat)
    requires FindCrLf(s, 0) == Some(i)
    ensures NoCrLf(s[..i])
  {
    forall j | 0 <= j < i ensures !CrLfAt(s[..i], j) {
      assert !CrLfAt(s, j);
      if j + 1 < i {
        assert s[..i][j] == s[j] && s[..i][j + 1] == s[j + 1];
      }
    }
  }

  lemma JoinCons(line: seq<byte>, lines: seq<seq<byte>>)
    ensures Join([line] + lines) == line + [CR, LF] + Join(lines)
  {
    assert ([line] + lines)[0] == line;
    assert ([line] + lines)[1..] == lines;
  }

  /** Framing loses nothing: the lines, each put back in front of its CR LF,
      followed by the rest, are the input. */
  lemma {:induction false} FrameLosesNothing(s: seq<byte>)
    ensures Join(Frame(s).0) + Frame(s).1 == s
    decreases |s|
  {
    match FindCrLf(s, 0)
    case None =>
    case Some(i) =>
      var t := s[i + 2..];
      var ft := Frame(t);
      calc {
        Join(Frame(s).0) + Frame(s).1;
        == { FrameAt(s, i); }
        Join([s[..i]] + ft.0) + ft.1;
        == { JoinCons(s[..i], ft.0); }
        (s[..i] + [CR, LF] + Join(ft.0)) + ft.1;
        ==
        (s[..i] + [CR, LF]) + (Join(ft.0) + ft.1);
        == { FrameLosesNothing(t); }
        s[..i] + [CR, LF] + t;
        ==
        s;
      }
  }

  /** No line and no rest holds a CR LF pair. */
  lemma {:induction false} FrameCutsAtEveryCrLf(s: seq<byte>)
    ensures forall k :: 0 <= k < |Frame(s).0| ==> NoCrLf(Frame(s).0[k])
    ensures NoCrLf(Frame(s).1)
    decreases |s|
  {
    match FindCrLf(s, 0)
    case None =>
    case Some(i) =>
      var t := s[i + 2..];
      FrameCutsAtEveryCrLf(t);
      PrefixBeforeFirstCrLf(s, i);
      assert Frame(s).0 == [s[..i]] + Frame(t).0;
  }

  /** A line found in `a` is found, unchanged, once more bytes arrive. */
  lemma FindCrLfExtends(a: seq<byte>, b: seq<byte>, i: nat)
    requires FindCrLf(a, 0) == Some(i)
    ensures FindCrLf(a + b, 0) == Some(i)
  {
    assert CrLfAt(a + b, i);
    forall j | 0 <= j < i ensures !CrLfAt(a + b, j) {
      assert !CrLfAt(a, j);
      assert (a + b)[j] == a[j] && (a + b)[j + 1] == a[j + 1];
    }
  }

  /** `Frame` unfolded once at a known first terminator. */
  lemma FrameAt(s: seq<byte>, i: nat)
    requires FindCrLf(s, 0) == Some(i)
    ensures Frame(s) == ([s[..i]] + Frame(s[i + 2..]).0, Frame(s[i + 2..]).1)
  {
  }

  /** The property `FrameAppend` proves. */
  predicate FramesAppended(a: seq<byte>, b: seq<byte>) {
    Frame(a + b) == (Frame(a).0 + Frame(Frame(a).1 + b).0, Frame(Frame(a).1 + b).1)
  }

  /** `Frame` unfolded once over `a + b` at the first terminator of `a`. */
  lemma FrameAppendAt(a: seq<byte>, b: seq<byte>, i: nat)
    requires FindCrLf(a, 0) == Some(i)
    ensures Frame(a + b) == ([a[..i]] + Frame(a[i + 2..] + b).0, Frame(a[i + 2..] + b).1)
  {
    FindCrLfExtends(a, b, i);
    assert (a + b)[..i] == a[..i] && (a + b)[i + 2..] == a[i + 2..] + b;
    FrameAt(a + b, i);
  }

  /** The inductive step of `FrameAppend`: a line cut from the front of `a`. */
  lemma FrameAppendStep(a: seq<byte>, b: seq<byte>, i: nat)
    requires FindCrLf(a, 0) == Some(i)
    requires FramesAppended(a[i + 2..], b)
    ensures FramesAppended(a, b)
  {
    var t := a[i + 2..];
    var ft := Frame(t);
    var later := Frame(ft.1 + b);
    calc {
      Frame(a + b);
      == { FrameAppendAt(a, b, i); }
      ([a[..i]] + Frame(t + b).0, Frame(t + b).1);
      ==
      ([a[..i]] + (ft.0 + later.0), later.1);
      == { assert [a[..i]] + (ft.0 + later.0) == ([a[..i]] + ft.0) + later.0; }
      (([a[..i]] + ft.0) + later.0, later.1);
      == { FrameAt(a, i); }
      (Frame(a).0 + Frame(Frame(a).1 + b).0, Frame(Frame(a).1 + b).1);
    }
  }

  /** Framing `a + b` frames `a` first and then what is left of `a` followed
      by `b`. */
  lemma {:induction false} FrameAppend(a: seq<byte>, b: seq<byte>)
    ensures Frame(a + b) ==
      (Frame(a).0 + Frame(Frame(a).1 + b).0, Frame(Frame(a).1 + b).1)
    decreases |a|
  {
    match FindCrLf(a, 0)
    case None =>
      assert Frame(a) == ([], a);
      assert [] + Frame(a + b).0 == Frame(a + b).0;
    case Some(i) =>
      FrameAppend(a[i + 2..], b);
      FrameAppendStep(a, b, i);
  }

  function Concat(chunks: seq<seq<byte>>): seq<byte> {
    if chunks == [] then [] else chunks[0] + Concat(chunks[1..])
  }

  /** One call of `ReadLine(socket, backBuffer)` on the buffered bytes `buf`,
      `received` being what its socket read delivers: the line returned and
      the bytes left buffered (the contract of `BackBuffer.ReadLine`). A call
      that receives nothing is one extraction from the buffer, and no call
      leaves more bytes than it had and received. */
  function ReadCall(buf: seq<byte>, received: seq<byte>): (r: (seq<char>, seq<byte>))
    ensures received == [] ==> r == TakeLine(buf)
    ensures |r.1| <= |buf| + |received|
  {
    var (first, rest) := TakeLine(buf);
    if first != "" then (first, rest)
    else if received == [] then ("", rest)
    else TakeLine(rest + received)
  }

  /** The successive results of `ReadLine(socket, backBuffer)` starting from
      the buffered bytes `buf`, while the socket delivers `chunks`, one per
      read. A call reads the socket only when no non-empty line is buffered;
      the results end once the chunks are used up and no complete line is
      left. Every chunk is read by a call of its own. */
  function Reads(buf: seq<byte>, chunks: seq<seq<byte>>): (r: seq<string>)
    ensures r == [] <==> chunks == [] && NoCrLf(buf)
    ensures |r| >= |chunks|
    decreases |chunks|, |buf|
  {
    if chunks == [] && NoCrLf(buf) then []
    else
      var (line, rest) := ReadCall(buf, if Polls(buf, chunks) then chunks[0] else []);
      [line] + Reads(rest, if Polls(buf, chunks) then chunks[1..] else chunks)
  }

  /** The ASCII texts of the byte lines. */
  function Texts(lines: seq<seq<byte>>): (r: seq<string>)
    ensures |r| == |lines|
    ensures forall k :: 0 <= k < |lines| ==> r[k] == AsciiText(lines[k])
  {
    seq(|lines|, k requires 0 <= k < |lines| => AsciiText(lines[k]))
  }

  /** The non-empty texts of the complete lines of `s`. */
  function TextLines(s: seq<byte>): seq<string> {
    Strings.NonEmpty(Texts(Frame(s).0))
  }

  /** Taking one line off the front of `y` and framing the rest with `more`
      yields the same non-empty texts as framing `y + more`. */
  lemma TakeLineThenFrame(y: seq<byte>, more: seq<byte>)
    ensures TextLines(y + more) ==
      Strings.NonEmpty([TakeLine(y).0]) + TextLines(TakeLine(y).1 + more)
  {
    match FindCrLf(y, 0)
    case None =>
      Strings.NonEmptySingleton("");
    case Some(i) =>
      var later := Frame(y[i + 2..] + more).0;
      FrameAppendAt(y, more, i);
      assert Texts([y[..i]] + later) == [AsciiText(y[..i])] + Texts(later);
      Strings.NonEmptyAppend([AsciiText(y[..i])], Texts(later));
  }

  /** Whether the next `ReadLine` call reads the socket: only when no
      non-empty line is buffered and chunks remain. */
  predicate Polls(buf: seq<byte>, chunks: seq<seq<byte>>) {
    TakeLine(buf).0 == "" && chunks != []
  }

  /** A `ReadLine` call that reads the socket: the buffered empty line, if
      any, is dropped and one line is taken from the rest and the new bytes. */
  lemma PolledReadFrames(buf: seq<byte>, received: seq<byte>, more: seq<byte>)
    requires TakeLine(buf).0 == "" && received != []
    ensures TextLines(buf + (received + more)) ==
      Strings.NonEmpty([ReadCall(buf, received).0]) + TextLines(ReadCall(buf, received).1 + more)
  {
    var t := TakeLine(buf).1;
    TakeLineThenFrame(buf, received + more);
    Strings.NonEmptySingleton("");
    assert t + (received + more) == (t + received) + more;
    TakeLineThenFrame(t + received, more);
  }

  /** One `ReadLine` call: the non-empty lines of everything still to come
      are its own line, if non-empty, followed by those of what it leaves. */
  lemma ReadCallFrames(buf: seq<byte>, chunks: seq<seq<byte>>)
    ensures var received := if Polls(buf, chunks) then chunks[0] else [];
      var later := if Polls(buf, chunks) then chunks[1..] else chunks;
      var (line, rest) := ReadCall(buf, received);
      TextLines(buf + Concat(chunks)) == Strings.NonEmpty([line]) + TextLines(rest + Concat(later))
  {
    if !Polls(buf, chunks) || chunks[0] == [] {
      var later := if Polls(buf, chunks) then chunks[1..] else chunks;
      assert Concat(chunks) == Concat(later);
      assert ReadCall(buf, []) == TakeLine(buf);
      TakeLineThenFrame(buf, Concat(later));
    } else {
      assert Concat(chunks) == chunks[0] + Concat(chunks[1..]);
      PolledReadFrames(buf, chunks[0], Concat(chunks[1..]));
    }
  }

  /** However the bytes are split into reads, the non-empty lines `ReadLine`
      returns are the non-empty lines of all the bytes taken at once. The
      empty texts differ: a read that completes no line returns "", and a
      buffered empty line is dropped when a read follows it. */
  lemma {:induction false} ReadsAreFramedLines(buf: seq<byte>, chunks: seq<seq<byte>>)
    ensures Strings.NonEmpty(Reads(buf, chunks)) == TextLines(buf + Concat(chunks))
    decreases |chunks|, |buf|
  {
    if chunks == [] && NoCrLf(buf) {
      assert buf + Concat(chunks) == buf;
      assert FindCrLf(buf, 0) == None;
    } else {
      var received := if Polls(buf, chunks) then chunks[0] else [];
      var later := if Polls(buf, chunks) then chunks[1..] else chunks;
      var (line, rest) := ReadCall(buf, received);
      ReadsAreFramedLines(rest, later);
      Strings.NonEmptyAppend([line], Reads(rest, later));
      ReadCallFrames(buf, chunks);
    }
  }

  /** One read of "AB" and one of "C" CR LF return "" and then "ABC"; the
      same bytes in one read return "ABC" alone. */
  lemma ReadSplitAddsEmptyText()
    ensures Reads([], [[65, 66], [67, 13, 10]]) == ["", "ABC"]
    ensures Reads([], [[65, 66, 67, 13, 10]]) == ["ABC"]
  {
    var ab: seq<byte> := [65, 66];
    var c: seq<byte> := [67, 13, 10];
    var abc: seq<byte> := [65, 66, 67, 13, 10];
    assert FindCrLf([], 0) == None;
    assert TakeLine([]) == ("", []);
    assert Reads([], []) == [];
    assert FindCrLf(abc, 0) == Some(3);
    assert AsciiText(abc[..3]) == "ABC";
    assert TakeLine(abc) == ("ABC", []) by { assert abc[5..] == []; }
    assert ReadCall([], abc) == ("ABC", []) by { assert [] + abc == abc; }
    assert Reads([], [abc]) == ["ABC"] by { assert [abc][1..] == []; }
    assert FindCrLf(ab, 0) == None;
    assert TakeLine(ab) == ("", ab);
    assert ReadCall([], ab) == ("", ab) by { assert [] + ab == ab; }
    assert ReadCall(ab, c) == ("ABC", []) by { assert ab + c == abc; }
    assert Reads(ab, [c]) == ["ABC"] by { assert [c][1..] == []; }
    assert Reads([], [ab, c]) == ["", "ABC"] by { assert [ab, c][1..] == [c]; }
  }

  /** `ReadLine(byte[] buffer, int startPosition, int maxLength, out int
      totalBytesRead)`: scans `buffer[startPosition..maxLength)` for CR LF. */
  method ScanLine(buffer: array<byte>, startPosition: nat, maxLength: nat)
    returns (line: string, totalBytesRead: nat)
    requires maxLength <= buffer.Length
    ensures totalBytesRead == 0 ==>
      line == "" && forall j :: startPosition <= j ==> !CrLfAt(buffer[..maxLength], j)
    ensures totalBytesRead > 0 ==>
      startPosition + 2 <= totalBytesRead &&
      CrLfAt(buffer[..maxLength], totalBytesRead - 2) &&
      (forall j :: startPosition <= j < totalBytesRead - 2 ==> !CrLfAt(buffer[..maxLength], j)) &&
      line == AsciiText(buffer[..totalBytesRead - 2])
  {
    ghost var s := buffer[..maxLength];
    var i := startPosition;
    while i + 1 < maxLength
      invariant startPosition <= i
      invariant forall j :: startPosition <= j < i ==> !CrLfAt(s, j)
    {
      if buffer[i] == CR && buffer[i + 1] == LF {
        line := AsciiText(buffer[..i]);
        totalBytesRead := i + 2;
        return;
      }
      i := i + 1;
    }
    line, totalBytesRead := "", 0;
  }

  /** A new array of `capacity` bytes starting with `a[..n]`. */
  method CopyPrefix(a: array<byte>, n: nat, capacity: nat) returns (b: array<byte>)
    requires n <= a.Length && n <= capacity
    ensures fresh(b) && b.Length == capacity && b[..n] == a[..n]
  {
    b := new byte[capacity];
    var k := 0;
    while k < n
      invariant 0 <= k <= n
      invariant b[..k] == a[..k]
    {
      b[k] := a[k];
      k := k + 1;
    }
  }

  /** Writes `bytes` into `a` from offset `at` on. */
  method CopyInto(a: array<byte>, at: nat, bytes: seq<byte>)
    requires at + |bytes| <= a.Length
    modifies a
    ensures a[..at] == old(a[..at])
    ensures a[at..at + |bytes|] == bytes
    ensures a[..at + |bytes|] == old(a[..at]) + bytes
  {
    var k := 0;
    while k < |bytes|
      invariant 0 <= k <= |bytes|
      invariant a[..at] == old(a[..at])
      invariant a[at..at + k] == bytes[..k]
    {
      a[at + k] := bytes[k];
      k := k + 1;
    }
    assert a[..at + |bytes|] == a[..at] + a[at..at + |bytes|];
  }

  /** The back buffer of one connection: `buffer[..position]` are the bytes
      received and not yet returned as a line. */
  class BackBuffer {
    var buffer: array<byte>
    var position: nat

    ghost predicate Valid()
      reads this
    {
      position <= buffer.Length
    }

    function Contents(): seq<byte>
      reads this, buffer
      requires Valid()
    {
      buffer[..position]
    }

    /** `new MemoryStream()` */
    constructor ()
      ensures Valid() && Contents() == [] && fresh(buffer)
    {
      buffer := new byte[0];
      position := 0;
    }

    /** `Write(bytes, 0, bytes.Length)` at the current position, growing the
        underlying array as `MemoryStream` does. */
    method Write(bytes: seq<byte>)
      requires Valid()
      modifies this, buffer
      ensures Valid() && Contents() == old(Contents()) + bytes
      ensures buffer == old(buffer) || fresh(buffer)
    {
      if position + |bytes| > buffer.Length {
        var capacity := position + |bytes|;
        if capacity < 256 {
          capacity := 256;
        }
        if capacity < 2 * buffer.Length {
          capacity := 2 * buffer.Length;
        }
        buffer := CopyPrefix(buffer, position, capacity);
      }
      CopyInto(buffer, position, bytes);
      position := position + |bytes|;
    }

    /** `ProcessReadBackBuffer`: returns the first complete line and moves the
        bytes after its terminator to the front; returns "" and leaves the
        bytes alone when there is none. */
    method ProcessReadBackBuffer() returns (line: string)
      requires Valid()
      modifies this, buffer
      ensures Valid() && buffer == old(buffer)
      ensures (line, Contents()) == TakeLine(old(Contents()))
    {
      line := "";
      if position > 0 {
        var totalBytesRead;
        line, totalBytesRead := ScanLine(buffer, 0, position);
        if totalBytesRead > 0 {
          ghost var s := buffer[..position];
          assert FirstCrLfAt(s, totalBytesRead - 2);
          assert buffer[..totalBytesRead - 2] == s[..totalBytesRead - 2];
          var remaining := buffer[totalBytesRead..position];
          var k := 0;
          while k < |remaining|
            modifies buffer
            invariant 0 <= k <= |remaining|
            invariant buffer[..k] == remaining[..k]
          {
            buffer[k] := remaining[k];
            k := k + 1;
          }
          position := |remaining|;
          assert Contents() == remaining;
        } else {
          assert NoCrLf(Contents());
        }
      }
    }

    /** `ReadLine(socket, backBuffer)`: a line already buffered is returned
        without reading the socket. Otherwise `received` is what the one
        socket read delivers (empty when it yields nothing or fails); it is
        appended and one extraction is tried. */
    method ReadLine(received: seq<byte>) returns (line: string)
      requires Valid()
      modifies this, buffer
      ensures Valid() && (buffer == old(buffer) || fresh(buffer))
      ensures var (first, rest) := TakeLine(old(Contents()));
        if first != "" then line == first && Contents() == rest
        else if received == [] then line == "" && Contents() == rest
        else (line, Contents()) == TakeLine(rest + received)
      ensures (line, Contents()) == ReadCall(old(Contents()), received)
    {
      line := ProcessReadBackBuffer();
      if line != "" {
        return;
      }
      if |received| > 0 {
        Write(received);
        line := ProcessReadBackBuffer();
        return;
      }
      line := "";
    }
  }
}
