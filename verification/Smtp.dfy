/** What the two relay servers share: the fixed reply texts and the clean-up
    applied to addresses taken from `MAIL FROM:`, `RCPT TO:` and `Reply-To:`. */
module Smtp {
  import opened Strings

  const Banner: string := "220 localhost -- Knightware proxy server"
  const OkReply: string := "250 OK"
  const StartData: string := "354 Start mail input; end with <CR><LF>.<CR><LF>"
  /** The line that ends a DATA block. */
  const DataEnd: string := "."

  /** The command words begin with five different letters, so a line starts
      with at most one of them. */
  lemma CommandInitials(msg: string)
    ensures StartsWith(msg, "QUIT") ==> msg[0] == 'Q'
    ensures StartsWith(msg, "quit") ==> msg[0] == 'q'
    ensures StartsWith(msg, "EHLO") ==> msg[0] == 'E'
    ensures StartsWith(msg, "RCPT TO:") ==> msg[0] == 'R'
    ensures StartsWith(msg, "MAIL FROM:") ==> msg[0] == 'M'
    ensures StartsWith(msg, "DATA") ==> msg[0] == 'D'
  {
  }

  /** Proof plumbing, modelling nothing: the replies of a scanner's
      conversation, appended one at a time (the banner, three `250 OK`s,
      and the `354` and `250 OK` of DATA), as literal identities. They are
      kept apart from the scenario lemmas because proving them next to
      `Run` terms exceeds the solver's resource limit. */
  lemma ScannerReplies()
    ensures [Banner] + [OkReply] + [OkReply] + [OkReply] == [Banner, OkReply, OkReply, OkReply]
    ensures [Banner, OkReply, OkReply, OkReply] + [StartData, OkReply] ==
      [Banner, OkReply, OkReply, OkReply, StartData, OkReply]
  {
  }

  /** The only replies the servers send. */
  predicate FixedReplies(replies: seq<string>) {
    forall r :: r in replies ==> r == Banner || r == OkReply || r == StartData
  }

  /** How a session ended: closed on a line from the client, or the lines
      ran out. */
  datatype Ending = Quit | Disconnect

  /** `CleanEmailString(line, prefix)`: the text after the prefix with every
      `<`, `>` and space removed; `Substring` throws when the line is shorter
      than the prefix. */
  function CleanEmailString(line: string, prefix: string): (r: string)
    requires |prefix| <= |line|
    ensures forall c :: c in r <==> c in line[|prefix|..] && c != '<' && c != '>' && c != ' '
    ensures |r| <= |line| - |prefix|
  {
    Remove(Remove(Remove(line[|prefix|..], '<'), '>'), ' ')
  }

  /** The same text written as the chain of `Replace` calls the servers make. */
  lemma CleanEmailStringIsReplace(line: string, prefix: string)
    requires |prefix| <= |line|
    ensures CleanEmailString(line, prefix) ==
      Replace(Replace(Replace(line[|prefix|..], "<", ""), ">", ""), " ", "")
  {
    var s := line[|prefix|..];
    RemoveIsReplace(s, '<');
    RemoveIsReplace(Remove(s, '<'), '>');
    RemoveIsReplace(Remove(Remove(s, '<'), '>'), ' ');
  }

  /** An address that is already clean comes through unchanged. */
  lemma CleanEmailStringKeepsCleanAddress(line: string, prefix: string)
    requires |prefix| <= |line|
    requires forall c :: c in line[|prefix|..] ==> c != '<' && c != '>' && c != ' '
    ensures CleanEmailString(line, prefix) == line[|prefix|..]
  {
    var s := line[|prefix|..];
    RemoveAbsent(s, '<');
    RemoveAbsent(s, '>');
    RemoveAbsent(s, ' ');
  }
}
