/** What both servers' `clientCommunication` loops share: how a received chunk becomes the
    tokens of a request, how the first token is matched against the command names, and the
    test that closes the `do ... while` loop. */
module Session {
  import opened CText
  import opened Spool
  import opened MailSpec

  /** `enum command`; `NoCommand` is the `none` a request keeps when no name matches. */
  datatype Command = NoCommand | SendMessage | ListMessages | ReadMessage | DeleteMessage | QuitSession

  /** The `strcmp` chain on the first token: an exact, case-sensitive match. */
  function Keyword(token: string): (c: Command)
    ensures c == SendMessage <==> token == "SEND"
    ensures c == ListMessages <==> token == "LIST"
    ensures c == ReadMessage <==> token == "READ"
    ensures c == DeleteMessage <==> token == "DEL"
    ensures c == QuitSession <==> token == "quit"
  {
    if token == "SEND" then SendMessage
    else if token == "LIST" then ListMessages
    else if token == "READ" then ReadMessage
    else if token == "DEL" then DeleteMessage
    else if token == "quit" then QuitSession
    else NoCommand
  }

  /** The request a chunk carries: the line ending is stripped, the text ends at the first
      NUL, and `strtok` splits it on "\n". */
  function Request(chunk: seq<char>): (ts: seq<string>)
    ensures forall i :: 0 <= i < |ts| ==> IsLine(ts[i])
  {
    Tokens(CString(Strip(chunk)))
  }

  /** Everything one connection did: the spool at the end, the replies sent, in order, whether
      the process died on a request, and whether a request left the spool layout this model
      follows. */
  datatype Trace = Trace(disk: Disk, replies: seq<string>, crashed: bool, stray: bool)

  /** The requests of one connection, answered in order by `respond` until one of them ends the
      process or strays. */
  function Replay(respond: (Disk, seq<char>) -> Step, disk: Disk, chunks: seq<seq<char>>): Trace
    decreases |chunks|
  {
    if chunks == [] then Trace(disk, [], false, false)
    else
      var s := respond(disk, chunks[0]);
      match s.outcome
      case Crash => Trace(s.disk, [], true, false)
      case Stray => Trace(s.disk, [], false, true)
      case Reply(text) =>
        var rest := Replay(respond, s.disk, chunks[1..]);
        Trace(rest.disk, [text] + rest.replies, rest.crashed, rest.stray)
  }

  /** A request that is answered adds its reply in front of what the rest of the connection
      does. */
  lemma ReplayReply(respond: (Disk, seq<char>) -> Step, disk: Disk, chunk: seq<char>, more: seq<seq<char>>)
    ensures var s := respond(disk, chunk);
      var rest := Replay(respond, s.disk, more);
      s.outcome.Reply? ==> Replay(respond, disk, [chunk] + more) == Trace(rest.disk, [s.outcome.text] + rest.replies, rest.crashed, rest.stray)
  {
    assert ([chunk] + more)[1..] == more;
  }

  /** Every request before a crash or a stray is answered, one reply each, and a connection
      ends in at most one of the two. */
  lemma {:induction false} ReplayLength(respond: (Disk, seq<char>) -> Step, disk: Disk, chunks: seq<seq<char>>)
    ensures var t := Replay(respond, disk, chunks);
      |t.replies| <= |chunks| && !(t.crashed && t.stray) &&
      (!t.crashed && !t.stray ==> |t.replies| == |chunks|)
    decreases |chunks|
  {
    if chunks != [] {
      var s := respond(disk, chunks[0]);
      if s.outcome.Reply? {
        ReplayLength(respond, s.disk, chunks[1..]);
      }
    }
  }

  /** The chunks so far were all answered: request j took the spool from `disks[j]` to
      `disks[j + 1]` and was answered with `replies[j]`. */
  ghost predicate Served(respond: (Disk, seq<char>) -> Step, chunks: seq<seq<char>>, disks: seq<Disk>, replies: seq<string>) {
    |disks| == |chunks| + 1 && |replies| == |chunks| &&
    forall j :: 0 <= j < |chunks| ==> respond(disks[j], chunks[j]) == Step(disks[j + 1], Reply(replies[j]))
  }

  /** Requests answered one by one make up the start of the connection's trace. */
  lemma {:induction false} ServedReplay(respond: (Disk, seq<char>) -> Step, chunks: seq<seq<char>>, i: nat,
                                        disks: seq<Disk>, replies: seq<string>)
    requires i <= |chunks| && Served(respond, chunks[..i], disks, replies)
    ensures var rest := Replay(respond, disks[i], chunks[i..]);
      Replay(respond, disks[0], chunks) == Trace(rest.disk, replies + rest.replies, rest.crashed, rest.stray)
    decreases i
  {
    if i > 0 {
      assert chunks[..i - 1] == chunks[..i][..i - 1];
      ServedReplay(respond, chunks, i - 1, disks[..i], replies[..i - 1]);
      assert respond(disks[i - 1], chunks[i - 1]) == Step(disks[i], Reply(replies[i - 1]));
      assert chunks[i - 1..][1..] == chunks[i..];
      assert replies[..i - 1] + [replies[i - 1]] == replies;
    } else {
      assert chunks[i..] == chunks;
    }
  }

  /** A request that crashes or strays ends the rest of the connection. */
  lemma ReplayCrash(respond: (Disk, seq<char>) -> Step, disk: Disk, chunks: seq<seq<char>>, i: nat, next: Disk, end: Outcome)
    requires i < |chunks| && !end.Reply? && respond(disk, chunks[i]) == Step(next, end)
    ensures Replay(respond, disk, chunks[i..]) == Trace(next, [], end == Crash, end == Stray)
  {
  }

  /** Answering one more request extends what was served. */
  lemma ServedMore(respond: (Disk, seq<char>) -> Step, chunks: seq<seq<char>>, i: nat, disks: seq<Disk>, replies: seq<string>,
                   next: Disk, text: string)
    requires i < |chunks| && Served(respond, chunks[..i], disks, replies)
    requires respond(disks[i], chunks[i]) == Step(next, Reply(text))
    ensures Served(respond, chunks[..i + 1], disks + [next], replies + [text])
  {
    var c := chunks[..i + 1];
    forall j | 0 <= j < |c| ensures respond((disks + [next])[j], c[j]) == Step((disks + [next])[j + 1], Reply((replies + [text])[j])) {
      if j < i {
        assert c[j] == chunks[..i][j];
      }
    }
  }

  function LeadingNewlines(s: seq<char>): (k: nat)
    ensures k <= |s| && forall i :: 0 <= i < k ==> s[i] == '\n'
    ensures k < |s| ==> s[k] != '\n'
  {
    if s != [] && s[0] == '\n' then 1 + LeadingNewlines(s[1..]) else 0
  }

  /** What `buffer` holds as a C string when the loop test runs: the first `strtok` call has
      put a NUL after the first token, so only the newlines before it and the token are left. */
  function LoopBuffer(chunk: seq<char>): string {
    var s := CString(Strip(chunk));
    var k := LeadingNewlines(s);
    s[..k] + Run(s[k..])
  }

  /** The loop test `strcmp(buffer, "quit\n.") != 0` always holds: a buffer made of newlines
      followed by a newline-free token is never "quit\n.". The session therefore only ends
      when `recv` reports a closed or broken connection. */
  lemma QuitNeverMatches(chunk: seq<char>)
    ensures LoopBuffer(chunk) != "quit\n."
  {
    var s := CString(Strip(chunk));
    if LeadingNewlines(s) == 0 {
      assert s[..0] + Run(s[0..]) == Run(s);
      assert '\n' !in LoopBuffer(chunk);
    } else {
      assert LoopBuffer(chunk)[0] == '\n';
    }
  }

  /** A client sends its frame, a NUL and whatever is left in its buffer; the server reads the
      frame back, whatever that rest is. */
  lemma ServerSeesFrame(frame: seq<char>, rest: seq<char>)
    requires NUL !in frame
    ensures CString(Strip(frame + [NUL] + rest)) == frame
  {
    var chunk := frame + [NUL] + rest;
    var t := Strip(chunk);
    assert chunk[|frame|] == NUL;
    assert t[..|frame| + 1] == frame + [NUL];
    CStringPrefix(frame, t);
  }

  lemma {:induction false} CStringPrefix(frame: seq<char>, s: seq<char>)
    requires NUL !in frame && |frame| < |s| && s[..|frame| + 1] == frame + [NUL]
    ensures CString(s) == frame
  {
    if frame != [] {
      assert s[0] == frame[0];
      assert frame[0] in frame;
      assert s[1..][..|frame[1..]| + 1] == frame[1..] + [NUL];
      assert forall c :: c in frame[1..] ==> c in frame;
      CStringPrefix(frame[1..], s[1..]);
      assert [s[0]] + frame[1..] == frame;
    }
  }

  /** A frame joined from lines reaches the server as exactly those lines. */
  lemma RequestOfLines(lines: seq<string>, rest: seq<char>)
    requires forall i :: 0 <= i < |lines| ==> IsLine(lines[i]) && NUL !in lines[i]
    ensures Request(Join(lines) + [NUL] + rest) == lines
  {
    NoNulInJoin(lines);
    ServerSeesFrame(Join(lines), rest);
    TokensOfJoin(lines);
  }

  lemma {:induction false} NoNulInJoin(lines: seq<string>)
    requires forall i :: 0 <= i < |lines| ==> NUL !in lines[i]
    ensures NUL !in Join(lines)
  {
    if |lines| > 1 {
      NoNulInJoin(lines[1..]);
      assert Join(lines) == lines[0] + "\n" + Join(lines[1..]);
    } else if |lines| == 1 {
      assert NUL !in lines[0];
    }
  }
}
