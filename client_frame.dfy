/** The request side of both TWMailer clients: the `for` loop that reads keystrokes into the
    1024-byte `buffer` until a line ends in ".", the `isQuit` test, and the `do ... while` loop
    that sends each frame and prints the reply. The two clients share this code verbatim. */
module ClientFrame {
  import opened CText
  import opened Session

  /** `messageSize`: characters read per frame, and bytes handed to every `send` and `recv`. */
  const MSG: nat := BUF - 1

  /** What `fgetc` leaves in a `char` once the input is exhausted: EOF (-1) narrowed to a byte. */
  const EOF: char := '\U{FF}'

  /** The i-th character `fgetc` returns: the input, then EOF for ever. */
  function Key(input: seq<char>, i: nat): (c: char)
    ensures c == EOF || (i < |input| && c == input[i])
  {
    if i < |input| then input[i] else EOF
  }

  /** The frame is finished at position i when a newline read there follows a "." read just
      before it in the same frame; a newline at position 0 never finishes it. */
  predicate EndsAt(input: seq<char>, i: nat) {
    0 < i && Key(input, i) == '\n' && Key(input, i - 1) == '.'
  }

  /** The first position from i on where the frame ends, or `MSG` when none comes before the
      buffer is full. */
  function FirstEnd(input: seq<char>, i: nat): (e: nat)
    requires i <= MSG
    ensures i <= e <= MSG
    ensures e < MSG ==> EndsAt(input, e)
    ensures forall j :: i <= j < e ==> !EndsAt(input, j)
    decreases MSG - i
  {
    if i == MSG then MSG else if EndsAt(input, i) then i else FirstEnd(input, i + 1)
  }

  /** The first n characters read. */
  function Keys(input: seq<char>, n: nat): seq<char> {
    seq(n, j requires 0 <= j => Key(input, j))
  }

  /** What the frame loop writes to the front of `buffer`: the characters before the end, with
      the ending newline replaced by NUL; a frame that fills the buffer gets no NUL. Its length is
      the number of characters consumed. */
  function Framed(input: seq<char>): seq<char> {
    var e := FirstEnd(input, 0);
    if e < MSG then Keys(input, e) + [NUL] else Keys(input, MSG)
  }

  /** The input left for the next read. */
  function Remaining(input: seq<char>): seq<char> {
    var n := |Framed(input)|;
    if n <= |input| then input[n..] else []
  }

  /** The frame `for` loop, on the client's buffer. */
  method AssembleFrame(buffer: array<char>, input: seq<char>) returns (used: nat)
    requires buffer.Length == BUF
    modifies buffer
    ensures used == |Framed(input)|
    ensures buffer[..] == Framed(input) + old(buffer[..])[used..]
  {
    var i := 0;
    while i < MSG
      invariant 0 <= i <= MSG
      invariant forall j :: 0 <= j < i ==> buffer[j] == Key(input, j) && !EndsAt(input, j)
      invariant forall j :: i <= j < BUF ==> buffer[j] == old(buffer[j])
    {
      buffer[i] := Key(input, i);
      // a newline was read, so the input was not at its end
      if buffer[i] == '\n' && i < |input| {
        if i > 0 {
          if buffer[i - 1] == '.' {
            assert EndsAt(input, i);
            FirstEndIs(input, i);
            buffer[i] := NUL;
            Overwritten(buffer[..], old(buffer[..]), Framed(input));
            return i + 1;
          }
        }
      }
      i := i + 1;
    }
    FirstEndIs(input, MSG);
    Overwritten(buffer[..], old(buffer[..]), Framed(input));
    used := MSG;
  }

  /** A buffer whose front was overwritten with `front` and whose rest was left alone. */
  lemma Overwritten(b: seq<char>, before: seq<char>, front: seq<char>)
    requires |b| == |before| && |front| <= |b|
    requires forall j :: 0 <= j < |front| ==> b[j] == front[j]
    requires forall j :: |front| <= j < |b| ==> b[j] == before[j]
    ensures b == front + before[|front|..]
  {
  }

  /** `isQuit`: the buffer, read as a C string, is exactly "quit\n.". */
  predicate IsQuit(buffer: seq<char>) {
    CString(buffer) == "quit\n."
  }

  // ---------------------------------------------------------------------------------------------
  // The frame, input by input

  /** `FirstEnd` is pinned down by its contract: an end with no end before it is the first. */
  lemma FirstEndIs(input: seq<char>, e: nat)
    requires e <= MSG && (e < MSG ==> EndsAt(input, e))
    requires forall j :: 0 <= j < e ==> !EndsAt(input, j)
    ensures FirstEnd(input, 0) == e
  {
  }

  /** At most `MSG` characters are consumed, and the frame ends at the first "." followed by a
      newline: the frame is NUL-terminated exactly when such a pair occurs in time. */
  lemma FrameBound(input: seq<char>)
    ensures 0 < |Framed(input)| <= MSG
    ensures (exists k :: 0 < k < MSG && EndsAt(input, k)) <==> FirstEnd(input, 0) < MSG
  {
    var e := FirstEnd(input, 0);
    if e < MSG {
      assert EndsAt(input, e);
    }
  }

  /** Any "." followed by a newline ends the frame, also when the "." closes a longer line: the
      frame then stops at that newline or earlier. */
  lemma DotNewlineEnds(input: seq<char>, k: nat)
    requires 0 < k < MSG && Key(input, k - 1) == '.' && Key(input, k) == '\n'
    ensures |Framed(input)| <= k + 1
    ensures Framed(input)[|Framed(input)| - 1] == NUL
  {
    assert EndsAt(input, k);
  }

  /** A newline typed first does not end the frame, even right after a previous frame's ".". */
  lemma LeadingNewlineKept(input: seq<char>)
    requires input != [] && input[0] == '\n'
    ensures |Framed(input)| >= 2 && Framed(input)[0] == '\n'
  {
    assert !EndsAt(input, 0);
  }

  /** Text with no "." followed by a newline cannot end a frame early. */
  predicate NoEarlyEnd(text: seq<char>) {
    forall k :: 0 < k < |text| ==> !(text[k - 1] == '.' && text[k] == '\n')
  }

  /** Text typed up to a line that ends in "." becomes the frame, NUL in place of the final
      newline, when it fits the buffer. */
  lemma FrameOfText(text: seq<char>, more: seq<char>)
    requires 0 < |text| < MSG && text[|text| - 1] == '.' && NoEarlyEnd(text)
    ensures Framed(text + "\n" + more) == text + [NUL]
    ensures Remaining(text + "\n" + more) == more
  {
    var input := text + "\n" + more;
    forall j | 0 <= j < |text|
      ensures !EndsAt(input, j)
    {
      if 0 < j {
        assert Key(input, j) == text[j] && Key(input, j - 1) == text[j - 1];
      }
    }
    assert EndsAt(input, |text|);
    FirstEndIs(input, |text|);
    assert Keys(input, |text|) == text;
    assert input[|text| + 1..] == more;
  }

  /** Lines of which only the last ends in "." (no line is empty or holds a newline) join into
      text with no early end. */
  lemma {:induction false} NoEarlyEndOfLines(lines: seq<string>)
    requires forall i :: 0 <= i < |lines| ==> IsLine(lines[i])
    requires forall i :: 0 <= i < |lines| - 1 ==> !EndsWith(lines[i], ".")
    ensures NoEarlyEnd(Join(lines))
  {
    if |lines| > 1 {
      var a, rest := lines[0], Join(lines[1..]);
      NoEarlyEndOfLines(lines[1..]);
      var t := Join(lines);
      assert t == a + "\n" + rest;
      assert rest != [] && rest[0] == lines[1][0] by {
        JoinStartsWithLine(lines[1..]);
      }
      forall k | 0 < k < |t|
        ensures !(t[k - 1] == '.' && t[k] == '\n')
      {
        if k < |a| {
          assert t[k] == a[k];
        } else if k == |a| {
          assert t[k - 1] == a[|a| - 1];
        } else if k == |a| + 1 {
          assert t[k] == rest[0] == lines[1][0];
          assert lines[1][0] in lines[1];
        } else {
          assert t[k - 1] == rest[k - 1 - |a| - 1] && t[k] == rest[k - |a| - 1];
        }
      }
    }
  }

  lemma {:induction false} JoinStartsWithLine(lines: seq<string>)
    requires lines != [] && lines[0] != []
    ensures Join(lines) != [] && Join(lines)[0] == lines[0][0]
  {
  }

  /** A request typed line by line, ending with the "." line, reaches the server as exactly
      those lines: after `send`, the server's strip and `strtok` give them back. */
  lemma TypedRequest(lines: seq<string>, more: seq<char>, stale: seq<char>)
    requires forall i :: 0 <= i < |lines| ==> IsLine(lines[i]) && NUL !in lines[i]
    requires |lines| >= 1 && lines[|lines| - 1] == "."
    requires forall i :: 0 <= i < |lines| - 1 ==> !EndsWith(lines[i], ".")
    requires |Join(lines)| < MSG
    ensures Framed(Join(lines) + "\n" + more) == Join(lines) + [NUL]
    ensures Request(Framed(Join(lines) + "\n" + more) + stale) == lines
  {
    NoEarlyEndOfLines(lines);
    JoinEndsWithLine(lines);
    FrameOfText(Join(lines), more);
    RequestOfLines(lines, stale);
  }

  lemma {:induction false} JoinEndsWithLine(lines: seq<string>)
    requires lines != [] && lines[|lines| - 1] != []
    ensures var t := Join(lines); var last := lines[|lines| - 1];
      t != [] && t[|t| - 1] == last[|last| - 1]
  {
    if |lines| > 1 {
      JoinEndsWithLine(lines[1..]);
    }
  }

  /** The frame that ends a session: typing "quit", then ".", sets `isQuit`, whatever is left
      of the buffer after the NUL. */
  lemma QuitTyped(more: seq<char>, stale: seq<char>)
    ensures Framed("quit\n.\n" + more) == "quit\n." + [NUL]
    ensures IsQuit(Framed("quit\n.\n" + more) + stale)
  {
    var text := "quit\n.";
    assert "quit\n.\n" + more == text + "\n" + more;
    FrameOfText(text, more);
    var s := text + [NUL] + stale;
    assert s[..|text| + 1] == text + [NUL];
    CStringPrefix(text, s);
  }

  /** A NUL-terminated frame with no NUL typed into it sets `isQuit` exactly when its text is
      "quit\n.". */
  lemma QuitIff(input: seq<char>, stale: seq<char>)
    requires FirstEnd(input, 0) < MSG && NUL !in Keys(input, FirstEnd(input, 0))
    ensures IsQuit(Framed(input) + stale) <==> Keys(input, FirstEnd(input, 0)) == "quit\n."
  {
    var text := Keys(input, FirstEnd(input, 0));
    var s := Framed(input) + stale;
    assert s[..|text| + 1] == text + [NUL];
    CStringPrefix(text, s);
  }

  // ---------------------------------------------------------------------------------------------
  // The request loop

  /** What the network does with one round of the loop: `send` fails, `recv` reports an error
      or a closed connection, or `recv` delivers between 1 and `MSG` bytes. */
  datatype Answer = SendFailed | Lost | Received(bytes: Packet)

  /** What one successful `recv(..., messageSize, 0)` can deliver. */
  type Packet = s: seq<char> | 0 < |s| <= MSG witness "x"

  /** What a client session shows of itself: the chunks sent, the replies printed, and whether
      it stopped because of the "quit" frame. */
  datatype Talk = Talk(sent: seq<seq<char>>, shown: seq<string>, quit: bool)

  /** The buffer once a frame has been read into it. */
  function AfterFrame(buffer: seq<char>, input: seq<char>): (b: seq<char>)
    requires |buffer| == BUF
    ensures |b| == BUF
  {
    FrameBound(input);
    Framed(input) + buffer[|Framed(input)|..]
  }

  /** The buffer once `recv` has put a reply in front and a NUL after it. */
  function AfterReply(buffer: seq<char>, bytes: seq<char>): (b: seq<char>)
    requires |buffer| == BUF && |bytes| <= MSG
    ensures |b| == BUF
  {
    bytes + [NUL] + buffer[|bytes| + 1..]
  }

  /** The request loop as a function of the buffer, the keystrokes and the network's answers,
      one answer per round; the session ends with the answers. Every round sends the first
      `MSG` bytes of the buffer, and a reply overwrites the buffer's front. */
  function Converse(buffer: seq<char>, input: seq<char>, answers: seq<Answer>): Talk
    requires |buffer| == BUF
    decreases |answers|
  {
    if answers == [] then Talk([], [], false)
    else
      var framed := AfterFrame(buffer, input);
      match answers[0]
      case SendFailed => Talk([], [], false)
      case Lost => Talk([framed[..MSG]], [], false)
      case Received(bytes) =>
        if IsQuit(framed) then Talk([framed[..MSG]], [CString(bytes)], true)
        else
          var r := Converse(AfterReply(framed, bytes), Remaining(input), answers[1..]);
          Talk([framed[..MSG]] + r.sent, [CString(bytes)] + r.shown, r.quit)
  }

  /** The `do ... while (!isQuit)` loop of either client's `main`. */
  method RequestLoop(buffer: array<char>, input: seq<char>, answers: seq<Answer>) returns (talk: Talk)
    requires buffer.Length == BUF
    modifies buffer
    ensures talk == Converse(old(buffer[..]), input, answers)
  {
    ghost var whole := Converse(buffer[..], input, answers);
    var sent: seq<seq<char>> := [];
    var shown: seq<string> := [];
    var rest := input;
    var i := 0;
    ghost var pending := answers;
    while i < |answers|
      invariant 0 <= i <= |answers| && pending == answers[i..]
      invariant whole == Glue(sent, shown, Converse(buffer[..], rest, pending))
      decreases |answers| - i
    {
      ghost var before := buffer[..];
      var answer := answers[i];
      assert pending[0] == answer;
      var chunk, isQuit := Round(buffer, rest, answer);
      if answer.SendFailed? {
        ConverseStep(before, rest, pending);
        GlueNothing(sent, shown);
        return Talk(sent, shown, false);
      } else if answer.Lost? {
        ConverseStep(before, rest, pending);
        return Glue(sent, shown, Talk([chunk], [], false));
      } else if isQuit {
        ConverseStep(before, rest, pending);
        return Glue(sent, shown, Talk([chunk], [CString(answer.bytes)], true));
      }
      ConverseStep(before, rest, pending);
      GlueGlue(sent, shown, [chunk], [CString(answer.bytes)], Converse(buffer[..], Remaining(rest), pending[1..]));
      sent := sent + [chunk];
      shown := shown + [CString(answer.bytes)];
      rest := Remaining(rest);
      i := i + 1;
      pending := pending[1..];
    }
    GlueNothing(sent, shown);
    return Talk(sent, shown, false);
  }

  /** One pass of the loop body: read a frame, test it for "quit", and, when the network lets
      it, send it and take the reply into the buffer. */
  method Round(buffer: array<char>, rest: seq<char>, answer: Answer) returns (chunk: seq<char>, isQuit: bool)
    requires buffer.Length == BUF
    modifies buffer
    ensures var framed := AfterFrame(old(buffer[..]), rest);
      chunk == framed[..MSG] && (isQuit <==> IsQuit(framed)) &&
      buffer[..] == if answer.Received? then AfterReply(framed, answer.bytes) else framed
  {
    ghost var before := buffer[..];
    var used := AssembleFrame(buffer, rest);
    assert buffer[..] == AfterFrame(before, rest);
    isQuit := CString(buffer[..]) == "quit\n.";
    chunk := buffer[..MSG];
    if answer.Received? {
      Receive(buffer, answer.bytes);
    }
  }

  /** One round of `Converse`, case by case. */
  lemma ConverseStep(buffer: seq<char>, input: seq<char>, answers: seq<Answer>)
    requires |buffer| == BUF && answers != []
    ensures answers[0].SendFailed? ==> Converse(buffer, input, answers) == Talk([], [], false)
    ensures var framed := AfterFrame(buffer, input);
      answers[0].Lost? ==> Converse(buffer, input, answers) == Talk([framed[..MSG]], [], false)
    ensures var framed := AfterFrame(buffer, input);
      answers[0].Received? && IsQuit(framed) ==>
        Converse(buffer, input, answers) == Talk([framed[..MSG]], [CString(answers[0].bytes)], true)
    ensures var framed := AfterFrame(buffer, input);
      answers[0].Received? && !IsQuit(framed) ==>
        Converse(buffer, input, answers) ==
          Glue([framed[..MSG]], [CString(answers[0].bytes)],
            Converse(AfterReply(framed, answers[0].bytes), Remaining(input), answers[1..]))
  {
  }

  /** The talk of the rounds still to come, after what was already sent and shown. */
  function Glue(sent: seq<seq<char>>, shown: seq<string>, r: Talk): Talk {
    Talk(sent + r.sent, shown + r.shown, r.quit)
  }

  lemma GlueGlue(sent: seq<seq<char>>, shown: seq<string>, sent2: seq<seq<char>>, shown2: seq<string>, r: Talk)
    ensures Glue(sent, shown, Glue(sent2, shown2, r)) == Glue(sent + sent2, shown + shown2, r)
  {
    assert sent + (sent2 + r.sent) == sent + sent2 + r.sent;
    assert shown + (shown2 + r.shown) == shown + shown2 + r.shown;
  }

  lemma GlueNothing(sent: seq<seq<char>>, shown: seq<string>)
    ensures Glue(sent, shown, Talk([], [], false)) == Talk(sent, shown, false)
  {
    assert sent + [] == sent && shown + [] == shown;
  }

  /** `recv` into the buffer followed by `buffer[size] = '\0'`. */
  method Receive(buffer: array<char>, bytes: seq<char>)
    requires buffer.Length == BUF && 0 < |bytes| <= MSG
    modifies buffer
    ensures buffer[..] == bytes + [NUL] + old(buffer[..])[|bytes| + 1..]
  {
    var k := 0;
    while k < |bytes|
      invariant 0 <= k <= |bytes|
      invariant forall j :: 0 <= j < k ==> buffer[j] == bytes[j]
      invariant forall j :: k <= j < BUF ==> buffer[j] == old(buffer[j])
    {
      buffer[k] := bytes[k];
      k := k + 1;
    }
    buffer[|bytes|] := NUL;
    Overwritten(buffer[..], old(buffer[..]), bytes + [NUL]);
  }

  // ---------------------------------------------------------------------------------------------
  // What a session sends

  /** Every round sends exactly `MSG` bytes, at most one frame per answer, and every printed reply
      follows a frame that was sent. */
  lemma {:induction false} ConverseShape(buffer: seq<char>, input: seq<char>, answers: seq<Answer>)
    requires |buffer| == BUF
    ensures var t := Converse(buffer, input, answers);
      |t.shown| <= |t.sent| <= |answers| && forall i :: 0 <= i < |t.sent| ==> |t.sent[i]| == MSG
    decreases |answers|
  {
    if answers != [] && answers[0].Received? {
      var framed := AfterFrame(buffer, input);
      ConverseShape(AfterReply(framed, answers[0].bytes), Remaining(input), answers[1..]);
    }
  }

  /** The loop ends with the reply to the "quit" frame: typing "quit" and "." sends one frame,
      prints its reply and stops, whatever answers would have followed. */
  lemma QuitEndsSession(buffer: seq<char>, more: seq<char>, bytes: Packet, answers: seq<Answer>)
    requires |buffer| == BUF
    ensures var t := Converse(buffer, "quit\n.\n" + more, [Received(bytes)] + answers);
      t.quit && |t.sent| == 1 && t.shown == [CString(bytes)]
  {
    QuitTyped(more, buffer[|Framed("quit\n.\n" + more)|..]);
  }

  /** A failed `send` ends the loop with nothing sent in that round. */
  lemma SendFailureEnds(buffer: seq<char>, input: seq<char>, answers: seq<Answer>)
    requires |buffer| == BUF
    ensures Converse(buffer, input, [SendFailed] + answers) == Talk([], [], false)
  {
  }
}
