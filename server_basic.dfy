/** The TWMailer Basic `clientCommunication`: no login; every request names the user it acts
    for, and one request is answered per received chunk. */
module BasicServer {
  import opened CText
  import opened Spool
  import opened MailSpec
  import opened Store
  import opened Session

  /** What a basic request asks for once its tokens are read. `Malformed` is a request the
      process dies on: no tokens (`strcmp` on NULL), no second token (`strlen` on NULL when the
      name buffers are declared, whatever the command), or a command whose further arguments
      are missing (`strcpy` or `atoi` on NULL). */
  datatype BasicRequest =
    | Malformed
    | SendRequest(sender: string, receiver: string, subject: string, message: string)
    | ListRequest(user: string)
    | ReadRequest(user: string, number: int)
    | DeleteRequest(user: string, number: int)
    | QuitRequest
    | WrongRequest

  /** The first token names the command and the second is always read. SEND takes sender,
      receiver, subject and body from the next four lines; LIST, READ and DEL take the user
      from the second, and READ and DEL a number from the third. */
  function BasicParse(ts: seq<string>): (r: BasicRequest)
    ensures r.Malformed? <==>
      |ts| < 2 || (ts[0] == "SEND" && |ts| < 5) || ((ts[0] == "READ" || ts[0] == "DEL") && |ts| < 3)
    ensures r.SendRequest? <==> |ts| >= 5 && ts[0] == "SEND"
    ensures r.SendRequest? ==> r == SendRequest(ts[1], ts[2], ts[3], ts[4])
    ensures r.ListRequest? <==> |ts| >= 2 && ts[0] == "LIST"
    ensures r.ReadRequest? <==> |ts| >= 3 && ts[0] == "READ"
    ensures r.DeleteRequest? <==> |ts| >= 3 && ts[0] == "DEL"
    ensures (r.ListRequest? || r.ReadRequest? || r.DeleteRequest?) ==> r.user == ts[1]
    ensures (r.ReadRequest? || r.DeleteRequest?) ==> r.number == Atoi(ts[2])
    ensures r.QuitRequest? <==> |ts| >= 2 && ts[0] == "quit"
    ensures r.WrongRequest? <==> |ts| >= 2 && Keyword(ts[0]) == NoCommand
  {
    if |ts| < 2 then Malformed
    else match Keyword(ts[0])
      case SendMessage => if |ts| < 5 then Malformed else SendRequest(ts[1], ts[2], ts[3], ts[4])
      case ListMessages => ListRequest(ts[1])
      case ReadMessage => if |ts| < 3 then Malformed else ReadRequest(ts[1], Atoi(ts[2]))
      case DeleteMessage => if |ts| < 3 then Malformed else DeleteRequest(ts[1], Atoi(ts[2]))
      case QuitSession => QuitRequest
      case NoCommand => WrongRequest
  }

  /** A basic request carried out. SEND is a delivery from whatever sender the frame names; a
      listing or a message that does not fit the response buffer runs past its end and is
      taken as the end of the process. */
  function BasicExecute(disk: Disk, r: BasicRequest): Step {
    match r
    case Malformed => Step(disk, Crash)
    case SendRequest(sender, receiver, subject, message) => Deliver(disk, sender, receiver, subject, message)
    case ListRequest(user) => Step(disk, ListBasic(disk, user))
    case ReadRequest(user, n) => Step(disk, Read(disk, user, n, ""))
    case DeleteRequest(user, n) => Delete(disk, user, n)
    case QuitRequest => Step(disk, Reply("OK - goodbye\n"))
    case WrongRequest => Step(disk, Reply("ERR - wrong command"))
  }

  /** One basic request: the chunk is read as tokens, parsed and carried out. */
  function BasicStep(disk: Disk, chunk: seq<char>): Step {
    BasicExecute(disk, BasicParse(Request(chunk)))
  }

  /** How the request loop reads a chunk: the line ending is cut, `strtok` takes the command
      and the second token, then the `switch` takes the remaining arguments. */
  method ParseRequest(chunk: seq<char>) returns (request: BasicRequest)
    ensures request == BasicParse(Request(chunk))
  {
    var buffer := CString(Strip(chunk));
    var tokens := Tokens(buffer);
    if |tokens| < 2 {
      return Malformed;
    }
    if tokens[0] == "SEND" {
      if |tokens| < 5 {
        return Malformed;
      }
      request := SendRequest(tokens[1], tokens[2], tokens[3], tokens[4]);
    } else if tokens[0] == "LIST" {
      request := ListRequest(tokens[1]);
    } else if tokens[0] == "READ" {
      if |tokens| < 3 {
        return Malformed;
      }
      request := ReadRequest(tokens[1], Atoi(tokens[2]));
    } else if tokens[0] == "DEL" {
      if |tokens| < 3 {
        return Malformed;
      }
      request := DeleteRequest(tokens[1], Atoi(tokens[2]));
    } else if tokens[0] == "quit" {
      request := QuitRequest;
    } else {
      request := WrongRequest;
    }
  }

  /** The dispatch `switch` on the shared store: the response is taken as the reply and
      emptied for the next request. */
  method Execute(store: MailStore, request: BasicRequest) returns (outcome: Outcome)
    requires store.Valid() && store.response == ""
    modifies store
    ensures store.Valid()
    ensures BasicExecute(old(store.disk), request) == Step(store.disk, outcome)
    ensures outcome.Reply? ==> store.response == ""
  {
    match request {
      case Malformed =>
        return Crash;
      case SendRequest(sender, receiver, subject, message) =>
        var stray := store.Deliver(sender, receiver, subject, message);
        if stray {
          return Stray;
        }
      case ListRequest(user) =>
        var overflow, stray := store.ListMailBasic(user);
        if stray {
          return Stray;
        }
        if overflow {
          return Crash;
        }
      case ReadRequest(user, n) =>
        var overflow, stray := store.ReadMail(user, n);
        if stray {
          return Stray;
        }
        if overflow {
          return Crash;
        }
      case DeleteRequest(user, n) =>
        var crashed, stray := store.DeleteMail(user, n);
        if stray {
          return Stray;
        }
        if crashed {
          return Crash;
        }
      case QuitRequest =>
        store.response := "OK - goodbye\n";
      case WrongRequest =>
        store.response := "ERR - wrong command";
    }
    outcome := Reply(store.response);
    store.response := "";
  }

  /** One pass of the request loop. */
  method HandleChunk(store: MailStore, chunk: seq<char>) returns (outcome: Outcome)
    requires store.Valid() && store.response == ""
    modifies store
    ensures store.Valid()
    ensures BasicStep(old(store.disk), chunk) == Step(store.disk, outcome)
    ensures outcome.Reply? ==> store.response == ""
  {
    var request := ParseRequest(chunk);
    outcome := Execute(store, request);
  }

  /** The `do ... while` request loop over the chunks `recv` delivers until the connection
      closes; a request that crashes or strays ends it early. */
  method CommandLoop(store: MailStore, chunks: seq<seq<char>>) returns (replies: seq<string>, crashed: bool, stray: bool)
    requires store.Valid() && store.response == ""
    modifies store
    ensures store.Valid()
    ensures Replay(BasicStep, old(store.disk), chunks) == Trace(store.disk, replies, crashed, stray)
  {
    ghost var disks := [store.disk];
    replies := [];
    crashed, stray := false, false;
    var i := 0;
    while i < |chunks|
      invariant 0 <= i <= |chunks|
      invariant store.Valid() && store.response == ""
      invariant Served(BasicStep, chunks[..i], disks, replies)
      invariant disks[0] == old(store.disk) && disks[i] == store.disk
    {
      var outcome := HandleChunk(store, chunks[i]);
      if !outcome.Reply? {
        ServedReplay(BasicStep, chunks, i, disks, replies);
        ReplayCrash(BasicStep, disks[i], chunks, i, store.disk, outcome);
        return replies, outcome == Crash, outcome == Stray;
      }
      ServedMore(BasicStep, chunks, i, disks, replies, store.disk, outcome.text);
      disks := disks + [store.disk];
      replies := replies + [outcome.text];
      QuitNeverMatches(chunks[i]);
      if LoopBuffer(chunks[i]) == "quit\n." {
        break;
      }
      i := i + 1;
    }
    ServedReplay(BasicStep, chunks, i, disks, replies);
    assert chunks[i..] == [];
  }

  // ---------------------------------------------------------------------------------------------
  // What a request does

  /** Which requests end the process: fewer than two tokens, SEND without sender, receiver,
      subject and body, READ or DEL without a number, a listing or a message too long for the
      response buffer, and DEL when the inbox cannot be opened. */
  lemma BasicCrashes(disk: Disk, chunk: seq<char>)
    ensures var ts := Request(chunk);
      BasicStep(disk, chunk).outcome == Crash <==>
        |ts| < 2 || (ts[0] == "SEND" && |ts| < 5) || ((ts[0] == "READ" || ts[0] == "DEL") && |ts| < 3) ||
        (ts[0] == "LIST" && ListBasic(disk, ts[1]) == Crash) ||
        (ts[0] == "READ" && |ts| >= 3 && Read(disk, ts[1], Atoi(ts[2]), "") == Crash) ||
        (ts[0] == "DEL" && |ts| >= 3 && OpenInbox(disk, ts[1]).NotOpened?)
  {
    ExecuteCrashes(disk, BasicParse(Request(chunk)));
  }

  /** A parsed request ends the process exactly when it is malformed, a listing or a read that
      overflows, or a DEL whose inbox cannot be opened. */
  lemma ExecuteCrashes(disk: Disk, r: BasicRequest)
    ensures BasicExecute(disk, r).outcome == Crash <==>
      r.Malformed? || (r.ListRequest? && ListBasic(disk, r.user) == Crash) ||
      (r.ReadRequest? && Read(disk, r.user, r.number, "") == Crash) ||
      (r.DeleteRequest? && OpenInbox(disk, r.user).NotOpened?)
  {
    if r.DeleteRequest? {
      DeleteCrashes(disk, r.user, r.number);
    }
  }

  /** Even "quit" needs a second token: a bare "quit" ends the process instead of saying
      goodbye. */
  lemma BareQuitCrashes(disk: Disk, rest: seq<char>)
    ensures BasicStep(disk, Join(["quit"]) + [NUL] + rest) == Step(disk, Crash)
  {
    RequestOfLines(["quit"], rest);
  }

  /** Only SEND and DEL change the spool. */
  lemma BasicStepKeepsSpool(disk: Disk, chunk: seq<char>)
    requires var ts := Request(chunk); |ts| < 2 || (ts[0] != "SEND" && ts[0] != "DEL")
    ensures BasicStep(disk, chunk).disk == disk
  {
  }

  /** The lines a client frame is made of: none empty, none holding a newline or a NUL. */
  predicate FrameLines(lines: seq<string>) {
    forall i :: 0 <= i < |lines| ==> IsLine(lines[i]) && NUL !in lines[i]
  }

  /** A SEND frame is delivered from the sender its second line names, to the receiver of the
      third line, with no check of either: nothing ties the sender to the connection, and a
      receiver nobody has used before gets a new mail directory. */
  lemma SendFrame(disk: Disk, lines: seq<string>, rest: seq<char>)
    requires FrameLines(lines) && |lines| >= 5 && lines[0] == "SEND"
    ensures BasicStep(disk, Join(lines) + [NUL] + rest) == Deliver(disk, lines[1], lines[2], lines[3], lines[4])
  {
    RequestOfLines(lines, rest);
  }

  /** A READ frame reads the inbox of the user its second line names, at the number its third
      line spells. */
  lemma ReadFrame(disk: Disk, lines: seq<string>, rest: seq<char>, n: nat)
    requires FrameLines(lines) && |lines| >= 3 && lines[0] == "READ" && lines[2] == Decimal(n)
    ensures BasicStep(disk, Join(lines) + [NUL] + rest) == Step(disk, Read(disk, lines[1], n, ""))
  {
    RequestOfLines(lines, rest);
    AtoiOfDecimal(n);
  }

  /** A number line that does not start with a number is read as message 0, which names no
      message. */
  lemma ReadNonNumeric(disk: Disk, lines: seq<string>, rest: seq<char>)
    requires FrameLines(lines) && |lines| >= 3 && lines[0] == "READ"
    requires var t := SkipSpace(lines[2]); t == [] || !(IsDigit(t[0]) || t[0] == '+' || t[0] == '-')
    ensures BasicStep(disk, Join(lines) + [NUL] + rest) == Step(disk, Read(disk, lines[1], 0, ""))
  {
    RequestOfLines(lines, rest);
  }

  /** Anyone can send in anyone's name, and the message then reads back from the receiver's
      inbox signed with that name (or ends the process when it does not fit the response). */
  lemma SendThenRead(disk: Disk, send: seq<string>, read: seq<string>, rest1: seq<char>, rest2: seq<char>)
    requires FrameLines(send) && |send| >= 5 && send[0] == "SEND" && send[1] != send[2]
    requires IsPlainName(send[1]) && IsPlainName(send[2])
    requires FrameLines(read) && |read| >= 3 && read[0] == "READ" && read[1] == send[2]
    requires read[2] == Decimal(|Mail(disk, send[2], In)| + 1)
    requires forall m :: m in Mail(disk, send[2], In) ==> m.Name() != send[3]
    requires CanSave(disk, send[2], In, send[3]) && BoxPath(send[2], In) !in disk.refused
    ensures var sent := BasicStep(disk, Join(send) + [NUL] + rest1);
      BasicStep(sent.disk, Join(read) + [NUL] + rest2)
        == Step(sent.disk, Fits("OK\n" + Record(send[1], send[4])))
  {
    SendFrame(disk, send, rest1);
    ReadAfterDeliver(disk, send[1], send[2], send[3], send[4]);
    var sent := Deliver(disk, send[1], send[2], send[3], send[4]);
    ReadFrame(sent.disk, read, rest2, |Mail(disk, send[2], In)| + 1);
  }

  // ---------------------------------------------------------------------------------------------
  // A whole connection

  /** The client's "quit" frame is answered with a goodbye and changes nothing. */
  lemma QuitFrame(disk: Disk, rest: seq<char>)
    ensures BasicStep(disk, Join(["quit", "."]) + [NUL] + rest) == Step(disk, Reply("OK - goodbye\n"))
  {
    RequestOfLines(["quit", "."], rest);
  }

  /** After the goodbye the connection goes on as if the "quit" frame had not been sent. */
  lemma QuitContinues(disk: Disk, rest: seq<char>, more: seq<seq<char>>)
    ensures var t := Replay(BasicStep, disk, more);
      Replay(BasicStep, disk, [Join(["quit", "."]) + [NUL] + rest] + more)
        == Trace(t.disk, ["OK - goodbye\n"] + t.replies, t.crashed, t.stray)
  {
    QuitFrame(disk, rest);
    ReplayReply(BasicStep, disk, Join(["quit", "."]) + [NUL] + rest, more);
  }
}
