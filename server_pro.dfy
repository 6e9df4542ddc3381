/** The TWMailer Pro `clientCommunication`: a login handshake against the directory, then one
    request per received chunk, each run on behalf of the logged-in user. */
module ProServer {
  import opened CText
  import opened Errno
  import opened Spool
  import opened MailSpec
  import opened Store
  import opened Directory
  import opened Session

  /** The identity a session holds after the handshake: `rawuid`, the bind DN `fulluid` and the
      password `pwd`. */
  datatype Account = Account(rawuid: string, fulluid: string, pwd: string)

  /** The account the handshake records from an identity chunk and a secret chunk, taken as C
      strings and not stripped. */
  function AccountOf(identity: seq<char>, secret: seq<char>): (a: Account)
    ensures a.fulluid == Dn(a.rawuid) && NUL !in a.rawuid && NUL !in a.pwd
  {
    var rawuid := CString(identity);
    Account(rawuid, Dn(rawuid), CString(secret))
  }

  /** Whether the directory accepts an account: the bind with its DN and password succeeds and
      its own uid is found. */
  predicate Accepted(ldap: Ldap, a: Account) {
    Credentials(ldap, a.fulluid, a.rawuid, a.pwd) != 0
  }

  /** The first handshake, in order, that the directory accepts. */
  function FirstAccepted(ldap: Ldap, attempts: seq<(seq<char>, seq<char>)>): (r: Option<nat>)
    ensures r.Some? ==> r.value < |attempts| && Accepted(ldap, AccountOf(attempts[r.value].0, attempts[r.value].1))
    ensures r.Some? ==> forall i :: 0 <= i < r.value ==> !Accepted(ldap, AccountOf(attempts[i].0, attempts[i].1))
    ensures r.None? ==> forall i :: 0 <= i < |attempts| ==> !Accepted(ldap, AccountOf(attempts[i].0, attempts[i].1))
  {
    if attempts == [] then None
    else if Accepted(ldap, AccountOf(attempts[0].0, attempts[0].1)) then Some(0)
    else match FirstAccepted(ldap, attempts[1..])
      case Some(j) => Some(j + 1)
      case None => None
  }

  /** A pro SEND with its receiver, subject and body: the directory must confirm the receiver
      before the message is delivered from the logged-in user. */
  function SendStep(disk: Disk, ldap: Ldap, a: Account, receiver: string, subject: string, message: string): Step {
    if Credentials(ldap, a.fulluid, receiver, a.pwd) == 0 then
      Step(disk, Reply("ERR - receiver does not exist\n"))
    else Deliver(disk, a.rawuid, receiver, subject, message)
  }

  /** What a pro request asks for once its tokens are read. `Malformed` is a request the
      process dies on: no tokens at all (`strcmp` on NULL), or a command whose arguments are
      missing (`strcpy` or `atoi` on NULL). */
  datatype ProRequest =
    | Malformed
    | SendRequest(receiver: string, subject: string, message: string)
    | ListRequest
    | ReadRequest(number: int)
    | DeleteRequest(number: int)
    | QuitRequest
    | WrongRequest

  /** The first token names the command; SEND takes the next three lines as receiver, subject
      and body, READ and DEL take a number from the next one. */
  function ProParse(ts: seq<string>): (r: ProRequest)
    ensures r.Malformed? <==>
      ts == [] || (ts[0] == "SEND" && |ts| < 4) || ((ts[0] == "READ" || ts[0] == "DEL") && |ts| < 2)
    ensures r.SendRequest? <==> |ts| >= 4 && ts[0] == "SEND"
    ensures r.SendRequest? ==> r == SendRequest(ts[1], ts[2], ts[3])
    ensures r.ListRequest? <==> ts != [] && ts[0] == "LIST"
    ensures r.ReadRequest? <==> |ts| >= 2 && ts[0] == "READ"
    ensures r.DeleteRequest? <==> |ts| >= 2 && ts[0] == "DEL"
    ensures (r.ReadRequest? || r.DeleteRequest?) ==> r.number == Atoi(ts[1])
    ensures r.QuitRequest? <==> ts != [] && ts[0] == "quit"
    ensures r.WrongRequest? <==> ts != [] && Keyword(ts[0]) == NoCommand
  {
    if ts == [] then Malformed
    else match Keyword(ts[0])
      case SendMessage => if |ts| < 4 then Malformed else SendRequest(ts[1], ts[2], ts[3])
      case ListMessages => ListRequest
      case ReadMessage => if |ts| < 2 then Malformed else ReadRequest(Atoi(ts[1]))
      case DeleteMessage => if |ts| < 2 then Malformed else DeleteRequest(Atoi(ts[1]))
      case QuitSession => QuitRequest
      case NoCommand => WrongRequest
  }

  /** A pro request carried out for the logged-in account. */
  function ProExecute(disk: Disk, ldap: Ldap, a: Account, r: ProRequest): Step {
    match r
    case Malformed => Step(disk, Crash)
    case SendRequest(receiver, subject, message) => SendStep(disk, ldap, a, receiver, subject, message)
    case ListRequest => Step(disk, ListPro(disk, a.rawuid))
    case ReadRequest(n) => Step(disk, Read(disk, a.rawuid, n, ""))
    case DeleteRequest(n) => Delete(disk, a.rawuid, n)
    case QuitRequest => Step(disk, Reply("OK - goodbye\n"))
    case WrongRequest => Step(disk, Reply("ERR - wrong command"))
  }

  /** One pro request: the chunk is read as tokens, parsed and carried out. */
  function ProStep(disk: Disk, ldap: Ldap, a: Account, chunk: seq<char>): Step {
    ProExecute(disk, ldap, a, ProParse(Request(chunk)))
  }

  /** How a pro server process answers one chunk for the logged-in account. */
  function ProResponder(ldap: Ldap, a: Account): (Disk, seq<char>) -> Step {
    (disk, chunk) => ProStep(disk, ldap, a, chunk)
  }

  class ProSession {
    const store: MailStore
    /** The directory `ldapCredentials` asks. */
    const ldap: Ldap
    var rawuid: string
    var fulluid: string
    var pwd: string
    var loggedIn: bool

    ghost predicate Valid()
      reads this, store
    {
      store.Valid()
    }

    function Current(): Account
      reads this
    {
      Account(rawuid, fulluid, pwd)
    }

    constructor(store: MailStore, ldap: Ldap)
      requires store.Valid() && store.response == ""
      ensures Valid() && this.store == store && this.ldap == ldap && !loggedIn
      ensures Current() == Account("", "", "")
    {
      this.store := store;
      this.ldap := ldap;
      rawuid := "";
      fulluid := "";
      pwd := "";
      loggedIn := false;
    }

    /** One pass of the login loop: the identity chunk gives `rawuid` and the DN, the secret
        chunk the password; the directory decides, and the reply is `LOGINOK` or `NOTOK`. */
    method Login(identity: seq<char>, secret: seq<char>) returns (reply: string)
      modifies this
      ensures Current() == AccountOf(identity, secret)
      ensures loggedIn <==> Accepted(ldap, Current())
      ensures reply == if loggedIn then "LOGINOK" else "NOTOK"
    {
      rawuid := CString(identity);
      fulluid := "uid=" + rawuid + ",ou=people,dc=technikum-wien,dc=at";
      pwd := CString(secret);
      loggedIn := Credentials(ldap, fulluid, rawuid, pwd) != 0;
      reply := if loggedIn then "LOGINOK" else "NOTOK";
    }

    /** The login `while` loop: handshakes are answered until one is accepted. Failures are not
        counted; any later correct handshake still logs in. */
    method LoginLoop(attempts: seq<(seq<char>, seq<char>)>) returns (replies: seq<string>)
      requires !loggedIn
      modifies this
      ensures match FirstAccepted(ldap, attempts)
        case Some(j) =>
          loggedIn && Current() == AccountOf(attempts[j].0, attempts[j].1) &&
          replies == seq(j, _ => "NOTOK") + ["LOGINOK"]
        case None =>
          !loggedIn && replies == seq(|attempts|, _ => "NOTOK")
    {
      replies := [];
      var i := 0;
      while !loggedIn && i < |attempts|
        invariant 0 <= i <= |attempts|
        invariant forall j :: 0 <= j < i - 1 ==> !Accepted(ldap, AccountOf(attempts[j].0, attempts[j].1))
        invariant !loggedIn ==> forall j :: 0 <= j < i ==> !Accepted(ldap, AccountOf(attempts[j].0, attempts[j].1))
        invariant loggedIn ==> (0 < i && Accepted(ldap, AccountOf(attempts[i - 1].0, attempts[i - 1].1)) &&
          Current() == AccountOf(attempts[i - 1].0, attempts[i - 1].1) &&
          replies == seq(i - 1, _ => "NOTOK") + ["LOGINOK"])
        invariant !loggedIn ==> replies == seq(i, _ => "NOTOK")
      {
        var reply := Login(attempts[i].0, attempts[i].1);
        replies := replies + [reply];
        i := i + 1;
      }
      if loggedIn {
        FirstAcceptedAt(ldap, attempts, i - 1);
      }
    }

    /** SEND once its three arguments are parsed. */
    method Send(receiver: string, subject: string, message: string) returns (stray: bool)
      requires Valid()
      modifies store
      ensures Valid()
      ensures SendStep(old(store.disk), ldap, Current(), receiver, subject, message)
        == Step(store.disk, if stray then Stray else Reply(store.response))
    {
      stray := false;
      if Credentials(ldap, fulluid, receiver, pwd) != 0 {
        stray := store.Deliver(rawuid, receiver, subject, message);
      } else {
        store.response := "ERR - receiver does not exist\n";
      }
    }

    /** The dispatch `switch`: the request is carried out on the store and the response is
        taken as the reply; the response buffer is emptied for the next request. */
    method Execute(request: ProRequest) returns (outcome: Outcome)
      requires Valid() && store.response == ""
      modifies store
      ensures Valid()
      ensures ProExecute(old(store.disk), ldap, Current(), request) == Step(store.disk, outcome)
      ensures outcome.Reply? ==> store.response == ""
    {
      match request {
        case Malformed =>
          return Crash;
        case SendRequest(receiver, subject, message) =>
          var stray := Send(receiver, subject, message);
          if stray {
            return Stray;
          }
        case ListRequest =>
          var stray := store.ListMailPro(rawuid);
          if stray {
            return Stray;
          }
        case ReadRequest(n) =>
          var overflow, stray := store.ReadMail(rawuid, n);
          if stray {
            return Stray;
          }
          if overflow {
            return Crash;
          }
        case DeleteRequest(n) =>
          var crashed, stray := store.DeleteMail(rawuid, n);
          if stray {
            return Stray;
          }
          if crashed {
            return Crash;
          }
        case QuitRequest =>
          store.response := "OK - goodbye\n";
        case WrongRequest =>
          store.response := "ERR - wrong command";
      }
      outcome := Reply(store.response);
      store.response := "";
    }

    /** One pass of the request loop: the chunk is parsed, then carried out. */
    method HandleChunk(chunk: seq<char>) returns (outcome: Outcome)
      requires Valid() && store.response == ""
      modifies store
      ensures Valid()
      ensures ProStep(old(store.disk), ldap, Current(), chunk) == Step(store.disk, outcome)
      ensures outcome.Reply? ==> store.response == ""
    {
      var request := ParseRequest(chunk);
      outcome := Execute(request);
    }

    /** The `do ... while` request loop over the chunks `recv` delivers until the connection
        closes; a request that crashes or strays ends it early. */
    method CommandLoop(chunks: seq<seq<char>>) returns (replies: seq<string>, crashed: bool, stray: bool)
      requires Valid() && store.response == ""
      modifies store
      ensures Valid()
      ensures Replay(ProResponder(ldap, Current()), old(store.disk), chunks) == Trace(store.disk, replies, crashed, stray)
    {
      ghost var respond := ProResponder(ldap, Current());
      ghost var disks := [store.disk];
      replies := [];
      crashed, stray := false, false;
      var i := 0;
      while i < |chunks|
        invariant 0 <= i <= |chunks|
        invariant Valid() && store.response == ""
        invariant Served(respond, chunks[..i], disks, replies)
        invariant disks[0] == old(store.disk) && disks[i] == store.disk
      {
        var outcome := HandleChunk(chunks[i]);
        assert respond(disks[i], chunks[i]) == Step(store.disk, outcome);
        if !outcome.Reply? {
          ServedReplay(respond, chunks, i, disks, replies);
          ReplayCrash(respond, disks[i], chunks, i, store.disk, outcome);
          return replies, outcome == Crash, outcome == Stray;
        }
        ServedMore(respond, chunks, i, disks, replies, store.disk, outcome.text);
        disks := disks + [store.disk];
        replies := replies + [outcome.text];
        QuitNeverMatches(chunks[i]);
        if LoopBuffer(chunks[i]) == "quit\n." {
          break;
        }
        i := i + 1;
      }
      ServedReplay(respond, chunks, i, disks, replies);
      assert chunks[i..] == [];
    }
  }

  /** How the request loop reads a chunk: the line ending is cut, `strtok` takes the first
      token, and the `strcmp` chain names the command; the arguments are then taken one
      `strtok` call each. */
  method ParseRequest(chunk: seq<char>) returns (request: ProRequest)
    ensures request == ProParse(Request(chunk))
  {
    var buffer := CString(Strip(chunk));
    var tokens := Tokens(buffer);
    if tokens == [] {
      return Malformed;
    }
    if tokens[0] == "SEND" {
      if |tokens| < 4 {
        return Malformed;
      }
      request := SendRequest(tokens[1], tokens[2], tokens[3]);
    } else if tokens[0] == "LIST" {
      request := ListRequest;
    } else if tokens[0] == "READ" {
      if |tokens| < 2 {
        return Malformed;
      }
      request := ReadRequest(Atoi(tokens[1]));
    } else if tokens[0] == "DEL" {
      if |tokens| < 2 {
        return Malformed;
      }
      request := DeleteRequest(Atoi(tokens[1]));
    } else if tokens[0] == "quit" {
      request := QuitRequest;
    } else {
      request := WrongRequest;
    }
  }

  /** The handshake the loop stops at is the first accepted one. */
  lemma {:induction false} FirstAcceptedAt(ldap: Ldap, attempts: seq<(seq<char>, seq<char>)>, j: nat)
    requires j < |attempts| && Accepted(ldap, AccountOf(attempts[j].0, attempts[j].1))
    requires forall k :: 0 <= k < j ==> !Accepted(ldap, AccountOf(attempts[k].0, attempts[k].1))
    ensures FirstAccepted(ldap, attempts) == Some(j)
  {
    if j > 0 {
      assert !Accepted(ldap, AccountOf(attempts[0].0, attempts[0].1));
      assert forall k :: 0 <= k < j - 1 ==> attempts[1..][k] == attempts[k + 1];
      FirstAcceptedAt(ldap, attempts[1..], j - 1);
    }
  }

  // ---------------------------------------------------------------------------------------------
  // What a request does

  /** Which requests end the process: an empty one, SEND without receiver, subject and body
      lines, READ or DEL without a number, a READ whose message does not fit the response
      buffer, and DEL when the inbox cannot be opened. Every other request, LIST and unknown
      commands included, is answered or strays. */
  lemma ProCrashes(disk: Disk, ldap: Ldap, a: Account, chunk: seq<char>)
    ensures var ts := Request(chunk);
      ProStep(disk, ldap, a, chunk).outcome == Crash <==>
        ts == [] || (ts[0] == "SEND" && |ts| < 4) || ((ts[0] == "READ" || ts[0] == "DEL") && |ts| < 2) ||
        (ts[0] == "READ" && |ts| >= 2 && Read(disk, a.rawuid, Atoi(ts[1]), "") == Crash) ||
        (ts[0] == "DEL" && |ts| >= 2 && OpenInbox(disk, a.rawuid).NotOpened?)
  {
    ExecuteCrashes(disk, ldap, a, ProParse(Request(chunk)));
  }

  /** A parsed request ends the process exactly when it is malformed, a READ that overflows,
      or a DEL whose inbox cannot be opened. */
  lemma ExecuteCrashes(disk: Disk, ldap: Ldap, a: Account, r: ProRequest)
    ensures ProExecute(disk, ldap, a, r).outcome == Crash <==>
      r.Malformed? || (r.ReadRequest? && Read(disk, a.rawuid, r.number, "") == Crash) ||
      (r.DeleteRequest? && OpenInbox(disk, a.rawuid).NotOpened?)
  {
    if r.DeleteRequest? {
      DeleteCrashes(disk, a.rawuid, r.number);
    }
  }

  /** Only SEND and DEL change the spool. */
  lemma ProStepKeepsSpool(disk: Disk, ldap: Ldap, a: Account, chunk: seq<char>)
    requires var ts := Request(chunk); ts == [] || (ts[0] != "SEND" && ts[0] != "DEL")
    ensures ProStep(disk, ldap, a, chunk).disk == disk
  {
  }

  /** A receiver the directory does not confirm gets nothing and the sender is told so; a
      confirmed one never gets that reply. */
  lemma SendRefused(disk: Disk, ldap: Ldap, a: Account, receiver: string, subject: string, message: string)
    ensures var s := SendStep(disk, ldap, a, receiver, subject, message);
      (s.outcome == Reply("ERR - receiver does not exist\n") <==> Credentials(ldap, a.fulluid, receiver, a.pwd) == 0) &&
      (Credentials(ldap, a.fulluid, receiver, a.pwd) == 0 ==> s.disk == disk)
  {
  }

  /** The lines a client frame is made of: none empty, none holding a newline or a NUL. */
  predicate FrameLines(lines: seq<string>) {
    forall i :: 0 <= i < |lines| ==> IsLine(lines[i]) && NUL !in lines[i]
  }

  /** A SEND frame is read line by line: receiver, subject and the first body line; the lines
      after it, the closing "." among them, are ignored. */
  lemma SendFrame(disk: Disk, ldap: Ldap, a: Account, lines: seq<string>, rest: seq<char>)
    requires FrameLines(lines) && |lines| >= 4 && lines[0] == "SEND"
    ensures ProStep(disk, ldap, a, Join(lines) + [NUL] + rest) == SendStep(disk, ldap, a, lines[1], lines[2], lines[3])
  {
    RequestOfLines(lines, rest);
  }

  /** A READ frame asks for the number its second line spells. */
  lemma ReadFrame(disk: Disk, ldap: Ldap, a: Account, lines: seq<string>, rest: seq<char>, n: nat)
    requires FrameLines(lines) && |lines| >= 2 && lines[0] == "READ" && lines[1] == Decimal(n)
    ensures ProStep(disk, ldap, a, Join(lines) + [NUL] + rest) == Step(disk, Read(disk, a.rawuid, n, ""))
  {
    RequestOfLines(lines, rest);
    AtoiOfDecimal(n);
  }

  /** One user sends, another reads: after A's SEND frame to B, B's READ frame for the next
      number shows the message, signed with A's uid (or ends the process when it does not fit
      the response). */
  lemma SendThenRead(disk: Disk, ldap: Ldap, a: Account, b: Account, send: seq<string>, read: seq<string>,
                     rest1: seq<char>, rest2: seq<char>)
    requires FrameLines(send) && |send| >= 4 && send[0] == "SEND" && send[1] == b.rawuid
    requires FrameLines(read) && |read| >= 2 && read[0] == "READ" && read[1] == Decimal(|Mail(disk, b.rawuid, In)| + 1)
    requires Credentials(ldap, a.fulluid, b.rawuid, a.pwd) != 0 && a.rawuid != b.rawuid
    requires IsPlainName(a.rawuid) && IsPlainName(b.rawuid)
    requires forall m :: m in Mail(disk, b.rawuid, In) ==> m.Name() != send[2]
    requires CanSave(disk, b.rawuid, In, send[2]) && BoxPath(b.rawuid, In) !in disk.refused
    ensures var sent := ProStep(disk, ldap, a, Join(send) + [NUL] + rest1);
      ProStep(sent.disk, ldap, b, Join(read) + [NUL] + rest2)
        == Step(sent.disk, Fits("OK\n" + Record(a.rawuid, send[3])))
  {
    SendFrame(disk, ldap, a, send, rest1);
    ReadAfterDeliver(disk, a.rawuid, b.rawuid, send[2], send[3]);
    var sent := Deliver(disk, a.rawuid, b.rawuid, send[2], send[3]);
    ReadFrame(sent.disk, ldap, b, read, rest2, |Mail(disk, b.rawuid, In)| + 1);
  }

  // ---------------------------------------------------------------------------------------------
  // A whole connection

  /** The client's "quit" frame is a request like any other: it is answered with a goodbye
      and changes nothing. */
  lemma QuitFrame(disk: Disk, ldap: Ldap, a: Account, rest: seq<char>)
    ensures ProStep(disk, ldap, a, Join(["quit", "."]) + [NUL] + rest) == Step(disk, Reply("OK - goodbye\n"))
  {
    RequestOfLines(["quit", "."], rest);
  }

  /** After the goodbye the connection goes on as if the "quit" frame had not been sent. */
  lemma QuitContinues(disk: Disk, ldap: Ldap, a: Account, rest: seq<char>, more: seq<seq<char>>)
    ensures var t := Replay(ProResponder(ldap, a), disk, more);
      Replay(ProResponder(ldap, a), disk, [Join(["quit", "."]) + [NUL] + rest] + more)
        == Trace(t.disk, ["OK - goodbye\n"] + t.replies, t.crashed, t.stray)
  {
    QuitFrame(disk, ldap, a, rest);
    ReplayReply(ProResponder(ldap, a), disk, Join(["quit", "."]) + [NUL] + rest, more);
  }
}
