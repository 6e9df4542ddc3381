/** The login phase of the TWMailer Pro client: the uid line read with `fgets`, the password
    typed blind through `getpass`, and the `while (!loginSuccess)` loop with its `tries` counter
    and cool-down. The keystrokes of the uid, the password and the requests that follow come
    from one input stream. */
module ProClient {
  import opened CText
  import opened ClientFrame

  /** `fgets(rawuid, 127, stdin)` keeps room for its NUL: at most 126 characters are read. */
  const UID_MAX: nat := 126

  const RETURN: char := '\n'
  const BACKSPACE: char := '\U{7F}'

  // ---------------------------------------------------------------------------------------------
  // The uid line

  /** What `fgets` takes from the input when it has room for `room` characters: up to and
      including the first newline, but no more than `room` characters, and fewer when the
      input ends first. */
  function Fgets(input: seq<char>, room: nat): (r: seq<char>)
    ensures |r| <= |input| && |r| <= room
    decreases room
  {
    if room == 0 || input == [] then []
    else if input[0] == '\n' then "\n"
    else [input[0]] + Fgets(input[1..], room - 1)
  }

  /** The uid as sent: the line `fgets` read, cut at its newline by `strcspn`. */
  function Uid(input: seq<char>): seq<char> {
    Run(Fgets(input, UID_MAX))
  }

  /** `fgets` reads a prefix of the input holding no newline but possibly a last one, and
      it stops early only at a newline. */
  lemma {:induction false} FgetsStops(input: seq<char>, room: nat)
    ensures var r := Fgets(input, room);
      r <= input && (forall j :: 0 <= j < |r| - 1 ==> r[j] != '\n') &&
      (|r| == |input| || |r| == room || (r != [] && r[|r| - 1] == '\n'))
    decreases room
  {
    if room != 0 && input != [] && input[0] != '\n' {
      FgetsStops(input[1..], room - 1);
    }
  }

  /** A line that fits is read whole, newline included. */
  lemma {:induction false} FgetsLine(line: seq<char>, more: seq<char>, room: nat)
    requires '\n' !in line && |line| < room
    ensures Fgets(line + "\n" + more, room) == line + "\n"
    decreases room
  {
    var input := line + "\n" + more;
    if line != [] {
      assert line[0] in line;
      assert forall c :: c in line[1..] ==> c in line;
      assert input[1..] == line[1..] + "\n" + more;
      FgetsLine(line[1..], more, room - 1);
    }
  }

  /** A longer line is cut after `room` characters. */
  lemma {:induction false} FgetsLong(line: seq<char>, more: seq<char>, room: nat)
    requires '\n' !in line && |line| >= room
    ensures Fgets(line + more, room) == line[..room]
    decreases room
  {
    if room != 0 {
      assert line[0] in line;
      assert forall c :: c in line[1..] ==> c in line;
      assert (line + more)[1..] == line[1..] + more;
      FgetsLong(line[1..], more, room - 1);
      assert line[..room] == [line[0]] + line[1..][..room - 1];
    }
  }

  /** A uid line that fits is read whole and its newline dropped; the next read starts after
      the newline. */
  lemma UidOfLine(line: seq<char>, more: seq<char>)
    requires '\n' !in line && |line| < UID_MAX
    ensures Uid(line + "\n" + more) == line
    ensures |Fgets(line + "\n" + more, UID_MAX)| == |line| + 1
  {
    FgetsLine(line, more, UID_MAX);
    RunOfLine(line, "\n");
    assert Run("\n") == [];
    assert line + [] == line;
  }

  /** A longer line is cut after `UID_MAX` characters, and the rest of it stays in the input
      for whatever reads next: the password prompt. */
  lemma UidOfLongLine(line: seq<char>, more: seq<char>)
    requires '\n' !in line && |line| >= UID_MAX
    ensures Uid(line + more) == line[..UID_MAX]
    ensures |Fgets(line + more, UID_MAX)| == UID_MAX
  {
    FgetsLong(line, more, UID_MAX);
    var t := line[..UID_MAX];
    assert forall c :: c in t ==> c in line;
    RunOfLine(t, []);
    assert t + [] == t;
  }

  // ---------------------------------------------------------------------------------------------
  // getpass

  /** One keystroke of `getpass`: BACKSPACE removes the last character when there is one,
      anything else other than RETURN is added. */
  function Edit(password: seq<char>, key: char): seq<char> {
    if key == BACKSPACE then
      if |password| != 0 then password[..|password| - 1] else password
    else password + [key]
  }

  /** The password left by the keystrokes `keys` typed on top of `password`. */
  function Typed(password: seq<char>, keys: seq<char>): seq<char>
    decreases |keys|
  {
    if keys == [] then password else Typed(Edit(password, keys[0]), keys[1..])
  }

  /** The `while ((ch = getch()) != RETURN)` loop. Without a RETURN in the input it never
      ends: at the end of input `getch` returns EOF, which is not RETURN. */
  method GetPass(input: seq<char>) returns (password: seq<char>, used: nat)
    requires RETURN in input
    ensures used == |Run(input)| + 1 <= |input|
    ensures password == Typed([], Run(input))
  {
    password := [];
    var i := 0;
    while input[i] != RETURN
      invariant 0 <= i < |input| && RETURN in input[i..]
      invariant forall j :: 0 <= j < i ==> input[j] != RETURN
      invariant password == Typed([], input[..i])
      decreases |input| - i
    {
      var ch := input[i];
      ghost var before := password;
      KeyTyped(input, i);
      if ch == BACKSPACE {
        if |password| != 0 {
          password := password[..|password| - 1];
        }
      } else {
        password := password + [ch];
      }
      assert password == Edit(before, ch);
      i := i + 1;
    }
    RunUpTo(input, i);
    used := i + 1;
  }

  /** One key of the loop: it edits the password typed so far, and a RETURN is still to come. */
  lemma KeyTyped(input: seq<char>, i: nat)
    requires i < |input| && input[i] != RETURN && RETURN in input[i..]
    ensures Typed([], input[..i + 1]) == Edit(Typed([], input[..i]), input[i])
    ensures RETURN in input[i + 1..]
  {
    assert input[..i + 1] == input[..i] + [input[i]];
    TypedSnoc([], input[..i], input[i]);
    assert input[i..] == [input[i]] + input[i + 1..];
  }

  /** The run before a newline at position i, with none before it, is the first i characters. */
  lemma {:induction false} RunUpTo(s: seq<char>, i: nat)
    requires i < |s| && s[i] == '\n' && forall j :: 0 <= j < i ==> s[j] != '\n'
    ensures Run(s) == s[..i] && Run(s[i..]) == []
  {
    if i > 0 {
      RunUpTo(s[1..], i - 1);
      assert s[1..][i - 1..] == s[i..];
      assert s[..i] == [s[0]] + s[1..][..i - 1];
    }
  }

  /** Typing one more key edits the password as it stood. */
  lemma {:induction false} TypedSnoc(password: seq<char>, keys: seq<char>, key: char)
    ensures Typed(password, keys + [key]) == Edit(Typed(password, keys), key)
    decreases |keys|
  {
    if keys != [] {
      assert (keys + [key])[1..] == keys[1..] + [key];
      TypedSnoc(Edit(password, keys[0]), keys[1..], key);
    } else {
      assert [key][1..] == [];
    }
  }

  /** The password never holds RETURN or BACKSPACE, and is no longer than the keystrokes. */
  lemma {:induction false} TypedClean(password: seq<char>, keys: seq<char>)
    requires RETURN !in keys && RETURN !in password && BACKSPACE !in password
    ensures RETURN !in Typed(password, keys) && BACKSPACE !in Typed(password, keys)
    ensures |Typed(password, keys)| <= |password| + |keys|
    decreases |keys|
  {
    if keys != [] {
      var next := Edit(password, keys[0]);
      assert keys[0] in keys;
      assert forall c :: c in keys[1..] ==> c in keys;
      if keys[0] == BACKSPACE && |password| != 0 {
        assert forall c :: c in password[..|password| - 1] ==> c in password;
      }
      TypedClean(next, keys[1..]);
    }
  }

  /** Keystrokes without BACKSPACE are taken as they are. */
  lemma {:induction false} TypedPlain(password: seq<char>, keys: seq<char>)
    requires BACKSPACE !in keys
    ensures Typed(password, keys) == password + keys
    decreases |keys|
  {
    if keys != [] {
      assert keys[0] in keys;
      assert forall c :: c in keys[1..] ==> c in keys;
      TypedPlain(password + [keys[0]], keys[1..]);
      assert password + [keys[0]] + keys[1..] == password + keys;
    }
  }

  /** A character typed and then erased leaves no trace. */
  lemma TypeThenErase(keys: seq<char>, c: char)
    requires c != BACKSPACE
    ensures Typed([], keys + [c, BACKSPACE]) == Typed([], keys)
  {
    assert keys + [c, BACKSPACE] == keys + [c] + [BACKSPACE];
    TypedSnoc([], keys + [c], BACKSPACE);
    TypedSnoc([], keys, c);
    var p := Typed([], keys);
    assert (p + [c])[..|p|] == p;
  }

  /** BACKSPACE on an empty password does nothing. */
  lemma EraseNothing(keys: seq<char>)
    requires Typed([], keys) == []
    ensures Typed([], keys + [BACKSPACE]) == []
  {
    TypedSnoc([], keys, BACKSPACE);
  }

  // ---------------------------------------------------------------------------------------------
  // The tries counter

  /** The counter after a refused login: when it already stood at 2 the client sleeps a minute
      and starts again from 0; then it is incremented. */
  function Refused(tries: int): (r: (int, bool)) {
    if tries == 2 then (1, true) else (tries + 1, false)
  }

  /** The counter after n refusals in a row, starting from 0. */
  function TriesAfter(n: nat): (t: int)
    ensures 0 <= t <= 2
  {
    if n == 0 then 0 else Refused(TriesAfter(n - 1)).0
  }

  /** The counter alternates between 1 and 2 from the first refusal on. */
  lemma {:induction false} TriesCycle(n: nat)
    ensures TriesAfter(n) == if n == 0 then 0 else if n % 2 == 1 then 1 else 2
  {
    if n > 0 {
      TriesCycle(n - 1);
    }
  }

  /** The cool-down fires on the n-th refusal in a row exactly when n is odd and at least 3:
      the 3rd, 5th, 7th, ... refusal, not every third. */
  lemma CooldownOn(n: nat)
    requires n >= 1
    ensures Refused(TriesAfter(n - 1)).1 <==> n >= 3 && n % 2 == 1
  {
    TriesCycle(n - 1);
  }

  /** How many cool-downs n refusals in a row cause. */
  function Cooldowns(n: nat): nat {
    if n == 0 then 0 else Cooldowns(n - 1) + (if Refused(TriesAfter(n - 1)).1 then 1 else 0)
  }

  /** One more refusal moves both counts one step on. */
  lemma RefusedOnce(n: nat)
    ensures Refused(TriesAfter(n)).0 == TriesAfter(n + 1)
    ensures Cooldowns(n) + (if Refused(TriesAfter(n)).1 then 1 else 0) == Cooldowns(n + 1)
  {
  }

  lemma {:induction false} CooldownsCount(n: nat)
    ensures Cooldowns(n) == if n == 0 then 0 else (n - 1) / 2
  {
    if n > 0 {
      CooldownsCount(n - 1);
      CooldownOn(n);
    }
  }

  // ---------------------------------------------------------------------------------------------
  // The login loop

  /** What the network does with one login attempt: the uid `send` fails, the password `send`
      fails, `recv` reports an error or a closed connection, or the server's reply arrives. */
  datatype LoginAnswer = UidNotSent | PwdNotSent | LoginLost | LoginReply(bytes: Packet)

  /** The keystrokes of one attempt: the uid and the password as C strings, what is left
      for the next read, and `waiting` when no RETURN comes, so that `getpass` never returns. */
  datatype Prompted = Prompted(uid: string, pwd: string, rest: seq<char>, waiting: bool)

  /** One attempt's keystrokes, taken one at a time. While `fgets` is `reading` the uid line
      it stops after UID_MAX characters or at the end of the input, or at a newline, which it
      consumes; then `getpass` edits the password key by key up to RETURN. Without a RETURN
      every keystroke is consumed and it goes on waiting. */
  function Scan(input: seq<char>, uid: seq<char>, reading: bool, password: seq<char>): Prompted
    decreases |input|, reading
  {
    if reading then
      if |uid| >= UID_MAX || input == [] then Scan(input, uid, false, password)
      else if input[0] == '\n' then Scan(input[1..], uid, false, password)
      else Scan(input[1..], uid + [input[0]], true, password)
    else if input == [] then Prompted(CString(uid), [], [], true)
    else if input[0] == RETURN then Prompted(CString(uid), CString(password), input[1..], false)
    else Scan(input[1..], uid, false, Edit(password, input[0]))
  }

  function Prompt(input: seq<char>): Prompted {
    Scan(input, [], true, [])
  }

  /** The scan of the uid line reads what `fgets` reads, and keeps the part before the newline. */
  lemma {:induction false} ScanReading(line: seq<char>, after: seq<char>, uid: seq<char>, password: seq<char>)
    requires |uid| <= UID_MAX && Fgets(line + after, UID_MAX - |uid|) == line
    ensures Scan(line + after, uid, true, password) == Scan(after, uid + Run(line), false, password)
    decreases |line|
  {
    if line == [] || line[0] == '\n' {
      ReadingEnds(line, after, uid, password);
    } else {
      var c := line[0];
      ReadingGoesOn(line, after, uid, password);
      assert |uid + [c]| == |uid| + 1;
      ScanReading(line[1..], after, uid + [c], password);
      UidGrows(uid, line);
    }
  }

  /** `fgets` stops at once, or takes the newline and stops. */
  lemma ReadingEnds(line: seq<char>, after: seq<char>, uid: seq<char>, password: seq<char>)
    requires |uid| <= UID_MAX && Fgets(line + after, UID_MAX - |uid|) == line
    requires line == [] || line[0] == '\n'
    ensures Scan(line + after, uid, true, password) == Scan(after, uid + Run(line), false, password)
  {
    if line == [] {
      assert line + after == after && uid + [] == uid;
    } else {
      assert (line + after)[0] == '\n' && (line + after)[1..] == after;
      assert line == "\n" && Run(line) == [] && uid + [] == uid;
    }
  }

  /** `fgets` takes one more character of the uid. */
  lemma ReadingGoesOn(line: seq<char>, after: seq<char>, uid: seq<char>, password: seq<char>)
    requires |uid| <= UID_MAX && Fgets(line + after, UID_MAX - |uid|) == line
    requires line != [] && line[0] != '\n'
    ensures |uid| < UID_MAX && Fgets(line[1..] + after, UID_MAX - |uid| - 1) == line[1..]
    ensures Scan(line + after, uid, true, password) == Scan(line[1..] + after, uid + [line[0]], true, password)
  {
    assert (line + after)[0] == line[0] && (line + after)[1..] == line[1..] + after;
  }

  lemma UidGrows(uid: seq<char>, line: seq<char>)
    requires line != [] && line[0] != '\n'
    ensures uid + Run(line) == uid + [line[0]] + Run(line[1..])
  {
    assert Run(line) == [line[0]] + Run(line[1..]);
  }

  /** The scan of the password ends at the first RETURN with what `getpass` returns, or
      never ends. */
  lemma {:induction false} ScanPassword(keys: seq<char>, uid: seq<char>, password: seq<char>)
    ensures |Run(keys)| == |keys| ==> Scan(keys, uid, false, password) == Prompted(CString(uid), [], [], true)
    ensures |Run(keys)| < |keys| ==> (Scan(keys, uid, false, password)
      == Prompted(CString(uid), CString(Typed(password, Run(keys))), keys[|Run(keys)| + 1..], false))
    decreases |keys|
  {
    if keys != [] && keys[0] != RETURN {
      ScanPassword(keys[1..], uid, Edit(password, keys[0]));
      assert Run(keys) == [keys[0]] + Run(keys[1..]);
      if |Run(keys)| < |keys| {
        assert keys[1..][|Run(keys[1..])| + 1..] == keys[|Run(keys)| + 1..];
      }
    }
  }

  /** An attempt's scan, split where `fgets` stops. */
  lemma PromptAfterUid(input: seq<char>)
    ensures Prompt(input) == Scan(input[|Fgets(input, UID_MAX)|..], Uid(input), false, [])
  {
    var line := Fgets(input, UID_MAX);
    FgetsStops(input, UID_MAX);
    assert input == line + input[|line|..];
    ScanReading(line, input[|line|..], [], []);
    assert [] + Uid(input) == Uid(input);
  }

  /** `fgets` and `strcspn` for the uid, then `strcpy(pwd, getpass())`. */
  method ReadCredentials(input: seq<char>) returns (p: Prompted)
    ensures p == Prompt(input)
  {
    var line := Fgets(input, UID_MAX);
    var rawuid := CString(Uid(input));
    var after := input[|line|..];
    PromptAfterUid(input);
    ScanPassword(after, Uid(input), []);
    if RETURN !in after {
      assert |Run(after)| == |after|;
      return Prompted(rawuid, [], [], true);
    }
    var keys, used := GetPass(after);
    p := Prompted(rawuid, CString(keys), after[used..], false);
  }

  /** The login phase as far as the answers take it: the C strings sent, whether it logged in,
      how many replies were refusals and how many cool-downs they caused, the buffer and the
      input left, whether `getpass` is still waiting for a RETURN that never comes, and whether
      the loop was left (`ended`): on LOGINOK or on a `break`. When the answers run out first,
      the loop is still going round. */
  datatype Login = Login(sent: seq<string>, success: bool, refused: nat, cooldowns: nat,
                         buffer: seq<char>, rest: seq<char>, waiting: bool, ended: bool)

  /** The login loop as a function of the keystrokes and the network's answers, one per
      attempt, from a point where `sent` went out already, `refused` replies were refusals,
      `cooldowns` cool-downs were slept and the counter stands at `tries`. When the answers
      run out the phase is not over: the result says how far it got. */
  function LoginRun(buffer: seq<char>, input: seq<char>, answers: seq<LoginAnswer>, tries: int,
                    sent: seq<string>, refused: nat, cooldowns: nat): (r: Login)
    requires |buffer| == BUF
    ensures |r.buffer| == BUF
    decreases |answers|
  {
    if answers == [] then Login(sent, false, refused, cooldowns, buffer, input, false, false)
    else
      var p := Prompt(input);
      if p.waiting then Login(sent, false, refused, cooldowns, buffer, p.rest, true, false)
      else match answers[0]
        case UidNotSent => Login(sent, false, refused, cooldowns, buffer, p.rest, false, true)
        case PwdNotSent => Login(sent + [p.uid], false, refused, cooldowns, buffer, p.rest, false, true)
        case LoginLost => Login(sent + [p.uid, p.pwd], false, refused, cooldowns, buffer, p.rest, false, true)
        case LoginReply(bytes) =>
          var next := AfterReply(buffer, bytes);
          if CString(next) == "LOGINOK" then
            Login(sent + [p.uid, p.pwd], true, refused, cooldowns, next, p.rest, false, true)
          else
            LoginRun(next, p.rest, answers[1..], Refused(tries).0, sent + [p.uid, p.pwd], refused + 1,
                     cooldowns + if Refused(tries).1 then 1 else 0)
  }

  /** The `while (!loginSuccess)` loop, on the client's buffer. */
  method LoginLoop(buffer: array<char>, input: seq<char>, answers: seq<LoginAnswer>)
    returns (loginSuccess: bool, cooldowns: nat, rest: seq<char>, waiting: bool, sent: seq<string>, ended: bool)
    requires buffer.Length == BUF
    modifies buffer
    ensures var r := LoginRun(old(buffer[..]), input, answers, 0, [], 0, 0);
      r == Login(sent, loginSuccess, r.refused, cooldowns, buffer[..], rest, waiting, ended)
  {
    ghost var whole := LoginRun(buffer[..], input, answers, 0, [], 0, 0);
    ghost var refused: nat := 0;
    sent := [];
    loginSuccess, cooldowns, rest, waiting, ended := false, 0, input, false, false;
    var tries := 0;
    var i := 0;
    while i < |answers|
      invariant 0 <= i <= |answers|
      invariant whole == LoginRun(buffer[..], rest, answers[i..], tries, sent, refused, cooldowns)
      decreases |answers| - i
    {
      var done, success, triesNext, sentNext, cooldownsNext, left, stuck :=
        Attempt(buffer, rest, answers[i..], tries, sent, refused, cooldowns);
      if done {
        return success, cooldownsNext, left, stuck, sentNext, !stuck;
      }
      assert answers[i..][1..] == answers[i + 1..];
      tries, sent, cooldowns, rest := triesNext, sentNext, cooldownsNext, left;
      refused := refused + 1;
      i := i + 1;
    }
  }

  /** One pass of the loop body: read the uid and the password, send both, take the reply,
      and on a refusal count it, sleeping first when the counter already stood at 2. `done`
      when the loop stops here. */
  method Attempt(buffer: array<char>, input: seq<char>, answers: seq<LoginAnswer>, tries: int,
                 sent: seq<string>, ghost refused: nat, cooldowns: nat)
    returns (done: bool, success: bool, triesNext: int, sentNext: seq<string>, cooldownsNext: nat,
             rest: seq<char>, waiting: bool)
    requires buffer.Length == BUF && answers != []
    modifies buffer
    ensures var r := LoginRun(old(buffer[..]), input, answers, tries, sent, refused, cooldowns);
      if done then r == Login(sentNext, success, refused, cooldownsNext, buffer[..], rest, waiting, !waiting)
      else r == LoginRun(buffer[..], rest, answers[1..], triesNext, sentNext, refused + 1, cooldownsNext)
  {
    ghost var before := buffer[..];
    var p := ReadCredentials(input);
    rest := p.rest;
    done, success, triesNext, sentNext, cooldownsNext, waiting := true, false, tries, sent, cooldowns, false;
    if p.waiting {
      waiting := true;
      return;
    }
    match answers[0] {
      case UidNotSent =>
      case PwdNotSent =>
        sentNext := sent + [p.uid];
      case LoginLost =>
        sentNext := sent + [p.uid, p.pwd];
      case LoginReply(bytes) =>
        sentNext := sent + [p.uid, p.pwd];
        Receive(buffer, bytes);
        assert buffer[..] == AfterReply(before, bytes);
        if CString(buffer[..]) == "LOGINOK" {
          success := true;
        } else {
          done := false;
          if triesNext == 2 {
            cooldownsNext := cooldownsNext + 1;
            triesNext := 0;
          }
          triesNext := triesNext + 1;
          assert triesNext == Refused(tries).0;
          assert cooldownsNext == cooldowns + if Refused(tries).1 then 1 else 0;
          assert LoginRun(before, input, answers, tries, sent, refused, cooldowns)
              == LoginRun(buffer[..], rest, answers[1..], triesNext, sentNext, refused + 1, cooldownsNext);
        }
    }
  }

  /** The client after the welcome message: the login loop, and then, once the loop is left
      (logged in, or by a `break`), the request loop on the same buffer and the keystrokes
      left. While the loop is still prompting, or `getpass` is still waiting for its RETURN,
      nothing more happens. */
  method Client(buffer: array<char>, input: seq<char>, logins: seq<LoginAnswer>, answers: seq<Answer>)
    returns (loginSuccess: bool, cooldowns: nat, loginSent: seq<string>, talk: Talk)
    requires buffer.Length == BUF
    modifies buffer
    ensures var r := LoginRun(old(buffer[..]), input, logins, 0, [], 0, 0);
      loginSuccess == r.success && cooldowns == r.cooldowns && loginSent == r.sent &&
      talk == if r.ended then Converse(r.buffer, r.rest, answers) else Talk([], [], false)
  {
    var rest, waiting, ended;
    loginSuccess, cooldowns, rest, waiting, loginSent, ended := LoginLoop(buffer, input, logins);
    if !ended {
      return loginSuccess, cooldowns, loginSent, Talk([], [], false);
    }
    talk := RequestLoop(buffer, rest, answers);
  }

  // ---------------------------------------------------------------------------------------------
  // What the login phase promises

  /** Typing `uid RETURN pwd RETURN`, for a uid that fits and a password typed without
      corrections, sends exactly that uid and that password, and leaves the rest of the
      keystrokes for what follows. */
  lemma PromptOfTyped(uid: string, pwd: string, more: seq<char>)
    requires '\n' !in uid && NUL !in uid && |uid| < UID_MAX
    requires RETURN !in pwd && BACKSPACE !in pwd && NUL !in pwd
    ensures Prompt(uid + "\n" + pwd + "\n" + more) == Prompted(uid, pwd, more, false)
  {
    var after := pwd + "\n" + more;
    var input := uid + "\n" + after;
    assert uid + "\n" + pwd + "\n" + more == input;
    UidOfLine(uid, after);
    assert input[|Fgets(input, UID_MAX)|..] == after;
    PromptAfterUid(input);
    PasswordLine(pwd, more);
    ScanPassword(after, uid, []);
    CStringOfText(uid);
    CStringOfText(pwd);
  }

  /** The password line: `getpass` stops at its RETURN, and what follows is left alone. */
  lemma PasswordLine(pwd: string, more: seq<char>)
    requires RETURN !in pwd && BACKSPACE !in pwd
    ensures var after := pwd + "\n" + more;
      |Run(after)| < |after| && Run(after) == pwd && after[|pwd| + 1..] == more && Typed([], pwd) == pwd
  {
    var after := pwd + "\n" + more;
    assert after == pwd + ("\n" + more);
    RunOfLine(pwd, "\n" + more);
    assert Run("\n" + more) == [];
    assert after[|pwd|] == RETURN;
    TypedPlain([], pwd);
  }

  /** A LOGINOK reply to a typed uid and password ends the phase at once, logged in, with
      the counters untouched. */
  lemma LoginFirstTry(buffer: seq<char>, uid: string, pwd: string, more: seq<char>, bytes: Packet,
                      answers: seq<LoginAnswer>, tries: int, sent: seq<string>, refused: nat, cooldowns: nat)
    requires |buffer| == BUF && CString(bytes) == "LOGINOK"
    requires '\n' !in uid && NUL !in uid && |uid| < UID_MAX
    requires RETURN !in pwd && BACKSPACE !in pwd && NUL !in pwd
    requires answers != [] && answers[0] == LoginReply(bytes)
    ensures LoginRun(buffer, uid + "\n" + pwd + "\n" + more, answers, tries, sent, refused, cooldowns)
      == Login(sent + [uid, pwd], true, refused, cooldowns, AfterReply(buffer, bytes), more, false, true)
  {
    PromptOfTyped(uid, pwd, more);
    CStringOfTerminated(bytes, buffer[|bytes| + 1..]);
  }

  /** A failed send or a lost connection ends the phase without logging in and without
      counting a refusal: the loop is left with `break`. */
  lemma FailureEndsLogin(buffer: seq<char>, input: seq<char>, answers: seq<LoginAnswer>, tries: int,
                         sent: seq<string>, refused: nat, cooldowns: nat)
    requires |buffer| == BUF && answers != [] && !answers[0].LoginReply?
    ensures var r := LoginRun(buffer, input, answers, tries, sent, refused, cooldowns);
      !r.success && r.refused == refused && r.cooldowns == cooldowns && r.buffer == buffer &&
      r.rest == Prompt(input).rest && sent <= r.sent && |r.sent| <= |sent| + 2 &&
      r.ended == !Prompt(input).waiting
  {
  }

  /** A reply other than LOGINOK is a refusal: it is counted, the counter moves on, and the
      loop goes round again with the keystrokes after the password. */
  predicate Refusal(buffer: seq<char>, input: seq<char>, answers: seq<LoginAnswer>)
    requires |buffer| == BUF
  {
    answers != [] && !Prompt(input).waiting && answers[0].LoginReply? &&
    CString(AfterReply(buffer, answers[0].bytes)) != "LOGINOK"
  }

  lemma RefusalGoesOn(buffer: seq<char>, input: seq<char>, answers: seq<LoginAnswer>, tries: int,
                      sent: seq<string>, refused: nat, cooldowns: nat)
    returns (next: seq<char>, rest: seq<char>, sentNext: seq<string>)
    requires |buffer| == BUF && Refusal(buffer, input, answers)
    ensures |next| == BUF && sent <= sentNext && |sentNext| == |sent| + 2
    ensures LoginRun(buffer, input, answers, tries, sent, refused, cooldowns)
      == LoginRun(next, rest, answers[1..], Refused(tries).0, sentNext, refused + 1,
                  cooldowns + if Refused(tries).1 then 1 else 0)
  {
    var p := Prompt(input);
    next, rest, sentNext := AfterReply(buffer, answers[0].bytes), p.rest, sent + [p.uid, p.pwd];
  }

  /** Anything but a refusal stops the phase, with the counts as they stand: the loop is left
      when an answer was taken, and is still prompting when none was left or `getpass` waits. */
  lemma OtherwiseEnds(buffer: seq<char>, input: seq<char>, answers: seq<LoginAnswer>, tries: int,
                      sent: seq<string>, refused: nat, cooldowns: nat)
    requires |buffer| == BUF && !Refusal(buffer, input, answers)
    ensures var r := LoginRun(buffer, input, answers, tries, sent, refused, cooldowns);
      r.refused == refused && r.cooldowns == cooldowns && sent <= r.sent && |r.sent| <= |sent| + 2 &&
      (r.success ==> CString(r.buffer) == "LOGINOK" && !r.waiting) &&
      (r.ended <==> answers != [] && !Prompt(input).waiting) && (r.waiting ==> !r.ended)
  {
    if answers != [] && !Prompt(input).waiting {
      var p := Prompt(input);
      var r := LoginRun(buffer, input, answers, tries, sent, refused, cooldowns);
      match answers[0] {
        case UidNotSent =>
          assert r.sent == sent;
        case PwdNotSent =>
          assert r.sent == sent + [p.uid];
        case LoginLost =>
          assert r.sent == sent + [p.uid, p.pwd];
        case LoginReply(bytes) =>
          assert r == Login(sent + [p.uid, p.pwd], true, refused, cooldowns, AfterReply(buffer, bytes), p.rest, false, true);
      }
    }
  }

  /** A successful login leaves LOGINOK in the buffer, and a waiting `getpass` never logs in. */
  lemma {:induction false} SuccessIsLoginOk(buffer: seq<char>, input: seq<char>, answers: seq<LoginAnswer>,
                                            tries: int, sent: seq<string>, refused: nat, cooldowns: nat)
    requires |buffer| == BUF
    ensures var r := LoginRun(buffer, input, answers, tries, sent, refused, cooldowns);
      r.success ==> CString(r.buffer) == "LOGINOK" && !r.waiting
    decreases |answers|
  {
    if Refusal(buffer, input, answers) {
      var next, rest, sentNext := RefusalGoesOn(buffer, input, answers, tries, sent, refused, cooldowns);
      SuccessIsLoginOk(next, rest, answers[1..], Refused(tries).0, sentNext, refused + 1,
                       cooldowns + if Refused(tries).1 then 1 else 0);
    } else {
      OtherwiseEnds(buffer, input, answers, tries, sent, refused, cooldowns);
    }
  }

  /** Every refusal sent a uid and a password, and the attempt that ended the phase sent at
      most those two; no answer is refused twice. */
  lemma {:induction false} LoginCounts(buffer: seq<char>, input: seq<char>, answers: seq<LoginAnswer>,
                                       tries: int, sent: seq<string>, refused: nat, cooldowns: nat)
    requires |buffer| == BUF
    ensures var r := LoginRun(buffer, input, answers, tries, sent, refused, cooldowns);
      refused <= r.refused <= refused + |answers| && cooldowns <= r.cooldowns && sent <= r.sent &&
      |sent| + 2 * (r.refused - refused) <= |r.sent| <= |sent| + 2 * (r.refused - refused) + 2
    decreases |answers|
  {
    if Refusal(buffer, input, answers) {
      var next, rest, sentNext := RefusalGoesOn(buffer, input, answers, tries, sent, refused, cooldowns);
      var cooled := cooldowns + if Refused(tries).1 then 1 else 0;
      LoginCounts(next, rest, answers[1..], Refused(tries).0, sentNext, refused + 1, cooled);
      var r := LoginRun(next, rest, answers[1..], Refused(tries).0, sentNext, refused + 1, cooled);
      assert |answers[1..]| + 1 == |answers| && cooldowns <= cooled;
      assert sent <= r.sent by {
        assert sent <= sentNext && sentNext <= r.sent;
      }
    } else {
      OtherwiseEnds(buffer, input, answers, tries, sent, refused, cooldowns);
    }
  }

  /** The loop is left only on an answer that is not a refusal: LOGINOK, a failed send or a
      lost connection. While every answer so far was a refusal, it is still prompting. */
  lemma {:induction false} LoginEnds(buffer: seq<char>, input: seq<char>, answers: seq<LoginAnswer>,
                                     tries: int, sent: seq<string>, refused: nat, cooldowns: nat)
    requires |buffer| == BUF
    ensures var r := LoginRun(buffer, input, answers, tries, sent, refused, cooldowns);
      (r.ended <==> !r.waiting && r.refused < refused + |answers|) &&
      (r.success ==> r.ended)
    decreases |answers|
  {
    LoginCounts(buffer, input, answers, tries, sent, refused, cooldowns);
    if Refusal(buffer, input, answers) {
      var next, rest, sentNext := RefusalGoesOn(buffer, input, answers, tries, sent, refused, cooldowns);
      LoginEnds(next, rest, answers[1..], Refused(tries).0, sentNext, refused + 1,
                cooldowns + if Refused(tries).1 then 1 else 0);
    } else {
      OtherwiseEnds(buffer, input, answers, tries, sent, refused, cooldowns);
      SuccessIsLoginOk(buffer, input, answers, tries, sent, refused, cooldowns);
    }
  }

  /** The cool-downs slept are exactly those the counter forces for the refusals so far, as
      long as the counter started from 0. */
  lemma {:induction false} CooldownsFollowRefusals(buffer: seq<char>, input: seq<char>, answers: seq<LoginAnswer>,
                                                   sent: seq<string>, refused: nat)
    requires |buffer| == BUF
    ensures var r := LoginRun(buffer, input, answers, TriesAfter(refused), sent, refused, Cooldowns(refused));
      r.cooldowns == Cooldowns(r.refused)
    decreases |answers|
  {
    var tries := TriesAfter(refused);
    if Refusal(buffer, input, answers) {
      var next, rest, sentNext := RefusalGoesOn(buffer, input, answers, tries, sent, refused, Cooldowns(refused));
      RefusedOnce(refused);
      CooldownsFollowRefusals(next, rest, answers[1..], sentNext, refused + 1);
    } else {
      OtherwiseEnds(buffer, input, answers, tries, sent, refused, Cooldowns(refused));
    }
  }

  /** Over a whole login phase, n refusals cost (n - 1) / 2 minutes of sleep. */
  lemma LoginCooldowns(buffer: seq<char>, input: seq<char>, answers: seq<LoginAnswer>)
    requires |buffer| == BUF
    ensures var r := LoginRun(buffer, input, answers, 0, [], 0, 0);
      r.cooldowns == if r.refused == 0 then 0 else (r.refused - 1) / 2
  {
    assert TriesAfter(0) == 0 && Cooldowns(0) == 0;
    CooldownsFollowRefusals(buffer, input, answers, [], 0);
    CooldownsCount(LoginRun(buffer, input, answers, 0, [], 0, 0).refused);
  }
}
