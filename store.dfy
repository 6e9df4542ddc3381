/** The servers' storage routines as they run: the spool and the global `response` buffer are
    the state, every routine walks a directory the way its `readdir` loop does, and each one is
    proved to leave the state `MailSpec` describes. */
module Store {
  import opened CText
  import opened Errno
  import opened Spool
  import opened Paths
  import opened MailSpec

  /** How many characters one `fgets(buffer, BUF, file)` call takes from what is left of a file:
      up to and including the next newline, at most `BUF - 1`. */
  function FgetsLength(s: string): (n: nat)
    requires s != []
    ensures 1 <= n <= |s| && n <= BUF - 1
    ensures n < |s| && n < BUF - 1 ==> s[n - 1] == '\n'
  {
    var line := if |Run(s)| < |s| then |Run(s)| + 1 else |s|;
    if line < BUF - 1 then line else BUF - 1
  }

  /** The first `readdir` loop of `listMail`: the number of messages in a box. */
  method CountMessages(d: Dir) returns (counter: nat)
    requires Proper(d)
    ensures counter == Count(d)
  {
    counter := 0;
    var i := 0;
    while i < |d|
      invariant 0 <= i <= |d|
      invariant counter == Count(d[..i])
    {
      NameTest(d, i);
      CountStep(d, i);
      if d[i].Name() != "." && d[i].Name() != ".." {
        counter := counter + 1;
      }
      i := i + 1;
    }
    assert d[..|d|] == d;
  }

  /** The pieces still to append once entries `d[..i]` are read and `counter` is the next
      ordinal. */
  lemma PiecesFrom(d: Dir, i: nat, counter: nat)
    requires i < |d|
    ensures Pieces(Names(Messages(d[i..])), counter) ==
      if IsMessage(d[i]) then [Decimal(counter), ": ", d[i].Name(), "\n"] + Pieces(Names(Messages(d[i + 1..])), counter + 1)
      else Pieces(Names(Messages(d[i + 1..])), counter)
  {
    MessagesFrom(d, i);
    if IsMessage(d[i]) {
      var ms := Messages(d[i..]);
      assert ms[1..] == Messages(d[i + 1..]);
      assert Names(ms)[1..] == Names(ms[1..]);
    }
  }

  lemma ListingFrom(d: Dir, i: nat, counter: nat)
    requires i < |d|
    ensures Listing(Names(Messages(d[i..])), counter) ==
      if IsMessage(d[i]) then Decimal(counter) + ": " + d[i].Name() + "\n" + Listing(Names(Messages(d[i + 1..])), counter + 1)
      else Listing(Names(Messages(d[i + 1..])), counter)
  {
    MessagesFrom(d, i);
    if IsMessage(d[i]) {
      var ms := Messages(d[i..]);
      assert ms[1..] == Messages(d[i + 1..]);
      assert Names(ms)[1..] == Names(ms[1..]);
    }
  }

  lemma FitCons(response: string, ps: seq<string>)
    requires ps != []
    ensures Fit(response, ps) == if |response| + |ps[0]| > BUF - 2 then response else Fit(response + ps[0], ps[1..])
  {
  }

  /** The second `readdir` loop of the pro `listMail`: number, ": ", subject and newline are
      appended one at a time, and the first that would take the response past `BUF - 2`
      characters ends the listing. */
  method AppendGuarded(header: string, d: Dir) returns (response: string)
    requires Proper(d)
    ensures response == Fit(header, Pieces(Names(Messages(d)), 1))
  {
    ghost var target := Fit(header, Pieces(Names(Messages(d)), 1));
    response := header;
    assert d[0..] == d;
    var counter := 1;
    var i := 0;
    ghost var rem := Pieces(Names(Messages(d[i..])), counter);
    while i < |d|
      invariant 0 <= i <= |d|
      invariant rem == Pieces(Names(Messages(d[i..])), counter)
      invariant Fit(response, rem) == target
    {
      NameTest(d, i);
      PiecesFrom(d, i, counter);
      if d[i].Name() != "." && d[i].Name() != ".." {
        var buffer := Decimal(counter);
        FitCons(response, rem);
        if |response| + |buffer| > BUF - 2 {
          break;
        }
        response := response + buffer;
        rem := rem[1..];
        FitCons(response, rem);
        if |response| + |": "| > BUF - 2 {
          break;
        }
        response := response + ": ";
        rem := rem[1..];
        FitCons(response, rem);
        if |response| + |d[i].Name()| > BUF - 2 {
          break;
        }
        response := response + d[i].Name();
        rem := rem[1..];
        FitCons(response, rem);
        if |response| + |"\n"| > BUF - 2 {
          break;
        }
        response := response + "\n";
        rem := rem[1..];
        counter := counter + 1;
      }
      i := i + 1;
    }
    if i == |d| {
      assert d[i..] == [];
    }
  }

  /** The second `readdir` loop of the basic `listMail`, which appends without a guard. */
  method AppendAll(header: string, d: Dir) returns (response: string)
    requires Proper(d)
    ensures response == header + Listing(Names(Messages(d)), 1)
  {
    ghost var target := header + Listing(Names(Messages(d)), 1);
    response := header;
    assert d[0..] == d;
    var counter := 1;
    var i := 0;
    while i < |d|
      invariant 0 <= i <= |d|
      invariant response + Listing(Names(Messages(d[i..])), counter) == target
    {
      NameTest(d, i);
      ListingFrom(d, i, counter);
      if d[i].Name() != "." && d[i].Name() != ".." {
        ghost var before := response;
        var buffer := Decimal(counter);
        response := response + buffer;
        response := response + ": ";
        response := response + d[i].Name();
        response := response + "\n";
        assert response == before + (buffer + ": " + d[i].Name() + "\n");
        counter := counter + 1;
      }
      i := i + 1;
    }
    assert d[i..] == [];
  }

  /** The `readdir` loop of `readMail`: counting from 0, stop on the message whose count
      reaches `msgnumber`. `found` is whether the loop stopped there (`dir != NULL`). */
  method SeekRead(d: Dir, msgnumber: int) returns (found: bool, i: nat, counter: int)
    requires Proper(d)
    ensures found <==> 1 <= msgnumber <= Count(d)
    ensures found ==> i == NthIndex(d, msgnumber) && counter == msgnumber
    ensures !found ==> counter == Count(d)
  {
    counter := 0;
    i := 0;
    found := false;
    while i < |d|
      invariant 0 <= i <= |d|
      invariant counter == Count(d[..i])
      invariant !(1 <= msgnumber <= counter)
    {
      NameTest(d, i);
      CountStep(d, i);
      if d[i].Name() != "." && d[i].Name() != ".." {
        counter := counter + 1;
        if counter == msgnumber {
          found := true;
          break;
        }
      }
      i := i + 1;
    }
    if found {
      NthIndexAt(d, i, msgnumber);
    } else {
      assert d[..|d|] == d;
    }
  }

  /** The `readdir` loop of `deleteMail`: counting from 1, stop on the message whose number is
      `msgnumber`. */
  method SeekDelete(d: Dir, msgnumber: int) returns (found: bool, i: nat)
    requires Proper(d)
    ensures found <==> 1 <= msgnumber <= Count(d)
    ensures found ==> i == NthIndex(d, msgnumber)
  {
    var counter := 1;
    i := 0;
    found := false;
    while i < |d|
      invariant 0 <= i <= |d|
      invariant counter == Count(d[..i]) + 1
      invariant !(1 <= msgnumber < counter)
    {
      NameTest(d, i);
      CountStep(d, i);
      if d[i].Name() != "." && d[i].Name() != ".." {
        if counter == msgnumber {
          found := true;
          break;
        }
        counter := counter + 1;
      }
      i := i + 1;
    }
    if found {
      NthIndexAt(d, i, msgnumber);
    } else {
      assert d[..|d|] == d;
    }
  }

  /** The `fgets` loop of `readMail`: the file is read piece by piece and every piece appended
      to the response, so the whole file comes out after it. */
  method AppendLines(response: string, contents: string) returns (text: string)
    ensures text == response + contents
  {
    text := response;
    var pos := 0;
    while pos < |contents|
      invariant 0 <= pos <= |contents|
      invariant text == response + contents[..pos]
    {
      var n := FgetsLength(contents[pos..]);
      assert contents[..pos + n] == contents[..pos] + contents[pos..pos + n];
      text := text + contents[pos..pos + n];
      pos := pos + n;
    }
    assert contents[..|contents|] == contents;
  }

  class MailStore {
    /** The directories under /var/spool/mail and what the filesystem refuses. */
    var disk: Disk
    /** The global `char response[BUF]` the session sends after each command. */
    var response: string

    ghost predicate Valid()
      reads this
    {
      WellFormed(disk)
    }

    constructor(disk: Disk)
      requires WellFormed(disk)
      ensures Valid() && this.disk == disk && response == ""
    {
      this.disk := disk;
      response := "";
    }

    /** `errorHandling(errno)`: the catalogue's reply replaces the response. */
    method ErrorHandling(errno: int)
      modifies this
      ensures disk == old(disk) && response == ErrorText(errno)
    {
      response := ErrorText(errno);
    }

    /** `mkdir(<root><rel>, 777)`: `None` when the directory was created; `stray` when it was
        created where the spool value has no place for it. */
    method MakeDir(rel: string) returns (err: Option<int>, stray: bool)
      requires Valid()
      modifies this
      ensures Valid() && response == old(response)
      ensures match Mkdir(old(disk), rel)
        case Made(d) => disk == d && err.None? && !stray
        case NotMade(e) => disk == old(disk) && err == Some(e) && !stray
        case MadeStray => disk == old(disk) && stray
    {
      MkdirEffect(disk, rel);
      match Mkdir(disk, rel)
      case Made(d) =>
        disk := d;
        err, stray := None, false;
      case NotMade(e) =>
        err, stray := Some(e), false;
      case MadeStray =>
        err, stray := None, true;
    }

    /** `fopen(<root><rel>, "w")` followed by the writes and `fclose`: `None` when the file was
        written; `stray` when it was created where the spool value has no place for it. */
    method WriteFile(rel: string, contents: string) returns (err: Option<int>, stray: bool)
      requires Valid()
      modifies this
      ensures Valid() && response == old(response)
      ensures Write(old(disk), rel, contents) == if stray then Strayed(disk) else Saved(disk, err.None?, err)
    {
      var s := Write(disk, rel, contents);
      WriteEffect(disk, rel, contents);
      if s.Strayed? {
        err, stray := None, true;
      } else {
        disk := s.disk;
        err, stray := s.report, false;
      }
    }

    /** `saveMail(user, sender, subject, message, box)`: returns 1 (true) or 0, leaves the
        spool `Save` describes, and reports the failure `Save` names through `errorHandling`. */
    method SaveMail(user: string, sender: string, subject: string, message: string, box: Box) returns (ok: bool, stray: bool)
      requires Valid()
      modifies this
      ensures Valid()
      ensures var s := Save(old(disk), user, sender, subject, message, box);
        disk == s.disk && (stray <==> s.Strayed?) &&
        (s.Saved? ==> ok == s.ok && response == if s.report.Some? then ErrorText(s.report.value) else old(response))
    {
      var record := Record(sender, message);
      var made, lost := MakeDir(user);
      if lost {
        return false, true;
      }
      if made.None? {
        var inMade, inLost := MakeDir(user + BoxDir(In));
        if inLost {
          return false, true;
        }
        if inMade.Some? {
          return false, false;
        }
        var outMade, outLost := MakeDir(user + BoxDir(Out));
        if outLost {
          return false, true;
        }
        if outMade.Some? {
          return false, false;
        }
        var err, wLost := WriteFile(FileRel(user, box, subject), record);
        if wLost {
          return false, true;
        }
        if err.Some? {
          ErrorHandling(err.value);
        }
        ok, stray := err.None?, false;
      } else if made.value == EEXIST {
        var err, wLost := WriteFile(FileRel(user, box, subject), record);
        if wLost {
          return false, true;
        }
        if err.Some? {
          ErrorHandling(err.value);
        }
        ok, stray := err.None?, false;
      } else {
        ErrorHandling(made.value);
        ok, stray := false, false;
      }
    }

    /** The SEND branch of both servers once its arguments are parsed: the two saves, then
        `OK` or `ERR` as the response. */
    method Deliver(sender: string, receiver: string, subject: string, message: string) returns (stray: bool)
      requires Valid()
      modifies this
      ensures Valid()
      ensures MailSpec.Deliver(old(disk), sender, receiver, subject, message) == Step(disk, if stray then Stray else Reply(response))
    {
      var inOk, inLost := SaveMail(receiver, sender, subject, message, In);
      if inLost {
        return true;
      }
      var outOk, outLost := SaveMail(sender, sender, subject, message, Out);
      if outLost {
        return true;
      }
      response := if inOk && outOk then "OK\n" else "ERR\n";
      stray := false;
    }

    /** The pro `listMail(user)`: the header, then as many numbered subjects as fit under the
        length guard. Nothing on disk changes. */
    method ListMailPro(user: string) returns (stray: bool)
      requires Valid()
      modifies this
      ensures Valid() && disk == old(disk)
      ensures ListPro(old(disk), user) == if stray then Stray else Reply(response)
    {
      var o := OpenInbox(disk, user);
      if o.OpenedStray? {
        return true;
      }
      stray := false;
      if o.NotOpened? {
        ErrorHandling(o.errno);
        response := response + "There are 0 messages for user " + user + ".\n";
        return;
      }
      var d := disk.Box(o.user, o.box).value;
      var counter := CountMessages(d);
      var header;
      if counter == 1 {
        header := "There is 1 message for user " + user + ".\n";
      } else {
        header := "There are " + Decimal(counter) + " messages for user " + user + ".\n";
      }
      response := AppendGuarded(header, d);
    }

    /** The basic `listMail(user)`: the header and every numbered subject, with no length
        guard. `overflow` tells when the text no longer fits the `BUF`-character response,
        which the C program then writes past. */
    method ListMailBasic(user: string) returns (overflow: bool, stray: bool)
      requires Valid()
      modifies this
      ensures Valid() && disk == old(disk)
      ensures ListBasic(old(disk), user) == if stray then Stray else if overflow then Crash else Reply(response)
    {
      var o := OpenInbox(disk, user);
      if o.OpenedStray? {
        return false, true;
      }
      stray := false;
      if o.NotOpened? {
        ErrorHandling(o.errno);
        response := response + "There are 0 messages for this user.\n";
        overflow := |response| >= BUF;
        return;
      }
      var d := disk.Box(o.user, o.box).value;
      var counter := CountMessages(d);
      var header;
      if counter == 1 {
        header := "There is 1 message for this user.\n";
      } else {
        header := "There are " + Decimal(counter) + " messages for this user.\n";
      }
      response := AppendAll(header, d);
      overflow := |response| >= BUF;
    }

    /** `readMail(user, msgnumber)`: find the message with that ordinal and show it. `overflow`
        tells when the message no longer fits the response it is appended to. */
    method ReadMail(user: string, msgnumber: int) returns (overflow: bool, stray: bool)
      requires Valid()
      modifies this
      ensures Valid() && disk == old(disk)
      ensures Read(old(disk), user, msgnumber, old(response)) == if stray then Stray else if overflow then Crash else Reply(response)
    {
      var o := OpenInbox(disk, user);
      if o.OpenedStray? {
        return false, true;
      }
      overflow, stray := false, false;
      if o.NotOpened? {
        ErrorHandling(o.errno);
        response := "ERR - does not exist.\n";
        return;
      }
      var d := disk.Box(o.user, o.box).value;
      var found, i, counter := SeekRead(d, msgnumber);
      if msgnumber != counter {
        response := "ERR\nThis message does not exist\n";
      } else if found {
        var path := FilePath(o.user, o.box, d[i].Name());
        if path in disk.refused {
          ErrorHandling(disk.refused[path]);
        } else {
          response := "OK\n";
          response := AppendLines(response, d[i].contents);
          overflow := |response| >= BUF;
        }
      }
    }

    /** `deleteMail(user, msgnumber)`: remove the message with that ordinal. `crashed` is the
        `readdir(NULL)` the routine runs into when the inbox cannot be opened. */
    method DeleteMail(user: string, msgnumber: int) returns (crashed: bool, stray: bool)
      requires Valid()
      modifies this
      ensures Valid()
      ensures var r := Delete(old(disk), user, msgnumber);
        disk == r.disk && r.outcome == if stray then Stray else if crashed then Crash else Reply(response)
    {
      var o := OpenInbox(disk, user);
      if o.OpenedStray? {
        return false, true;
      }
      stray := false;
      if o.NotOpened? {
        ErrorHandling(o.errno);
        return true, false;
      }
      crashed := false;
      var d := disk.Box(o.user, o.box).value;
      var found, i := SeekDelete(d, msgnumber);
      if found {
        var path := FilePath(o.user, o.box, d[i].Name());
        if path in disk.refused {
          ErrorHandling(disk.refused[path]);
        } else {
          DeleteWellFormed(disk, user, msgnumber);
          disk := UpdateBox(disk, o.user, o.box, d[..i] + d[i + 1..]);
          response := "OK\n";
        }
      } else {
        response := "ERR - could not remove message\n";
      }
    }
  }
}
