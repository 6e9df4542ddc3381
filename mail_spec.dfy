/** What `saveMail`, `listMail`, `readMail` and `deleteMail` do to the spool and to the response,
    stated on spool values. The `MailStore` class runs the same operations step by step, the way
    the servers do, and is proved to meet these functions. */
module MailSpec {
  import opened CText
  import opened Errno
  import opened Spool
  import opened Paths

  /** Every directory holds unique names and no file named like a reserved entry. */
  ghost predicate WellFormed(disk: Disk) {
    forall u :: u in disk.homes ==> GoodBox(disk.homes[u].inbox) && GoodBox(disk.homes[u].outbox)
  }

  ghost predicate GoodBox(b: Option<Dir>) {
    b.Some? ==> Unique(b.value) && Proper(b.value)
  }

  /** The messages in a user's box; a missing box holds none. */
  function Mail(disk: Disk, user: string, box: Box): (ms: seq<Dirent>)
    ensures forall i :: 0 <= i < |ms| ==> ms[i].File?
  {
    match disk.Box(user, box)
    case Some(d) => MessagesAreFiles(d); Messages(d)
    case None => []
  }

  function UpdateBox(disk: Disk, user: string, box: Box, d: Dir): (r: Disk)
    requires user in disk.homes
    ensures r.refused == disk.refused && r.homes.Keys == disk.homes.Keys
    ensures r.Box(user, box) == Some(d)
    ensures forall u, b :: (u, b) != (user, box) ==> r.Box(u, b) == disk.Box(u, b)
  {
    disk.(homes := disk.homes[user := disk.homes[user].Set(box, d)])
  }

  /** The box as a save finds it: the existing one, or the empty one `mkdir` would make. */
  function TargetBefore(disk: Disk, user: string, box: Box): Dir {
    match disk.Box(user, box)
    case Some(d) => d
    case None => EmptyDir
  }

  lemma MailOfTarget(disk: Disk, user: string, box: Box)
    ensures Mail(disk, user, box) == Messages(TargetBefore(disk, user, box))
  {
    assert Messages(EmptyDir) == [];
  }

  lemma UpdateBoxWellFormed(disk: Disk, user: string, box: Box, d: Dir)
    requires WellFormed(disk) && user in disk.homes && GoodBox(Some(d))
    ensures WellFormed(UpdateBox(disk, user, box, d))
  {
    var r := UpdateBox(disk, user, box, d);
    forall u | u in r.homes ensures GoodBox(r.homes[u].inbox) && GoodBox(r.homes[u].outbox) {
      if u == user {
        assert r.homes[u].Get(box) == Some(d);
      }
    }
  }

  // ---------------------------------------------------------------------------------------------
  // mkdir and fopen for writing, under the spool root

  /** What `mkdir(<root><rel>, 777)` leaves: a spool with one more home or box, an errno, or an
      outcome the spool value cannot record (`MadeStray`: a path above the root, where `mkdir`
      may create a directory or fail, a new directory inside a box, or a home's sub-directory
      other than `in` and `out`). */
  datatype Made = Made(disk: Disk) | NotMade(errno: int) | MadeStray

  function Mkdir(disk: Disk, rel: string): Made {
    var t := Locate(disk, rel);
    match t
    case Unreachable(e) => NotMade(e)
    case Outside => MadeStray
    case Directory(_) => NotMade(EEXIST)
    case Entry(u, b, n) =>
      if Find(disk.Box(u, b).value, n).Some? then NotMade(EEXIST)
      else if FilePath(u, b, n) in disk.refused then NotMade(disk.refused[FilePath(u, b, n)])
      else MadeStray
    case Absent(None, n) =>
      if HomePath(n) in disk.refused then NotMade(disk.refused[HomePath(n)])
      else Made(disk.(homes := disk.homes[n := Home(None, None)]))
    case Absent(Some(u), n) =>
      if BoxNamed(n).None? then MadeStray
      else if BoxPath(u, BoxNamed(n).value) in disk.refused then NotMade(disk.refused[BoxPath(u, BoxNamed(n).value)])
      else Made(UpdateBox(disk, u, BoxNamed(n).value, EmptyDir))
  }

  /** A `mkdir` that succeeds adds an empty home or an empty box: every box reads as it did
      (a missing box as empty), every home stays, the refusals stay, and directories stay well
      formed. */
  lemma MkdirEffect(disk: Disk, rel: string)
    ensures var m := Mkdir(disk, rel);
      m.Made? ==>
        m.disk.refused == disk.refused && disk.homes.Keys <= m.disk.homes.Keys &&
        (forall u, b :: TargetBefore(m.disk, u, b) == TargetBefore(disk, u, b)) &&
        (WellFormed(disk) ==> WellFormed(m.disk))
  {
    var t := Locate(disk, rel);
    if t.Absent? && t.home.Some? && BoxNamed(t.name).Some? && Mkdir(disk, rel).Made? {
      assert GoodBox(Some(EmptyDir));
      if WellFormed(disk) {
        UpdateBoxWellFormed(disk, t.home.value, BoxNamed(t.name).value, EmptyDir);
      }
    }
  }

  /** The spool after a save and either whether it returned 1 and the errno it handed to
      `errorHandling`, or (`Strayed`) that it created a file or directory where the spool value
      has no place for one; `disk` is then the spool before that call. */
  datatype Saved = Saved(disk: Disk, ok: bool, report: Option<int>) | Strayed(disk: Disk)

  /** `fopen(<root><rel>, "w")`, the writes and `fclose`. */
  function Write(disk: Disk, rel: string, contents: string): Saved {
    var t := Locate(disk, rel);
    match t
    case Unreachable(e) => Saved(disk, false, Some(e))
    case Outside => Strayed(disk)
    case Directory(_) => Saved(disk, false, Some(EISDIR))
    case Absent(_, _) => if EndsInSlash(rel) then Saved(disk, false, Some(EISDIR)) else Strayed(disk)
    case Entry(u, b, n) =>
      if EndsInSlash(rel) then Saved(disk, false, Some(EISDIR))
      else if FilePath(u, b, n) in disk.refused then Saved(disk, false, Some(disk.refused[FilePath(u, b, n)]))
      else Saved(UpdateBox(disk, u, b, Put(disk.Box(u, b).value, n, contents)), true, None)
  }

  /** `fopen` for writing succeeds exactly on a name inside a box whose path is not refused; it
      then puts the contents under that name in that box and changes no other box. A failed
      open changes nothing; a new file anywhere but in a box strays. */
  lemma WriteEffect(disk: Disk, rel: string, contents: string)
    ensures var s := Write(disk, rel, contents);
      var t := Locate(disk, rel);
      s.disk.refused == disk.refused &&
      (s.Strayed? <==> t.Outside? || (t.Absent? && !EndsInSlash(rel))) &&
      (s.Saved? && s.ok <==> t.Entry? && !EndsInSlash(rel) && FilePath(t.user, t.box, t.name) !in disk.refused) &&
      (s.Saved? && s.ok ==>
        s.disk.Box(t.user, t.box) == Some(Put(disk.Box(t.user, t.box).value, t.name, contents)) &&
        forall u, b :: (u, b) != (t.user, t.box) ==> s.disk.Box(u, b) == disk.Box(u, b)) &&
      (!(s.Saved? && s.ok) ==> s.disk == disk) &&
      (WellFormed(disk) ==> WellFormed(s.disk))
  {
    var t := Locate(disk, rel);
    var s := Write(disk, rel, contents);
    if s.Saved? && s.ok && WellFormed(disk) {
      var d := disk.Box(t.user, t.box).value;
      PutUnique(d, t.name, contents);
      UpdateBoxWellFormed(disk, t.user, t.box, Put(d, t.name, contents));
    }
  }

  // ---------------------------------------------------------------------------------------------
  // saveMail

  /** The directory part of `saveMail`: the spool its `fopen` runs on, or how the save ended
      before that. */
  datatype Prepared = Ready(disk: Disk) | Stopped(saved: Saved)

  /** `mkdir` of the home decides between a new user (create `in`, then `out`) and an existing
      one (straight to the write); any other `mkdir` failure is reported. A failing `in` or
      `out` is not reported. */
  function MakeDirs(disk: Disk, user: string): Prepared {
    match Mkdir(disk, user)
    case MadeStray => Stopped(Strayed(disk))
    case NotMade(e) => if e == EEXIST then Ready(disk) else Stopped(Saved(disk, false, Some(e)))
    case Made(home) =>
      match Mkdir(home, user + BoxDir(In))
      case MadeStray => Stopped(Strayed(home))
      case NotMade(_) => Stopped(Saved(home, false, None))
      case Made(withIn) =>
        match Mkdir(withIn, user + BoxDir(Out))
        case MadeStray => Stopped(Strayed(withIn))
        case NotMade(_) => Stopped(Saved(withIn, false, None))
        case Made(both) => Ready(both)
  }

  /** The file a save writes: `<user>` + `"/in/"` or `"/out/"` + `<subject>`. */
  function FileRel(user: string, box: Box, subject: string): string {
    user + BoxDir(box) + "/" + subject
  }

  /** `saveMail(user, sender, subject, message, box)`. */
  function Save(disk: Disk, user: string, sender: string, subject: string, message: string, box: Box): Saved {
    match MakeDirs(disk, user)
    case Stopped(s) => s
    case Ready(d) => Write(d, FileRel(user, box, subject), Record(sender, message))
  }

  /** Making the directories adds no message anywhere, keeps the refusals and the directories
      well formed, and a save that stops there has failed. */
  lemma MakeDirsEffect(disk: Disk, user: string)
    ensures var p := MakeDirs(disk, user);
      var d := if p.Ready? then p.disk else p.saved.disk;
      d.refused == disk.refused &&
      (forall u, b :: TargetBefore(d, u, b) == TargetBefore(disk, u, b)) &&
      (WellFormed(disk) ==> WellFormed(d)) &&
      (p.Stopped? && p.saved.Saved? ==> !p.saved.ok)
  {
    MkdirEffect(disk, user);
    var m := Mkdir(disk, user);
    if m.Made? {
      MkdirEffect(m.disk, user + BoxDir(In));
      var mIn := Mkdir(m.disk, user + BoxDir(In));
      if mIn.Made? {
        MkdirEffect(mIn.disk, user + BoxDir(Out));
      }
    }
  }

  /** `saveMail` writes at most one file: the one its file path leads to once the directories
      are made. When it returns 1 that box holds the record under the last component of the
      path, and any box whose messages changed is that box; a failed or stray save changes no
      box's messages. The refusals stay as they were. */
  lemma SaveEffect(disk: Disk, user: string, sender: string, subject: string, message: string, box: Box)
    ensures var s := Save(disk, user, sender, subject, message, box);
      var p := MakeDirs(disk, user);
      var t := if p.Ready? then Locate(p.disk, FileRel(user, box, subject)) else Outside;
      s.disk.refused == disk.refused &&
      (s.Saved? && s.ok ==>
        t.Entry? &&
        s.disk.Box(t.user, t.box) == Some(Put(TargetBefore(disk, t.user, t.box), t.name, Record(sender, message)))) &&
      (forall u, b :: Mail(s.disk, u, b) != Mail(disk, u, b) ==> s.Saved? && s.ok && t.Entry? && (t.user, t.box) == (u, b))
  {
    var p := MakeDirs(disk, user);
    MakeDirsEffect(disk, user);
    var d := if p.Ready? then p.disk else p.saved.disk;
    forall u, b ensures Mail(d, u, b) == Mail(disk, u, b) {
      MailOfTarget(d, u, b);
      MailOfTarget(disk, u, b);
    }
    if p.Ready? {
      var rel := FileRel(user, box, subject);
      WriteEffect(p.disk, rel, Record(sender, message));
    }
  }

  /** Saving keeps every directory well formed. */
  lemma SaveWellFormed(disk: Disk, user: string, sender: string, subject: string, message: string, box: Box)
    requires WellFormed(disk)
    ensures WellFormed(Save(disk, user, sender, subject, message, box).disk)
  {
    var p := MakeDirs(disk, user);
    MakeDirsEffect(disk, user);
    if p.Ready? {
      WriteEffect(p.disk, FileRel(user, box, subject), Record(sender, message));
    }
  }

  // The servers' intended use: a user name that is a single name, a subject without '/'.

  /** When a save succeeds for such names: the user has both boxes, the subject is a name a file
      can have, and no path on the way was refused. */
  predicate CanSave(disk: Disk, user: string, box: Box, subject: string) {
    IsPlainName(subject) && FilePath(user, box, subject) !in disk.refused &&
    if user in disk.homes then disk.homes[user].Get(box).Some?
    else HomePath(user) !in disk.refused && BoxPath(user, In) !in disk.refused && BoxPath(user, Out) !in disk.refused
  }

  /** For a user name that is a single name, the directories made are the user's own: nothing
      for an existing home, a reported failure for a refused one, and otherwise the home, then
      `in`, then `out`, each stopping the save when refused. */
  lemma MakeDirsPlain(disk: Disk, user: string)
    requires IsPlainName(user)
    ensures MakeDirs(disk, user) ==
      if user in disk.homes then Ready(disk)
      else if HomePath(user) in disk.refused then
        (if disk.refused[HomePath(user)] == EEXIST then Ready(disk)
         else Stopped(Saved(disk, false, Some(disk.refused[HomePath(user)]))))
      else
        var home := disk.(homes := disk.homes[user := Home(None, None)]);
        if BoxPath(user, In) in disk.refused then Stopped(Saved(home, false, None))
        else
          var withIn := UpdateBox(home, user, In, EmptyDir);
          if BoxPath(user, Out) in disk.refused then Stopped(Saved(withIn, false, None))
          else Ready(UpdateBox(withIn, user, Out, EmptyDir))
  {
    LocateHome(disk, user);
    if user !in disk.homes && HomePath(user) !in disk.refused {
      var home := disk.(homes := disk.homes[user := Home(None, None)]);
      LocateBox(home, user, In);
      assert BoxNamed("in") == Some(In);
      if BoxPath(user, In) !in disk.refused {
        var withIn := UpdateBox(home, user, In, EmptyDir);
        LocateBox(withIn, user, Out);
        assert BoxNamed("out") == Some(Out);
      }
    }
  }

  /** For a user name that is a single name and a subject without '/', the write goes to the
      user's own box: it fails with ENOENT when that box is missing, with EISDIR for the empty,
      "." and ".." subjects, with the refusal of a refused file, and otherwise puts the file. */
  lemma WritePlain(disk: Disk, user: string, box: Box, subject: string, contents: string)
    requires IsPlainName(user) && '/' !in subject
    ensures Write(disk, FileRel(user, box, subject), contents) ==
      if subject == "" && user in disk.homes then Saved(disk, false, Some(EISDIR))
      else if disk.Box(user, box).None? then Saved(disk, false, Some(ENOENT))
      else if !IsPlainName(subject) then Saved(disk, false, Some(EISDIR))
      else if FilePath(user, box, subject) in disk.refused then Saved(disk, false, Some(disk.refused[FilePath(user, box, subject)]))
      else Saved(UpdateBox(disk, user, box, Put(disk.Box(user, box).value, subject, contents)), true, None)
  {
    var rel := FileRel(user, box, subject);
    if subject == "" {
      assert rel == user + BoxDir(box) + "/" + "";
      ComponentsJoin(user + BoxDir(box), "");
      assert Components("") == [];
      assert Components(rel) == Components(user + BoxDir(box));
      LocateBox(disk, user, box);
      assert EndsInSlash(rel);
    } else {
      LocateFile(disk, user, box, subject);
      assert rel[|rel| - 1] == subject[|subject| - 1];
      assert subject[|subject| - 1] in subject;
    }
  }

  /** For a user name that is a single name and a subject without '/', `saveMail` returns 1
      exactly when `CanSave` holds; then the user's box is the one found before, with the
      record put under the subject, and no other box changes its messages. A failed save writes
      no message anywhere; no such save strays. The refusals stay as they were. */
  lemma SavePlain(disk: Disk, user: string, sender: string, subject: string, message: string, box: Box)
    requires IsPlainName(user) && '/' !in subject
    ensures var s := Save(disk, user, sender, subject, message, box);
      s.Saved? && s.disk.refused == disk.refused &&
      (s.ok <==> CanSave(disk, user, box, subject)) &&
      (s.ok ==> s.disk.Box(user, box) == Some(Put(TargetBefore(disk, user, box), subject, Record(sender, message)))) &&
      (forall u, b :: (u, b) != (user, box) ==> Mail(s.disk, u, b) == Mail(disk, u, b)) &&
      (!s.ok ==> Mail(s.disk, user, box) == Mail(disk, user, box))
  {
    SavePlainResult(disk, user, sender, subject, message, box);
    SaveEffect(disk, user, sender, subject, message, box);
    var s := Save(disk, user, sender, subject, message, box);
    if s.ok {
      SavedPlainEntry(disk, user, sender, subject, message, box);
    }
  }

  /** A save that succeeds for a single user name and a subject without '/' writes the file
      those names give. */
  lemma SavedPlainEntry(disk: Disk, user: string, sender: string, subject: string, message: string, box: Box)
    requires IsPlainName(user) && '/' !in subject
    requires var s := Save(disk, user, sender, subject, message, box); s.Saved? && s.ok
    ensures MakeDirs(disk, user).Ready? &&
      Locate(MakeDirs(disk, user).disk, FileRel(user, box, subject)) == Entry(user, box, subject)
  {
    MakeDirsEffect(disk, user);
    MakeDirsPlain(disk, user);
    var p := MakeDirs(disk, user);
    WritePlain(p.disk, user, box, subject, Record(sender, message));
    LocateFile(p.disk, user, box, subject);
  }

  /** The result of a save for a single user name and a subject without '/'. */
  lemma SavePlainResult(disk: Disk, user: string, sender: string, subject: string, message: string, box: Box)
    requires IsPlainName(user) && '/' !in subject
    ensures var s := Save(disk, user, sender, subject, message, box);
      s.Saved? && s.disk.refused == disk.refused &&
      (s.ok <==> CanSave(disk, user, box, subject)) &&
      (s.ok ==> s.disk.Box(user, box) == Some(Put(TargetBefore(disk, user, box), subject, Record(sender, message))))
  {
    var record := Record(sender, message);
    MakeDirsPlain(disk, user);
    var p := MakeDirs(disk, user);
    if p.Ready? {
      MakeDirsEffect(disk, user);
      WritePlain(p.disk, user, box, subject, record);
      if user !in disk.homes && HomePath(user) !in disk.refused {
        assert p.disk.Box(user, box) == Some(EmptyDir);
      }
    }
  }


  /** A save under a subject the box already holds replaces that message in place: same count,
      same numbering, new contents. */
  lemma SaveOverwrites(disk: Disk, user: string, sender: string, subject: string, message: string, box: Box, j: nat)
    requires WellFormed(disk) && IsPlainName(user)
    requires j < |Mail(disk, user, box)| && Mail(disk, user, box)[j].Name() == subject
    requires CanSave(disk, user, box, subject)
    ensures Mail(Save(disk, user, sender, subject, message, box).disk, user, box)
         == Mail(disk, user, box)[j := File(subject, Record(sender, message))]
  {
    SavePlain(disk, user, sender, subject, message, box);
    PutExisting(disk.Box(user, box).value, subject, Record(sender, message), j);
  }

  /** A save under a new subject adds one message, numbered last. */
  lemma SaveAppends(disk: Disk, user: string, sender: string, subject: string, message: string, box: Box)
    requires IsPlainName(user)
    requires forall m :: m in Mail(disk, user, box) ==> m.Name() != subject
    requires CanSave(disk, user, box, subject)
    ensures Mail(Save(disk, user, sender, subject, message, box).disk, user, box)
         == Mail(disk, user, box) + [File(subject, Record(sender, message))]
  {
    SavePlain(disk, user, sender, subject, message, box);
    var target := TargetBefore(disk, user, box);
    MailOfTarget(disk, user, box);
    FreshInBox(target, subject);
    PutFresh(target, subject, Record(sender, message));
  }

  /** A name no message of a box carries is carried by no entry of it. */
  lemma FreshInBox(d: Dir, name: string)
    requires IsPlainName(name) && forall m :: m in Messages(d) ==> m.Name() != name
    ensures forall i :: 0 <= i < |d| ==> d[i].Name() != name
  {
    forall i | 0 <= i < |d| ensures d[i].Name() != name {
      if d[i].File? {
        MessagesSplit(d, i);
        MessagesOfEntry(d[i]);
        assert d[i] in Messages(d);
      }
    }
  }

  /** A save for one user, both names plain, leaves every other user's boxes as they were. */
  lemma SaveLeavesOthers(disk: Disk, user: string, sender: string, subject: string, message: string, box: Box, other: string)
    requires IsPlainName(user) && '/' !in subject && other != user
    ensures var after := Save(disk, user, sender, subject, message, box).disk;
      after.refused == disk.refused && after.Box(other, In) == disk.Box(other, In) && after.Box(other, Out) == disk.Box(other, Out)
  {
    var record := Record(sender, message);
    MakeDirsPlain(disk, user);
    var p := MakeDirs(disk, user);
    if p.Ready? {
      WritePlain(p.disk, user, box, subject, record);
    }
  }

  // ---------------------------------------------------------------------------------------------
  // SEND

  /** What a request makes of the session: a response that is sent; the end of the process (a
      NULL pointer handed to the C library, or a response written past the end of its buffer);
      or a file or directory created where the spool value has no place for one, after which
      this model does not follow the session. */
  datatype Outcome = Reply(text: string) | Crash | Stray

  /** The spool after a request and what became of the request. */
  datatype Step = Step(disk: Disk, outcome: Outcome)

  /** The two saves of a SEND: into the receiver's inbox, then, whatever that gave, into the
      sender's outbox. Only two successful saves give `OK`. */
  function Deliver(disk: Disk, sender: string, receiver: string, subject: string, message: string): Step {
    var inbox := Save(disk, receiver, sender, subject, message, In);
    if inbox.Strayed? then Step(inbox.disk, Stray)
    else
      var outbox := Save(inbox.disk, sender, sender, subject, message, Out);
      if outbox.Strayed? then Step(outbox.disk, Stray)
      else Step(outbox.disk, Reply(if inbox.ok && outbox.ok then "OK\n" else "ERR\n"))
  }

  /** For user names that are single names and a subject without '/': the reply is `OK` exactly
      when both saves can succeed, and then the message, signed with the sender's name, is in
      the receiver's inbox and the sender's outbox. */
  lemma DeliverOk(disk: Disk, sender: string, receiver: string, subject: string, message: string)
    requires IsPlainName(sender) && IsPlainName(receiver) && '/' !in subject
    ensures var s := Deliver(disk, sender, receiver, subject, message);
      var inbox := Save(disk, receiver, sender, subject, message, In);
      s.outcome.Reply? &&
      (s.outcome == Reply("OK\n") <==> CanSave(disk, receiver, In, subject) && CanSave(inbox.disk, sender, Out, subject)) &&
      (s.outcome == Reply("OK\n") ==>
        File(subject, Record(sender, message)) in Mail(s.disk, receiver, In) &&
        File(subject, Record(sender, message)) in Mail(s.disk, sender, Out))
  {
    var inbox := Save(disk, receiver, sender, subject, message, In);
    var outbox := Save(inbox.disk, sender, sender, subject, message, Out);
    SavePlain(disk, receiver, sender, subject, message, In);
    SavePlain(inbox.disk, sender, sender, subject, message, Out);
    if inbox.ok && outbox.ok {
      var record := Record(sender, message);
      PutHolds(TargetBefore(disk, receiver, In), subject, record);
      PutHolds(TargetBefore(inbox.disk, sender, Out), subject, record);
      assert Mail(outbox.disk, receiver, In) == Mail(inbox.disk, receiver, In);
    }
  }

  lemma WalkCons(disk: Disk, w: Where, c: string, cs: seq<string>)
    requires Present(disk, w)
    ensures Walk(disk, w, [c] + cs) == Walk(disk, Down(disk, w, c), cs)
  {
    assert ([c] + cs)[1..] == cs;
  }

  lemma JoinName(c: string, rest: string)
    requires c != "" && '/' !in c
    ensures Components(c + "/" + rest) == [c] + Components(rest)
  {
    ComponentsJoin(c, rest);
    ComponentsOfName(c);
  }

  /** Names joined by '/'. */
  function JoinNames(cs: seq<string>): string
    requires cs != []
    decreases |cs|
  {
    if |cs| == 1 then cs[0] else cs[0] + "/" + JoinNames(cs[1..])
  }

  /** Names joined by '/' split back into those names. */
  lemma {:induction false} NamesRejoined(cs: seq<string>)
    requires cs != [] && forall i :: 0 <= i < |cs| ==> cs[i] != "" && '/' !in cs[i]
    ensures Components(JoinNames(cs)) == cs
    decreases |cs|
  {
    if |cs| == 1 {
      ComponentsOfName(cs[0]);
    } else {
      NamesRejoined(cs[1..]);
      JoinName(cs[0], JoinNames(cs[1..]));
    }
  }

  /** Five names joined by '/' split back into those five names. */
  lemma FiveNames(a: string, b: string, c: string, d: string, e: string)
    requires a != "" && '/' !in a && b != "" && '/' !in b && c != "" && '/' !in c
    requires d != "" && '/' !in d && e != "" && '/' !in e
    ensures Components(a + "/" + (b + "/" + (c + "/" + (d + "/" + e)))) == [a, b, c, d, e]
  {
    assert JoinNames([d, e]) == d + "/" + e by {
      assert [d, e][1..] == [e];
    }
    assert JoinNames([c, d, e]) == c + "/" + (d + "/" + e) by {
      assert [c, d, e][1..] == [d, e];
    }
    assert JoinNames([b, c, d, e]) == b + "/" + (c + "/" + (d + "/" + e)) by {
      assert [b, c, d, e][1..] == [c, d, e];
    }
    assert JoinNames([a, b, c, d, e]) == a + "/" + (b + "/" + (c + "/" + (d + "/" + e))) by {
      assert [a, b, c, d, e][1..] == [b, c, d, e];
    }
    NamesRejoined([a, b, c, d, e]);
  }

  /** The components of a subject that climbs out of a box into another user's inbox. */
  lemma ClimbingComponents(victim: string, name: string)
    requires IsPlainName(victim) && IsPlainName(name)
    ensures Components(".." + "/" + (".." + "/" + (victim + "/" + ("in" + "/" + name)))) == ["..", "..", victim, "in", name]
  {
    FiveNames("..", "..", victim, "in", name);
  }

  lemma ClimbFileComponents(user: string, box: Box, victim: string, name: string)
    requires IsPlainName(user) && IsPlainName(victim) && IsPlainName(name)
    ensures var subject := ".." + "/" + (".." + "/" + (victim + "/" + ("in" + "/" + name)));
      Components(FileRel(user, box, subject)) == [user, if box == In then "in" else "out", "..", "..", victim, "in", name]
  {
    var subject := ".." + "/" + (".." + "/" + (victim + "/" + ("in" + "/" + name)));
    ClimbingComponents(victim, name);
    FileComponents(user, box, subject);
    ComponentsOfName(user);
  }

  lemma ClimbWalk(d: Disk, user: string, box: Box, victim: string, name: string)
    requires IsPlainName(user) && IsPlainName(victim) && IsPlainName(name)
    requires d.Box(user, box).Some? && d.Box(victim, In).Some?
    ensures At(d, [user, if box == In then "in" else "out", "..", "..", victim, "in", name]) == Entry(victim, In, name)
  {
    var bn := if box == In then "in" else "out";
    assert BoxNamed(bn) == Some(box) && BoxNamed("in") == Some(In);
    var cs := [user, bn, "..", "..", victim, "in", name];
    assert cs[..|cs| - 1] == [user] + ([bn] + ([".."] + ([".."] + ([victim] + ["in"]))));
    WalkCons(d, AtRoot, user, [bn] + ([".."] + ([".."] + ([victim] + ["in"]))));
    WalkCons(d, AtHome(user), bn, [".."] + ([".."] + ([victim] + ["in"])));
    WalkCons(d, AtBox(user, box), "..", [".."] + ([victim] + ["in"]));
    WalkCons(d, AtHome(user), "..", [victim] + ["in"]);
    WalkCons(d, AtRoot, victim, ["in"]);
    WalkCons(d, AtHome(victim), "in", []);
  }

  /** From the sender's or the receiver's box, the climbing subject leads to `name` in the
      victim's inbox. */
  lemma ClimbLocate(d: Disk, user: string, box: Box, victim: string, name: string)
    requires IsPlainName(user) && IsPlainName(victim) && IsPlainName(name)
    requires d.Box(user, box).Some? && d.Box(victim, In).Some?
    ensures var subject := ".." + "/" + (".." + "/" + (victim + "/" + ("in" + "/" + name)));
      Locate(d, FileRel(user, box, subject)) == Entry(victim, In, name) &&
      !EndsInSlash(FileRel(user, box, subject))
  {
    var subject := ".." + "/" + (".." + "/" + (victim + "/" + ("in" + "/" + name)));
    ClimbFileComponents(user, box, victim, name);
    ClimbWalk(d, user, box, victim, name);
    var rel := FileRel(user, box, subject);
    assert rel[|rel| - 1] == name[|name| - 1];
    assert name[|name| - 1] in name;
  }

  /** A save from an existing home under the climbing subject writes into the victim's inbox. */
  lemma SaveClimbs(disk: Disk, user: string, sender: string, box: Box, victim: string, name: string, message: string)
    requires IsPlainName(user) && IsPlainName(victim) && IsPlainName(name)
    requires disk.Box(user, box).Some? && disk.Box(victim, In).Some? && FilePath(victim, In, name) !in disk.refused
    ensures var subject := ".." + "/" + (".." + "/" + (victim + "/" + ("in" + "/" + name)));
      Save(disk, user, sender, subject, message, box) ==
        Saved(UpdateBox(disk, victim, In, Put(disk.Box(victim, In).value, name, Record(sender, message))), true, None)
  {
    MakeDirsPlain(disk, user);
    ClimbLocate(disk, user, box, victim, name);
  }

  /** A subject is not confined to the box it is sent to: a SEND under the subject
      `../../<victim>/in/<name>` between any two users whose boxes exist succeeds, and both
      copies land in a third user's inbox as one new message while the receiver's inbox and
      the sender's outbox get nothing. */
  lemma DeliverClimbs(disk: Disk, sender: string, receiver: string, victim: string, name: string, message: string)
    requires IsPlainName(sender) && IsPlainName(receiver) && IsPlainName(victim) && IsPlainName(name)
    requires receiver != victim
    requires disk.Box(receiver, In).Some? && disk.Box(sender, Out).Some? && disk.Box(victim, In).Some?
    requires FilePath(victim, In, name) !in disk.refused
    requires forall m :: m in Mail(disk, victim, In) ==> m.Name() != name
    ensures var s := Deliver(disk, sender, receiver, ".." + "/" + (".." + "/" + (victim + "/" + ("in" + "/" + name))), message);
      s.outcome == Reply("OK\n") &&
      Mail(s.disk, victim, In) == Mail(disk, victim, In) + [File(name, Record(sender, message))] &&
      Mail(s.disk, receiver, In) == Mail(disk, receiver, In) && Mail(s.disk, sender, Out) == Mail(disk, sender, Out)
  {
    var inbox := disk.Box(victim, In).value;
    FreshInBox(inbox, name);
    ClimbedTwice(disk, sender, receiver, victim, name, message);
    MessagesSnoc(inbox, File(name, Record(sender, message)));
  }

  /** Both saves of the climbing SEND put the one file into the victim's inbox. */
  lemma ClimbedTwice(disk: Disk, sender: string, receiver: string, victim: string, name: string, message: string)
    requires IsPlainName(sender) && IsPlainName(receiver) && IsPlainName(victim) && IsPlainName(name)
    requires disk.Box(receiver, In).Some? && disk.Box(sender, Out).Some? && disk.Box(victim, In).Some?
    requires FilePath(victim, In, name) !in disk.refused
    requires forall i :: 0 <= i < |disk.Box(victim, In).value| ==> disk.Box(victim, In).value[i].Name() != name
    ensures var subject := ".." + "/" + (".." + "/" + (victim + "/" + ("in" + "/" + name)));
      Deliver(disk, sender, receiver, subject, message) ==
        Step(UpdateBox(disk, victim, In, disk.Box(victim, In).value + [File(name, Record(sender, message))]), Reply("OK\n"))
  {
    var subject := ".." + "/" + (".." + "/" + (victim + "/" + ("in" + "/" + name)));
    var record := Record(sender, message);
    var inbox := disk.Box(victim, In).value;
    var held := inbox + [File(name, record)];
    var mid := UpdateBox(disk, victim, In, held);
    SaveClimbsFresh(disk, receiver, sender, In, victim, name, message);
    FindAppended(inbox, File(name, record));
    SaveClimbsAgain(mid, sender, sender, Out, victim, name, message, |inbox|);
  }

  /** The climbing save of a name the victim's inbox does not hold adds it at the end. */
  lemma SaveClimbsFresh(disk: Disk, user: string, sender: string, box: Box, victim: string, name: string, message: string)
    requires IsPlainName(user) && IsPlainName(victim) && IsPlainName(name)
    requires disk.Box(user, box).Some? && disk.Box(victim, In).Some? && FilePath(victim, In, name) !in disk.refused
    requires forall i :: 0 <= i < |disk.Box(victim, In).value| ==> disk.Box(victim, In).value[i].Name() != name
    ensures var subject := ".." + "/" + (".." + "/" + (victim + "/" + ("in" + "/" + name)));
      Save(disk, user, sender, subject, message, box) ==
        Saved(UpdateBox(disk, victim, In, disk.Box(victim, In).value + [File(name, Record(sender, message))]), true, None)
  {
    SaveClimbs(disk, user, sender, box, victim, name, message);
    var inbox := disk.Box(victim, In).value;
    assert Put(inbox, name, Record(sender, message)) == inbox + [File(name, Record(sender, message))];
  }

  /** The climbing save of a file the victim's inbox already holds with those contents changes
      nothing. */
  lemma SaveClimbsAgain(disk: Disk, user: string, sender: string, box: Box, victim: string, name: string, message: string, i: nat)
    requires IsPlainName(user) && IsPlainName(victim) && IsPlainName(name)
    requires disk.Box(user, box).Some? && disk.Box(victim, In).Some? && FilePath(victim, In, name) !in disk.refused
    requires Find(disk.Box(victim, In).value, name) == Some(i)
    requires disk.Box(victim, In).value[i] == File(name, Record(sender, message))
    ensures var subject := ".." + "/" + (".." + "/" + (victim + "/" + ("in" + "/" + name)));
      Save(disk, user, sender, subject, message, box) == Saved(disk, true, None)
  {
    SaveClimbs(disk, user, sender, box, victim, name, message);
    var inbox := disk.Box(victim, In).value;
    assert Put(inbox, name, Record(sender, message)) == inbox;
    assert UpdateBox(disk, victim, In, inbox) == disk;
  }

  // ---------------------------------------------------------------------------------------------
  // Opening the inbox

  /** What `opendir(<root><user>/in)` gives: the box it opens, the errno it fails with, or a
      directory the spool value has no place for. */
  datatype Opened = Opened(user: string, box: Box) | NotOpened(errno: int) | OpenedStray

  function OpenInbox(disk: Disk, user: string): (o: Opened)
    ensures o.Opened? ==> disk.Box(o.user, o.box).Some?
  {
    var t := Locate(disk, user + BoxDir(In));
    match t
    case Directory(w) =>
      if !w.AtBox? then OpenedStray
      else if BoxPath(w.user, w.box) in disk.refused then NotOpened(disk.refused[BoxPath(w.user, w.box)])
      else Opened(w.user, w.box)
    case Entry(u, b, n) => NotOpened(if Find(disk.Box(u, b).value, n).Some? then ENOTDIR else ENOENT)
    case Absent(_, _) => NotOpened(ENOENT)
    case Unreachable(e) => NotOpened(e)
    case Outside => OpenedStray
  }

  /** For a user name that is a single name, the inbox opened is that user's own: missing gives
      ENOENT, refused gives its errno. */
  lemma OpenPlain(disk: Disk, user: string)
    requires IsPlainName(user)
    ensures OpenInbox(disk, user) ==
      if disk.Box(user, In).None? then NotOpened(ENOENT)
      else if BoxPath(user, In) in disk.refused then NotOpened(disk.refused[BoxPath(user, In)])
      else Opened(user, In)
  {
    LocateBox(disk, user, In);
  }

  /** The box an inbox path opens depends on which homes and boxes exist, not on what they hold. */
  lemma OpenSameShape(d1: Disk, d2: Disk, user: string)
    requires SameShape(d1, d2) && d1.refused == d2.refused && OpenInbox(d1, user).Opened?
    ensures OpenInbox(d2, user) == OpenInbox(d1, user)
  {
    LocateSameShape(d1, d2, user + BoxDir(In));
  }

  // ---------------------------------------------------------------------------------------------
  // readMail

  /** A response the global `response[BUF]` holds with its terminating NUL is sent; a longer
      one has been written past the end of the buffer, taken as the end of the process. */
  function Fits(text: string): (r: Outcome)
    ensures r.Reply? <==> |text| < BUF
  {
    if |text| >= BUF then Crash else Reply(text)
  }

  /** `readMail(user, k)`, given the response before it. The message is appended to "OK\n"
      `fgets` piece by `fgets` piece with no length check. */
  function Read(disk: Disk, user: string, k: int, prev: string): Outcome {
    match OpenInbox(disk, user)
    case OpenedStray => Stray
    case NotOpened(_) => Reply("ERR - does not exist.\n")
    case Opened(u, b) =>
      var d := disk.Box(u, b).value;
      if 1 <= k <= Count(d) then
        var m := d[NthIndex(d, k)];
        var path := FilePath(u, b, m.name);
        if path in disk.refused then Reply(ErrorText(disk.refused[path])) else Fits("OK\n" + m.contents)
      else if k == 0 && Count(d) == 0 then Reply(prev)
      else Reply("ERR\nThis message does not exist\n")
  }

  /** The k-th message of the listing is the one READ k shows, when it fits the response. */
  lemma ReadShowsNth(disk: Disk, user: string, k: int, prev: string)
    requires OpenInbox(disk, user).Opened?
    requires var o := OpenInbox(disk, user);
      1 <= k <= |Mail(disk, o.user, o.box)| &&
      FilePath(o.user, o.box, Mail(disk, o.user, o.box)[k - 1].Name()) !in disk.refused
    ensures var o := OpenInbox(disk, user);
      Read(disk, user, k, prev) == Fits("OK\n" + Mail(disk, o.user, o.box)[k - 1].contents)
  {
    var o := OpenInbox(disk, user);
    NthIndexPlace(disk.Box(o.user, o.box).value, k);
  }

  /** Ordinals outside 1 .. N name no message; only READ 0 on an empty inbox leaves the
      response as it was. */
  lemma ReadOutOfRange(disk: Disk, user: string, k: int, prev: string)
    requires OpenInbox(disk, user).Opened?
    requires var o := OpenInbox(disk, user); !(1 <= k <= |Mail(disk, o.user, o.box)|)
    ensures var o := OpenInbox(disk, user);
      Read(disk, user, k, prev) ==
        Reply(if k == 0 && Mail(disk, o.user, o.box) == [] then prev else "ERR\nThis message does not exist\n")
  {
  }

  /** READ ends the process exactly when a message that can be opened does not fit the response
      together with "OK\n". */
  lemma ReadCrashes(disk: Disk, user: string, k: int, prev: string)
    ensures Read(disk, user, k, prev) == Crash <==>
      var o := OpenInbox(disk, user);
      o.Opened? && 1 <= k <= |Mail(disk, o.user, o.box)| &&
      FilePath(o.user, o.box, Mail(disk, o.user, o.box)[k - 1].Name()) !in disk.refused &&
      |"OK\n" + Mail(disk, o.user, o.box)[k - 1].contents| >= BUF
  {
    var o := OpenInbox(disk, user);
    if o.Opened? && 1 <= k <= |Mail(disk, o.user, o.box)| {
      NthIndexPlace(disk.Box(o.user, o.box).value, k);
    }
  }

  /** A save under a new subject into a single-named user's inbox leaves the inbox readable
      with the new message last. */
  lemma SavedLast(disk: Disk, user: string, sender: string, subject: string, message: string)
    requires IsPlainName(user)
    requires forall m :: m in Mail(disk, user, In) ==> m.Name() != subject
    requires CanSave(disk, user, In, subject) && BoxPath(user, In) !in disk.refused
    ensures var after := Save(disk, user, sender, subject, message, In).disk;
      after.Box(user, In).Some? && after.refused == disk.refused &&
      |Mail(after, user, In)| == |Mail(disk, user, In)| + 1 &&
      Mail(after, user, In)[|Mail(disk, user, In)|] == File(subject, Record(sender, message))
  {
    SavePlain(disk, user, sender, subject, message, In);
    SaveAppends(disk, user, sender, subject, message, In);
  }

  /** For a single-named user whose inbox can be opened, READ k shows the k-th message. */
  lemma ReadPlain(disk: Disk, user: string, k: int, prev: string)
    requires IsPlainName(user) && disk.Box(user, In).Some? && BoxPath(user, In) !in disk.refused
    requires 1 <= k <= |Mail(disk, user, In)| && FilePath(user, In, Mail(disk, user, In)[k - 1].Name()) !in disk.refused
    ensures Read(disk, user, k, prev) == Fits("OK\n" + Mail(disk, user, In)[k - 1].contents)
  {
    OpenPlain(disk, user);
    ReadShowsNth(disk, user, k, prev);
  }

  /** Save then read, for a user name that is a single name: the message saved under a new
      subject into a readable inbox is the last one, and reading it gives `OK`, the sender line
      and the message, unless that overflows the response. */
  lemma SaveThenRead(disk: Disk, user: string, sender: string, subject: string, message: string, prev: string)
    requires IsPlainName(user)
    requires forall m :: m in Mail(disk, user, In) ==> m.Name() != subject
    requires CanSave(disk, user, In, subject) && BoxPath(user, In) !in disk.refused
    ensures var after := Save(disk, user, sender, subject, message, In).disk;
      Read(after, user, |Mail(disk, user, In)| + 1, prev) == Fits("OK\n" + Record(sender, message))
  {
    var after := Save(disk, user, sender, subject, message, In).disk;
    var k := |Mail(disk, user, In)| + 1;
    SavedLast(disk, user, sender, subject, message);
    ReadPlain(after, user, k, prev);
  }

  /** What READ shows a single-named user depends only on that user's inbox and the refusals. */
  lemma ReadSameInbox(d1: Disk, d2: Disk, user: string, k: int, prev: string)
    requires IsPlainName(user) && d1.refused == d2.refused && d1.Box(user, In) == d2.Box(user, In)
    ensures Read(d1, user, k, prev) == Read(d2, user, k, prev)
  {
    OpenPlain(d1, user);
    OpenPlain(d2, user);
  }

  /** After a delivery to someone else, the receiver's next message number reads back what was
      sent. */
  lemma ReadAfterDeliver(disk: Disk, sender: string, receiver: string, subject: string, message: string)
    requires IsPlainName(sender) && IsPlainName(receiver) && sender != receiver
    requires forall m :: m in Mail(disk, receiver, In) ==> m.Name() != subject
    requires CanSave(disk, receiver, In, subject) && BoxPath(receiver, In) !in disk.refused
    ensures var after := Deliver(disk, sender, receiver, subject, message).disk;
      Read(after, receiver, |Mail(disk, receiver, In)| + 1, "") == Fits("OK\n" + Record(sender, message))
  {
    var inbox := Save(disk, receiver, sender, subject, message, In);
    var outbox := Save(inbox.disk, sender, sender, subject, message, Out);
    var after := Deliver(disk, sender, receiver, subject, message).disk;
    assert after == outbox.disk by {
      SavePlain(disk, receiver, sender, subject, message, In);
      SavePlain(inbox.disk, sender, sender, subject, message, Out);
    }
    var n := |Mail(disk, receiver, In)| + 1;
    assert Read(after, receiver, n, "") == Read(inbox.disk, receiver, n, "") by {
      SaveLeavesOthers(inbox.disk, sender, sender, subject, message, Out, receiver);
      ReadSameInbox(inbox.disk, outbox.disk, receiver, n, "");
    }
    SaveThenRead(disk, receiver, sender, subject, message, "");
  }

  // ---------------------------------------------------------------------------------------------
  // deleteMail

  /** `deleteMail(user, k)`: counting starts at 1, the k-th message is removed. When the inbox
      cannot be opened the loop runs `readdir` on NULL. */
  function Delete(disk: Disk, user: string, k: int): Step {
    match OpenInbox(disk, user)
    case OpenedStray => Step(disk, Stray)
    case NotOpened(_) => Step(disk, Crash)
    case Opened(u, b) =>
      var d := disk.Box(u, b).value;
      if 1 <= k <= Count(d) then
        var path := FilePath(u, b, d[NthIndex(d, k)].name);
        if path in disk.refused then Step(disk, Reply(ErrorText(disk.refused[path])))
        else Step(UpdateBox(disk, u, b, RemoveNth(d, k)), Reply("OK\n"))
      else Step(disk, Reply("ERR - could not remove message\n"))
  }

  lemma ErrorTextShape(errno: int)
    ensures ErrorText(errno) != "OK\n"
  {
    var r := ErrorText(errno);
    assert r[..6] == "ERR - ";
  }

  /** A successful DEL k removes exactly message k of the inbox the path opens; the others keep
      their order, later ones move down by one, and no other box changes. */
  lemma DeleteRemovesNth(disk: Disk, user: string, k: int)
    requires Delete(disk, user, k).outcome == Reply("OK\n")
    ensures OpenInbox(disk, user).Opened?
    ensures var o := OpenInbox(disk, user);
      var after := Delete(disk, user, k).disk;
      1 <= k <= |Mail(disk, o.user, o.box)| &&
      Mail(after, o.user, o.box) == Mail(disk, o.user, o.box)[..k - 1] + Mail(disk, o.user, o.box)[k..] &&
      forall u, b :: (u, b) != (o.user, o.box) ==> Mail(after, u, b) == Mail(disk, u, b)
  {
    var o := OpenInbox(disk, user);
    var d := disk.Box(o.user, o.box).value;
    assert 1 <= k <= Count(d);
    var path := FilePath(o.user, o.box, d[NthIndex(d, k)].name);
    assert path !in disk.refused by {
      if path in disk.refused {
        ErrorTextShape(disk.refused[path]);
      }
    }
    RemoveNthMessages(d, k);
  }

  /** Removing an entry keeps names unique and proper. */
  lemma RemoveKeepsGood(d: Dir, i: nat)
    requires i < |d| && GoodBox(Some(d))
    ensures GoodBox(Some(d[..i] + d[i + 1..]))
  {
    var r := d[..i] + d[i + 1..];
    assert forall a :: 0 <= a < |r| ==> r[a] == if a < i then d[a] else d[a + 1];
  }

  /** Deleting keeps every directory well formed and the homes and boxes as they were. */
  lemma DeleteWellFormed(disk: Disk, user: string, k: int)
    requires WellFormed(disk)
    ensures var after := Delete(disk, user, k).disk;
      WellFormed(after) && SameShape(disk, after) && after.refused == disk.refused
  {
    var o := OpenInbox(disk, user);
    if o.Opened? {
      var d := disk.Box(o.user, o.box).value;
      if 1 <= k <= Count(d) {
        RemoveKeepsGood(d, NthIndex(d, k));
        UpdateBoxWellFormed(disk, o.user, o.box, RemoveNth(d, k));
      }
    }
  }

  /** Any ordinal outside 1 .. N (zero and negatives included) changes nothing. */
  lemma DeleteOutOfRange(disk: Disk, user: string, k: int)
    requires OpenInbox(disk, user).Opened?
    requires var o := OpenInbox(disk, user); !(1 <= k <= |Mail(disk, o.user, o.box)|)
    ensures Delete(disk, user, k) == Step(disk, Reply("ERR - could not remove message\n"))
  {
  }

  /** DEL crashes exactly when the inbox cannot be opened. */
  lemma DeleteCrashes(disk: Disk, user: string, k: int)
    ensures Delete(disk, user, k).outcome == Crash <==> OpenInbox(disk, user).NotOpened?
  {
  }

  /** After DEL k, READ k shows what was message k + 1. */
  lemma DeleteThenRead(disk: Disk, user: string, k: int, prev: string)
    requires Delete(disk, user, k).outcome == Reply("OK\n")
    requires var o := OpenInbox(disk, user);
      o.Opened? && k < |Mail(disk, o.user, o.box)| &&
      FilePath(o.user, o.box, Mail(disk, o.user, o.box)[k].Name()) !in disk.refused
    ensures var o := OpenInbox(disk, user);
      Read(Delete(disk, user, k).disk, user, k, prev) == Fits("OK\n" + Mail(disk, o.user, o.box)[k].contents)
  {
    var o := OpenInbox(disk, user);
    DeleteRemovesNth(disk, user, k);
    var after := Delete(disk, user, k).disk;
    assert SameShape(disk, after) by {
      var d := disk.Box(o.user, o.box).value;
      assert after == UpdateBox(disk, o.user, o.box, RemoveNth(d, k));
    }
    OpenSameShape(disk, after, user);
    assert Mail(after, o.user, o.box)[k - 1] == Mail(disk, o.user, o.box)[k];
    ReadShowsNth(after, user, k, prev);
  }

  // ---------------------------------------------------------------------------------------------
  // listMail

  function Concat(ps: seq<string>): string {
    if ps == [] then "" else ps[0] + Concat(ps[1..])
  }

  /** The listing lines for the given names, numbered from `first`. */
  function Listing(names: seq<string>, first: nat): string {
    if names == [] then "" else Decimal(first) + ": " + names[0] + "\n" + Listing(names[1..], first + 1)
  }

  /** The pieces the pro server appends one at a time: number, separator, name, newline. */
  function Pieces(names: seq<string>, first: nat): seq<string> {
    if names == [] then [] else [Decimal(first), ": ", names[0], "\n"] + Pieces(names[1..], first + 1)
  }

  /** The length-guarded append: each piece goes in only while the response stays at most
      `BUF - 2` characters long; the first piece that does not fit ends the listing. */
  function Fit(response: string, ps: seq<string>): string
    decreases |ps|
  {
    if ps == [] then response
    else if |response| + |ps[0]| > BUF - 2 then response
    else Fit(response + ps[0], ps[1..])
  }


  lemma {:induction false} ConcatAppend(a: seq<string>, b: seq<string>)
    ensures Concat(a + b) == Concat(a) + Concat(b)
  {
    if a == [] {
      assert a + b == b;
    } else {
      assert (a + b)[1..] == a[1..] + b;
      ConcatAppend(a[1..], b);
    }
  }

  lemma ConcatFour(a: string, b: string, c: string, e: string)
    ensures Concat([a, b, c, e]) == a + b + c + e
  {
    assert [a, b, c, e][1..] == [b, c, e];
    assert [b, c, e][1..] == [c, e];
    assert [c, e][1..] == [e];
    assert [e][1..] == [];
    assert Concat([e]) == e + "";
    assert Concat([c, e]) == c + e;
    assert Concat([b, c, e]) == b + (c + e);
    assert Concat([a, b, c, e]) == a + (b + (c + e));
  }

  /** Appending the pieces without a guard gives the listing. */
  lemma {:induction false} ConcatPieces(names: seq<string>, first: nat)
    ensures Concat(Pieces(names, first)) == Listing(names, first)
  {
    if names != [] {
      var head := [Decimal(first), ": ", names[0], "\n"];
      ConcatAppend(head, Pieces(names[1..], first + 1));
      ConcatPieces(names[1..], first + 1);
      ConcatFour(Decimal(first), ": ", names[0], "\n");
    }
  }

  /** How many pieces the guarded append takes before it stops. */
  function Taken(response: string, ps: seq<string>): (m: nat)
    ensures m <= |ps|
    decreases |ps|
  {
    if ps == [] || |response| + |ps[0]| > BUF - 2 then 0 else 1 + Taken(response + ps[0], ps[1..])
  }

  /** The guarded listing stops at a piece boundary: it is the response followed by the first
      pieces, and when pieces are left over the next one would have overflowed. */
  lemma {:induction false} FitStopsAtPiece(response: string, ps: seq<string>)
    ensures var m := Taken(response, ps);
      Fit(response, ps) == response + Concat(ps[..m]) &&
      (m < |ps| ==> |Fit(response, ps)| + |ps[m]| > BUF - 2)
    decreases |ps|
  {
    if ps == [] || |response| + |ps[0]| > BUF - 2 {
      assert ps[..0] == [];
    } else {
      var m := Taken(response + ps[0], ps[1..]);
      FitStopsAtPiece(response + ps[0], ps[1..]);
      assert ps[..m + 1] == [ps[0]] + ps[1..][..m];
      assert Concat(ps[..m + 1]) == ps[0] + Concat(ps[1..][..m]);
    }
  }

  /** The guarded listing never grows the response past `BUF - 2` characters. */
  lemma {:induction false} FitBound(response: string, ps: seq<string>)
    ensures |Fit(response, ps)| <= if |response| > BUF - 2 then |response| else BUF - 2
    decreases |ps|
  {
    if ps != [] && |response| + |ps[0]| <= BUF - 2 {
      FitBound(response + ps[0], ps[1..]);
    }
  }

  /** When everything fits, nothing is cut. */
  lemma {:induction false} FitWhole(response: string, ps: seq<string>)
    requires |response| + |Concat(ps)| <= BUF - 2
    ensures Fit(response, ps) == response + Concat(ps)
    decreases |ps|
  {
    if ps != [] {
      assert Concat(ps) == ps[0] + Concat(ps[1..]);
      FitWhole(response + ps[0], ps[1..]);
    }
  }

  function HeaderPro(user: string, n: nat): string {
    if n == 1 then "There is 1 message for user " + user + ".\n"
    else "There are " + Decimal(n) + " messages for user " + user + ".\n"
  }

  function HeaderBasic(n: nat): string {
    if n == 1 then "There is 1 message for this user.\n"
    else "There are " + Decimal(n) + " messages for this user.\n"
  }

  /** The response after the pro `listMail(user)`: the header names the user as given, the
      count and the subjects are those of the box the path opens. A failed `opendir` leaves the
      error text followed by a zero count. */
  function ListPro(disk: Disk, user: string): Outcome {
    match OpenInbox(disk, user)
    case OpenedStray => Stray
    case NotOpened(e) => Reply(ErrorText(e) + "There are 0 messages for user " + user + ".\n")
    case Opened(u, b) => Reply(Fit(HeaderPro(user, |Mail(disk, u, b)|), Pieces(Names(Mail(disk, u, b)), 1)))
  }

  /** The response after the basic `listMail(user)`, which has no length guard. */
  function ListBasic(disk: Disk, user: string): Outcome {
    match OpenInbox(disk, user)
    case OpenedStray => Stray
    case NotOpened(e) => Fits(ErrorText(e) + "There are 0 messages for this user.\n")
    case Opened(u, b) => Fits(HeaderBasic(|Mail(disk, u, b)|) + Listing(Names(Mail(disk, u, b)), 1))
  }

  /** The pro listing is always a prefix of the full one, is at most `BUF - 2` characters unless
      the header alone is longer, and is the full listing whenever that fits. */
  lemma ListProTruncates(disk: Disk, user: string)
    requires OpenInbox(disk, user).Opened?
    ensures var o := OpenInbox(disk, user);
      var ms := Mail(disk, o.user, o.box);
      var header := HeaderPro(user, |ms|);
      var full := header + Listing(Names(ms), 1);
      var r := ListPro(disk, user);
      r.Reply? && r.text <= full &&
      |r.text| <= (if |header| > BUF - 2 then |header| else BUF - 2) &&
      (|full| <= BUF - 2 ==> r.text == full)
  {
    var o := OpenInbox(disk, user);
    var ms := Mail(disk, o.user, o.box);
    var header := HeaderPro(user, |ms|);
    var ps := Pieces(Names(ms), 1);
    ConcatPieces(Names(ms), 1);
    FitStopsAtPiece(header, ps);
    var m := Taken(header, ps);
    assert ps == ps[..m] + ps[m..];
    ConcatAppend(ps[..m], ps[m..]);
    FitBound(header, ps);
    if |header + Concat(ps)| <= BUF - 2 {
      FitWhole(header, ps);
    }
  }

  /** The basic listing is sent whole when it fits the response and ends the process otherwise;
      on an inbox that opens, it is the header and every numbered subject. */
  lemma ListBasicWhole(disk: Disk, user: string)
    requires OpenInbox(disk, user).Opened?
    ensures var o := OpenInbox(disk, user);
      var ms := Mail(disk, o.user, o.box);
      var full := HeaderBasic(|ms|) + Concat(Pieces(Names(ms), 1));
      ListBasic(disk, user) == if |full| < BUF then Reply(full) else Crash
  {
    var o := OpenInbox(disk, user);
    ConcatPieces(Names(Mail(disk, o.user, o.box)), 1);
  }

  /** The count in the header is the number of messages; `atoi` reads it back. */
  lemma HeaderCounts(user: string, n: nat)
    requires n != 1
    ensures HeaderPro(user, n) == "There are " + Decimal(n) + " messages for user " + user + ".\n"
    ensures HeaderBasic(n) == "There are " + Decimal(n) + " messages for this user.\n"
    ensures Atoi(Decimal(n)) == n
  {
    AtoiOfDecimal(n);
  }
}
