/** The mail spool under /var/spool/mail as an abstract value. Every user that has a directory
    there owns a home with an `in` and an `out` sub-directory; a directory is the sequence of
    entries `readdir` yields, in its order, including "." and "..". A message is a file named
    after its subject. The filesystem's refusals are part of the value: `refused` gives, for a
    path, the errno a call on exactly that path fails with. */
module Spool {
  import opened CText

  const Root: string := "/var/spool/mail/"

  datatype Box = In | Out

  /** The sub-directory name `saveMail` appends, `"/in"` or `"/out"`. */
  function BoxDir(box: Box): string {
    if box == In then "/in" else "/out"
  }

  function HomePath(user: string): string {
    Root + user
  }

  function BoxPath(user: string, box: Box): string {
    HomePath(user) + BoxDir(box)
  }

  function FilePath(user: string, box: Box, name: string): string {
    BoxPath(user, box) + "/" + name
  }

  datatype Dirent = Dot | DotDot | File(name: string, contents: string) {
    /** `d_name` of the entry. */
    function Name(): string {
      match this
      case Dot => "."
      case DotDot => ".."
      case File(n, _) => n
    }
  }

  type Dir = seq<Dirent>

  /** What `mkdir` leaves: a directory holding only its self and parent entries. */
  const EmptyDir: Dir := [Dot, DotDot]

  datatype Home = Home(inbox: Option<Dir>, outbox: Option<Dir>) {
    function Get(box: Box): Option<Dir> {
      if box == In then inbox else outbox
    }

    function Set(box: Box, d: Dir): Home {
      if box == In then this.(inbox := Some(d)) else this.(outbox := Some(d))
    }
  }

  datatype Disk = Disk(homes: map<string, Home>, refused: map<string, int>) {
    /** The entries of `user`'s box, if that directory exists. */
    function Box(user: string, box: Box): Option<Dir> {
      if user in homes then homes[user].Get(box) else None
    }
  }

  // ---------------------------------------------------------------------------------------------
  // Directory contents

  /** An entry the servers count: anything but "." and "..". Files are never named so (only
      `Put` creates them, and it refuses those names), so this is the servers' name test. */
  predicate IsMessage(e: Dirent) {
    e.File?
  }

  /** A name `fopen(<box>/<name>, "w")` creates a file under, in a box without sub-directories:
      not empty (that would open the box itself), not "." or "..", no "/". */
  predicate IsPlainName(name: string) {
    name != "" && name != "." && name != ".." && '/' !in name
  }

  /** No file entry carries one of the two reserved names. */
  predicate Proper(d: Dir) {
    forall i :: 0 <= i < |d| && d[i].File? ==> IsPlainName(d[i].name)
  }

  lemma IsMessageByName(d: Dir, i: nat)
    requires Proper(d) && i < |d|
    ensures IsMessage(d[i]) <==> IsPlainName(d[i].Name())
  {
  }

  /** The messages of a directory in listing order; message k (from 1) is `Messages(d)[k - 1]`. */
  function Messages(d: Dir): seq<Dirent> {
    if d == [] then []
    else if IsMessage(d[0]) then [d[0]] + Messages(d[1..])
    else Messages(d[1..])
  }

  function Count(d: Dir): nat {
    |Messages(d)|
  }

  lemma {:induction false} MessagesAppend(a: Dir, b: Dir)
    ensures Messages(a + b) == Messages(a) + Messages(b)
  {
    if a == [] {
      assert a + b == b;
    } else {
      assert (a + b)[1..] == a[1..] + b;
      MessagesAppend(a[1..], b);
    }
  }

  lemma {:induction false} MessagesAreFiles(d: Dir)
    ensures forall i :: 0 <= i < |Messages(d)| ==> Messages(d)[i].File?
  {
    if d != [] {
      MessagesAreFiles(d[1..]);
    }
  }

  lemma MessagesSnoc(d: Dir, e: Dirent)
    ensures Messages(d + [e]) == Messages(d) + (if IsMessage(e) then [e] else [])
  {
    MessagesAppend(d, [e]);
  }

  /** Entry names in a directory are unique. */
  ghost predicate Unique(d: Dir) {
    forall i, j :: 0 <= i < j < |d| ==> d[i].Name() != d[j].Name()
  }

  function Names(ms: seq<Dirent>): (ns: seq<string>)
    ensures |ns| == |ms| && forall i :: 0 <= i < |ms| ==> ns[i] == ms[i].Name()
  {
    if ms == [] then [] else [ms[0].Name()] + Names(ms[1..])
  }

  /** Where an entry with this name sits, if there is one. */
  function Find(d: Dir, name: string): (r: Option<nat>)
    ensures r.Some? ==> r.value < |d| && d[r.value].Name() == name
    ensures r.None? ==> forall i :: 0 <= i < |d| ==> d[i].Name() != name
  {
    if d == [] then None
    else if d[0].Name() == name then Some(0)
    else match Find(d[1..], name)
      case Some(i) => Some(i + 1)
      case None => None
  }

  /** The directory after `fopen(<dir>/<name>, "w")` and the writes: an existing file of that
      name keeps its place and gets the new contents; otherwise a new entry is added, last. */
  function Put(d: Dir, name: string, contents: string): (r: Dir)
    requires IsPlainName(name)
    ensures |r| == |d| || r == d + [File(name, contents)]
  {
    match Find(d, name)
    case Some(i) => d[i := File(name, contents)]
    case None => d + [File(name, contents)]
  }

  // ---------------------------------------------------------------------------------------------
  // Ordinals

  lemma MessagesOfEntry(e: Dirent)
    ensures Messages([e]) == if IsMessage(e) then [e] else []
  {
    assert [e][1..] == [];
  }

  /** The messages before, at and after one entry of the listing. */
  lemma MessagesSplit(d: Dir, i: nat)
    requires i < |d|
    ensures Messages(d) == Messages(d[..i]) + Messages([d[i]]) + Messages(d[i + 1..])
  {
    assert d == d[..i] + d[i..];
    MessagesAppend(d[..i], d[i..]);
    assert d[i..] == [d[i]] + d[i + 1..];
    MessagesAppend([d[i]], d[i + 1..]);
  }

  /** The position in the listing of the k-th message, counting from 1. */
  function NthIndex(d: Dir, k: nat): (i: nat)
    requires 1 <= k <= Count(d)
    ensures i < |d| && IsMessage(d[i]) && Count(d[..i]) == k - 1
  {
    assert d != [];
    if IsMessage(d[0]) && k == 1 then
      assert d[..0] == [];
      0
    else
      var k' := if IsMessage(d[0]) then k - 1 else k;
      var j := NthIndex(d[1..], k');
      assert d[..j + 1] == [d[0]] + d[1..][..j];
      j + 1
  }

  lemma NthIndexPlace(d: Dir, k: nat)
    requires 1 <= k <= Count(d)
    ensures var i := NthIndex(d, k); Messages(d) == Messages(d[..i]) + [d[i]] + Messages(d[i + 1..])
    ensures Messages(d)[k - 1] == d[NthIndex(d, k)]
  {
    var i := NthIndex(d, k);
    MessagesSplit(d, i);
    MessagesOfEntry(d[i]);
  }

  /** One more entry read adds one to the count exactly when it is a message. */
  lemma CountStep(d: Dir, i: nat)
    requires i < |d|
    ensures Count(d[..i + 1]) == Count(d[..i]) + if IsMessage(d[i]) then 1 else 0
  {
    assert d[..i + 1] == d[..i] + [d[i]];
    MessagesSnoc(d[..i], d[i]);
  }

  /** Counting a longer prefix never gives less. */
  lemma CountMonotone(d: Dir, a: nat, b: nat)
    requires a <= b <= |d|
    ensures Count(d[..a]) <= Count(d[..b])
  {
    assert d[..b] == d[..a] + d[a..b];
    MessagesAppend(d[..a], d[a..b]);
  }

  /** The entry a `readdir` loop stops at, when it is a message with k - 1 messages before it,
      is the k-th message. */
  lemma NthIndexAt(d: Dir, i: nat, k: nat)
    requires i < |d| && IsMessage(d[i]) && Count(d[..i]) + 1 == k
    ensures 1 <= k <= Count(d) && NthIndex(d, k) == i
  {
    CountStep(d, i);
    CountMonotone(d, i + 1, |d|);
    assert d[..|d|] == d;
    var j := NthIndex(d, k);
    if j < i {
      CountStep(d, j);
      CountMonotone(d, j + 1, i);
    } else if i < j {
      CountMonotone(d, i + 1, j);
    }
  }

  /** The servers' test on `d_name` (neither "." nor "..") picks the messages of a proper
      directory. */
  lemma NameTest(d: Dir, i: nat)
    requires Proper(d) && i < |d|
    ensures (d[i].Name() != "." && d[i].Name() != "..") <==> IsMessage(d[i])
  {
  }

  /** The messages from entry i on: the entry itself, if it is one, then the rest. */
  lemma MessagesFrom(d: Dir, i: nat)
    requires i < |d|
    ensures Messages(d[i..]) == (if IsMessage(d[i]) then [d[i]] else []) + Messages(d[i + 1..])
  {
    assert d[i..][1..] == d[i + 1..];
  }

  /** The listing after `remove` of the k-th message. */
  function RemoveNth(d: Dir, k: nat): Dir
    requires 1 <= k <= Count(d)
  {
    var i := NthIndex(d, k);
    d[..i] + d[i + 1..]
  }

  /** Deleting message k removes exactly that one. */
  lemma RemoveNthMessages(d: Dir, k: nat)
    requires 1 <= k <= Count(d)
    ensures Messages(RemoveNth(d, k)) == Messages(d)[..k - 1] + Messages(d)[k..]
  {
    var i := NthIndex(d, k);
    var a, c := Messages(d[..i]), Messages(d[i + 1..]);
    NthIndexPlace(d, k);
    MessagesAppend(d[..i], d[i + 1..]);
    assert |a| == k - 1;
    assert Messages(d)[..k - 1] == a;
    assert Messages(d)[k..] == c;
  }

  /** After deleting message k, messages 1 .. k-1 keep their numbers and every later one
      moves down by one (in 0-based positions below). */
  lemma RemoveNthRenumbers(d: Dir, k: nat)
    requires 1 <= k <= Count(d)
    ensures var ms, r := Messages(d), Messages(RemoveNth(d, k));
      |r| == |ms| - 1 &&
      (forall j :: 0 <= j < k - 1 ==> r[j] == ms[j]) &&
      (forall j :: k - 1 <= j < |r| ==> r[j] == ms[j + 1])
  {
    RemoveNthMessages(d, k);
  }

  /** Overwriting a message entry with another one changes that message and nothing else. */
  lemma MessagesUpdate(d: Dir, i: nat, e: Dirent)
    requires i < |d| && IsMessage(d[i]) && IsMessage(e)
    ensures Count(d[..i]) < Count(d) && Messages(d)[Count(d[..i])] == d[i]
    ensures Messages(d[i := e]) == Messages(d)[Count(d[..i]) := e]
  {
    var d' := d[i := e];
    MessagesSplit(d, i);
    MessagesSplit(d', i);
    assert d'[..i] == d[..i] && d'[i + 1..] == d[i + 1..];
    MessagesOfEntry(d[i]);
    MessagesOfEntry(e);
    ReplaceMiddle(Messages(d[..i]), d[i], e, Messages(d[i + 1..]));
  }

  lemma ReplaceMiddle<T>(a: seq<T>, x: T, y: T, c: seq<T>)
    ensures (a + [x] + c)[|a| := y] == a + [y] + c
  {
  }

  // ---------------------------------------------------------------------------------------------
  // Overwrite by subject

  /** A name that only the last entry carries is found there. */
  lemma {:induction false} FindAppended(d: Dir, e: Dirent)
    requires forall i :: 0 <= i < |d| ==> d[i].Name() != e.Name()
    ensures Find(d + [e], e.Name()) == Some(|d|)
    decreases |d|
  {
    if d != [] {
      assert (d + [e])[1..] == d[1..] + [e];
      FindAppended(d[1..], e);
    }
  }

  lemma PutExisting(d: Dir, name: string, contents: string, j: nat)
    requires Unique(d) && IsPlainName(name)
    requires j < Count(d) && Messages(d)[j].Name() == name
    ensures Messages(Put(d, name, contents)) == Messages(d)[j := File(name, contents)]
  {
    var i := NthIndex(d, j + 1);
    NthIndexPlace(d, j + 1);
    assert d[i].Name() == name;
    var f := Find(d, name);
    assert f.Some?;
    assert d[f.value].Name() == d[i].Name();
    assert f.value == i;
    MessagesUpdate(d, i, File(name, contents));
  }

  /** A subject the box does not hold yet becomes its last message. */
  lemma PutFresh(d: Dir, name: string, contents: string)
    requires IsPlainName(name)
    requires forall i :: 0 <= i < |d| ==> d[i].Name() != name
    ensures Messages(Put(d, name, contents)) == Messages(d) + [File(name, contents)]
  {
    MessagesSnoc(d, File(name, contents));
  }

  /** After a put, the box holds a message with that name and those contents. */
  lemma PutHolds(d: Dir, name: string, contents: string)
    requires IsPlainName(name)
    ensures File(name, contents) in Messages(Put(d, name, contents))
  {
    var x := File(name, contents);
    match Find(d, name)
    case Some(i) =>
      var d' := d[i := x];
      MessagesSplit(d', i);
      MessagesOfEntry(x);
      assert Messages(d') == Messages(d'[..i]) + [x] + Messages(d'[i + 1..]);
    case None =>
      MessagesSnoc(d, x);
  }

  lemma PutUnique(d: Dir, name: string, contents: string)
    requires Unique(d) && IsPlainName(name)
    ensures Unique(Put(d, name, contents))
  {
  }

  /** The subjects a box holds. */
  ghost function Subjects(d: Dir): set<string> {
    set m | m in Messages(d) :: m.Name()
  }

  /** Saving adds the subject to the set of subjects in the box and nothing else. */
  lemma PutSubjects(d: Dir, name: string, contents: string)
    requires Unique(d) && IsPlainName(name)
    ensures Subjects(Put(d, name, contents)) == Subjects(d) + {name}
  {
    var x := File(name, contents);
    var ms, ms' := Messages(d), Messages(Put(d, name, contents));
    match Find(d, name)
    case Some(p) =>
      MessagesUpdate(d, p, x);
      var j := Count(d[..p]);
      assert ms' == ms[j := x];
      forall n | n in Subjects(d) + {name} ensures n in Subjects(Put(d, name, contents)) {
        if n != name {
          var m :| m in ms && m.Name() == n;
          var t :| 0 <= t < |ms| && ms[t] == m;
          assert t != j;
          assert ms'[t] == m;
          assert m in ms';
        } else {
          assert ms'[j] == x;
          assert x in ms';
        }
      }
      forall n | n in Subjects(Put(d, name, contents)) ensures n in Subjects(d) + {name} {
        var m :| m in ms' && m.Name() == n;
        var t :| 0 <= t < |ms'| && ms'[t] == m;
        if t != j {
          assert ms[t] == m;
        }
      }
    case None =>
      PutFresh(d, name, contents);
      assert ms' == ms + [x];
      forall n | n in Subjects(Put(d, name, contents)) ensures n in Subjects(d) + {name} {
        var m :| m in ms' && m.Name() == n;
        if m != x {
          assert m in ms;
        }
      }
      forall n | n in Subjects(d) ensures n in Subjects(Put(d, name, contents)) {
        var m :| m in ms && m.Name() == n;
        assert m in ms';
      }
      assert x in ms';
  }

  /** In a directory with unique names the messages are as many as their subjects. */
  lemma {:induction false} CountSubjects(ms: seq<Dirent>)
    requires Unique(ms)
    ensures |set m | m in ms :: m.Name()| == |ms|
  {
    if ms != [] {
      var init, last := ms[..|ms| - 1], ms[|ms| - 1];
      CountSubjects(init);
      assert ms == init + [last];
      assert (set m | m in ms :: m.Name()) == (set m | m in init :: m.Name()) + {last.Name()};
      assert last.Name() !in (set m | m in init :: m.Name());
    }
  }

  lemma UniqueMessageNames(d: Dir)
    requires Unique(d)
    ensures Unique(Messages(d))
  {
    var ms := Messages(d);
    forall i, j | 0 <= i < j < |ms|
      ensures ms[i].Name() != ms[j].Name()
    {
      NthIndexPlace(d, i + 1);
      NthIndexPlace(d, j + 1);
    }
  }

  /** The saves one box receives, in order: subject and stored contents of each. */
  function PutAll(d: Dir, saves: seq<(string, string)>): Dir
    requires forall i :: 0 <= i < |saves| ==> IsPlainName(saves[i].0)
    decreases saves
  {
    if saves == [] then d
    else PutAll(Put(d, saves[0].0, saves[0].1), saves[1..])
  }

  ghost function SubjectsSent(saves: seq<(string, string)>): set<string> {
    set i | 0 <= i < |saves| :: saves[i].0
  }

  lemma SubjectsSentCons(saves: seq<(string, string)>)
    requires saves != []
    ensures SubjectsSent(saves) == {saves[0].0} + SubjectsSent(saves[1..])
  {
    forall n | n in SubjectsSent(saves) ensures n in {saves[0].0} + SubjectsSent(saves[1..]) {
      var i :| 0 <= i < |saves| && saves[i].0 == n;
      if i > 0 {
        assert saves[1..][i - 1].0 == n;
      }
    }
    forall n | n in SubjectsSent(saves[1..]) ensures n in SubjectsSent(saves) {
      var i :| 0 <= i < |saves[1..]| && saves[1..][i].0 == n;
      assert saves[i + 1].0 == n;
    }
    assert saves[0].0 in SubjectsSent(saves);
  }

  lemma {:induction false} PutAllSubjects(d: Dir, saves: seq<(string, string)>)
    requires Unique(d)
    requires forall i :: 0 <= i < |saves| ==> IsPlainName(saves[i].0)
    ensures Unique(PutAll(d, saves))
    ensures Subjects(PutAll(d, saves)) == Subjects(d) + SubjectsSent(saves)
    decreases saves
  {
    if saves != [] {
      PutUnique(d, saves[0].0, saves[0].1);
      PutSubjects(d, saves[0].0, saves[0].1);
      PutAllSubjects(Put(d, saves[0].0, saves[0].1), saves[1..]);
      SubjectsSentCons(saves);
    }
  }

  /** However often a subject is reused, a box that starts without messages (as `EmptyDir`
      does) ends up holding one message per distinct subject sent to it. */
  lemma CountIsDistinctSubjects(d: Dir, saves: seq<(string, string)>)
    requires Unique(d) && Count(d) == 0
    requires forall i :: 0 <= i < |saves| ==> IsPlainName(saves[i].0)
    ensures Count(PutAll(d, saves)) == |SubjectsSent(saves)|
  {
    assert Subjects(d) == {};
    PutAllSubjects(d, saves);
    SubjectsCount(PutAll(d, saves));
  }

  /** With unique names, a box holds as many messages as subjects. */
  lemma SubjectsCount(d: Dir)
    requires Unique(d)
    ensures |Subjects(d)| == Count(d)
  {
    UniqueMessageNames(d);
    CountSubjects(Messages(d));
  }

  lemma EmptyDirIsFresh()
    ensures Unique(EmptyDir) && Count(EmptyDir) == 0
  {
  }

  // ---------------------------------------------------------------------------------------------
  // The stored record

  /** What `saveMail` writes into a message file. */
  function Record(sender: string, message: string): string {
    "from: " + sender + "\n" + message + "\n"
  }

  /** How a reader takes a stored record apart again: the sender is the rest of the first line
      after "from: ", the message is what follows, without the final newline. */
  function ParseRecord(contents: string): Option<(string, string)> {
    if |contents| < 7 || contents[..6] != "from: " || contents[|contents| - 1] != '\n' then None
    else
      var body := contents[6..|contents| - 1];
      var sender := Run(body);
      if |sender| == |body| then None else Some((sender, body[|sender| + 1..]))
  }

  lemma RecordRoundTrip(sender: string, message: string)
    requires '\n' !in sender
    ensures ParseRecord(Record(sender, message)) == Some((sender, message))
  {
    var c := Record(sender, message);
    assert c == "from: " + (sender + ("\n" + message)) + "\n";
    var body := c[6..|c| - 1];
    assert c[..6] == "from: ";
    assert c[|c| - 1] == '\n';
    assert body == sender + ("\n" + message);
    RunOfLine(sender, "\n" + message);
    assert Run("\n" + message) == [];
    assert Run(body) == sender;
    assert |sender| < |body|;
    assert body[|sender| + 1..] == message;
    assert ParseRecord(c) == Some((Run(body), body[|Run(body)| + 1..]));
  }
}
