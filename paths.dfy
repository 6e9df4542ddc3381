/** How the file system resolves a path the servers build under the spool root: the text after
    "/var/spool/mail/" is split at '/', empty components are skipped, and the components are
    looked up one after another from the root, "." staying where it is and ".." going up. The
    spool value holds the root, the homes, each home's `in` and `out`, and the files in those;
    a path that climbs above the root, or creates something outside that layout, leaves what
    the value describes. */
module Paths {
  import opened CText
  import opened Errno
  import opened Spool

  /** Where the first component of `p` ends: the first '/', or the end of `p`. */
  function NameEnd(p: string): (n: nat)
    ensures n <= |p| && (forall i :: 0 <= i < n ==> p[i] != '/') && (n < |p| ==> p[n] == '/')
  {
    if p == [] || p[0] == '/' then 0 else 1 + NameEnd(p[1..])
  }

  /** Every component is a non-empty name without '/'. */
  predicate Parts(cs: seq<string>) {
    forall i :: 0 <= i < |cs| ==> cs[i] != "" && '/' !in cs[i]
  }

  /** The components of a path, in order. */
  function Components(p: string): (cs: seq<string>)
    ensures Parts(cs)
    decreases |p|
  {
    if p == [] then []
    else if p[0] == '/' then Components(p[1..])
    else
      var n := NameEnd(p);
      assert '/' !in p[..n] by {
        forall i | 0 <= i < n ensures p[..n][i] != '/' {
        }
      }
      [p[..n]] + Components(p[n..])
  }

  /** A single name is one component. */
  lemma ComponentsOfName(s: string)
    requires s != "" && '/' !in s
    ensures Components(s) == [s]
  {
    assert NameEnd(s) == |s|;
    assert s[..|s|] == s && s[|s|..] == [];
  }

  lemma NameEndJoin(a: string, b: string)
    ensures NameEnd(a + "/" + b) == NameEnd(a)
  {
    var p := a + "/" + b;
    var n, m := NameEnd(a), NameEnd(p);
    assert p[|a|] == '/';
    assert forall i :: 0 <= i < |a| ==> p[i] == a[i];
    if n < |a| {
      assert p[n] == '/';
    }
  }

  /** A path joined with '/' has the components of both parts. */
  lemma {:induction false} ComponentsJoin(a: string, b: string)
    ensures Components(a + "/" + b) == Components(a) + Components(b)
    decreases |a|
  {
    var p := a + "/" + b;
    if a == [] {
      assert p[1..] == b;
    } else if a[0] == '/' {
      assert p[0] == '/' && p[1..] == a[1..] + "/" + b;
      ComponentsJoin(a[1..], b);
      assert Components(p) == Components(a[1..] + "/" + b);
    } else {
      var n := NameEnd(a);
      NameEndJoin(a, b);
      assert p[0] == a[0] && p[..n] == a[..n];
      assert p[n..] == a[n..] + "/" + b;
      ComponentsJoin(a[n..], b);
      assert Components(p) == [a[..n]] + Components(a[n..] + "/" + b);
    }
  }

  /** The sub-directory a component names inside a home. */
  function BoxNamed(c: string): (r: Option<Box>)
    ensures r.Some? ==> BoxDir(r.value) == "/" + c
  {
    if c == "in" then Some(In) else if c == "out" then Some(Out) else None
  }

  /** A directory reached while walking a path, or why the walk cannot go on: a component that
      does not exist or is not a directory (`Stuck`), or a `..` above the spool root. */
  datatype Where = AtRoot | AtHome(user: string) | AtBox(user: string, box: Box) | Stuck(errno: int) | Above

  /** The directory a place names exists. */
  predicate Present(disk: Disk, w: Where) {
    match w
    case AtHome(u) => u in disk.homes
    case AtBox(u, b) => disk.Box(u, b).Some?
    case _ => true
  }

  /** One lookup of a component that is followed by another one. */
  function Down(disk: Disk, w: Where, c: string): (r: Where)
    requires Present(disk, w)
    ensures Present(disk, r)
  {
    if c == "." then w
    else match w
      case AtRoot =>
        if c == ".." then Above
        else if c in disk.homes then AtHome(c)
        else Stuck(ENOENT)
      case AtHome(u) =>
        if c == ".." then AtRoot
        else if BoxNamed(c).Some? && disk.Box(u, BoxNamed(c).value).Some? then AtBox(u, BoxNamed(c).value)
        else Stuck(ENOENT)
      case AtBox(u, b) =>
        if c == ".." then AtHome(u)
        else if Find(disk.Box(u, b).value, c).Some? then Stuck(ENOTDIR)
        else Stuck(ENOENT)
      case Stuck(_) => w
      case Above => w
  }

  function Walk(disk: Disk, w: Where, cs: seq<string>): (r: Where)
    requires Present(disk, w)
    ensures Present(disk, r)
    decreases |cs|
  {
    if cs == [] then w else Walk(disk, Down(disk, w, cs[0]), cs[1..])
  }

  /** What the last component of a path names: an existing directory, a file position in a box
      (which may or may not hold a file), a name missing from the root or from a home, a walk
      that failed before it, or a place above the root. */
  datatype Target =
    | Directory(at: Where)
    | Entry(user: string, box: Box, name: string)
    | Absent(home: Option<string>, name: string)
    | Unreachable(errno: int)
    | Outside

  /** What a target promises about the spool it was found in. */
  predicate Sound(disk: Disk, t: Target) {
    match t
    case Directory(w) => Present(disk, w) && (w.AtRoot? || w.AtHome? || w.AtBox?)
    case Entry(u, b, n) => disk.Box(u, b).Some? && IsPlainName(n)
    case Absent(home, n) =>
      IsPlainName(n) &&
      (match home
       case None => n !in disk.homes
       case Some(u) => u in disk.homes && (BoxNamed(n).Some? ==> disk.Box(u, BoxNamed(n).value).None?))
    case _ => true
  }

  function Last(disk: Disk, w: Where, c: string): (t: Target)
    requires Present(disk, w) && c != "" && '/' !in c
    ensures Sound(disk, t)
  {
    match w
    case Stuck(e) => Unreachable(e)
    case Above => Outside
    case AtRoot =>
      if c == "." then Directory(w)
      else if c == ".." then Outside
      else if c in disk.homes then Directory(AtHome(c))
      else Absent(None, c)
    case AtHome(u) =>
      if c == "." then Directory(w)
      else if c == ".." then Directory(AtRoot)
      else if BoxNamed(c).Some? && disk.Box(u, BoxNamed(c).value).Some? then Directory(AtBox(u, BoxNamed(c).value))
      else Absent(Some(u), c)
    case AtBox(u, _) =>
      if c == "." then Directory(w)
      else if c == ".." then Directory(AtHome(u))
      else Entry(u, w.box, c)
  }

  /** What a list of components names, walked from the spool root. */
  function At(disk: Disk, cs: seq<string>): (t: Target)
    requires Parts(cs)
    ensures Sound(disk, t)
  {
    if cs == [] then Directory(AtRoot)
    else Last(disk, Walk(disk, AtRoot, cs[..|cs| - 1]), cs[|cs| - 1])
  }

  /** What `<root><rel>` names. */
  function Locate(disk: Disk, rel: string): (t: Target)
    ensures Sound(disk, t)
  {
    At(disk, Components(rel))
  }

  /** A path ending in '/', which `open` with `O_CREAT` refuses to create a file under. */
  predicate EndsInSlash(rel: string) {
    rel != [] && rel[|rel| - 1] == '/'
  }

  // ---------------------------------------------------------------------------------------------
  // The paths the servers build from a user name and a subject

  /** The components of `<user><box>/<subject>` are those of the user name, the box name and
      those of the subject. */
  lemma FileComponents(user: string, box: Box, subject: string)
    ensures var bn := if box == In then "in" else "out";
      Components(user + BoxDir(box)) == Components(user) + [bn] &&
      Components(user + BoxDir(box) + "/" + subject) == Components(user) + [bn] + Components(subject)
  {
    var bn := if box == In then "in" else "out";
    assert user + BoxDir(box) == user + "/" + bn;
    ComponentsJoin(user, bn);
    ComponentsOfName(bn);
    assert user + BoxDir(box) + "/" + subject == (user + BoxDir(box)) + "/" + subject;
    ComponentsJoin(user + BoxDir(box), subject);
  }

  /** A user name that is a single name names that home. */
  lemma LocateHome(disk: Disk, user: string)
    requires IsPlainName(user)
    ensures Locate(disk, user) == if user in disk.homes then Directory(AtHome(user)) else Absent(None, user)
  {
    ComponentsOfName(user);
  }

  /** For a user name that is a single name, `<user>/in` and `<user>/out` name that user's box,
      present or not. */
  lemma LocateBox(disk: Disk, user: string, box: Box)
    requires IsPlainName(user)
    ensures Locate(disk, user + BoxDir(box)) ==
      if user !in disk.homes then Unreachable(ENOENT)
      else if disk.Box(user, box).Some? then Directory(AtBox(user, box))
      else Absent(Some(user), if box == In then "in" else "out")
  {
    FileComponents(user, box, "");
    ComponentsOfName(user);
    var bn := if box == In then "in" else "out";
    assert Components(user + BoxDir(box)) == [user, bn];
    assert [user, bn][..1] == [user];
    assert BoxNamed(bn) == Some(box);
    assert Walk(disk, AtRoot, [user]) == Down(disk, AtRoot, user) by {
      assert [user][1..] == [];
    }
    assert Locate(disk, user + BoxDir(box)) == Last(disk, Down(disk, AtRoot, user), bn);
  }

  /** For a user name that is a single name and a subject without '/', the file path names the
      subject inside that user's box when the box exists; otherwise the walk fails there. */
  lemma LocateFile(disk: Disk, user: string, box: Box, subject: string)
    requires IsPlainName(user) && subject != "" && '/' !in subject
    ensures Locate(disk, user + BoxDir(box) + "/" + subject) ==
      Last(disk, if disk.Box(user, box).Some? then AtBox(user, box) else Stuck(ENOENT), subject)
  {
    FileComponents(user, box, subject);
    ComponentsOfName(user);
    ComponentsOfName(subject);
    var bn := if box == In then "in" else "out";
    var cs := [user, bn, subject];
    assert Components(user + BoxDir(box) + "/" + subject) == cs;
    assert cs[..2] == [user, bn];
    assert [user, bn][1..] == [bn];
    assert BoxNamed(bn) == Some(box);
    assert Walk(disk, AtRoot, [user, bn]) == Walk(disk, Down(disk, AtRoot, user), [bn]);
    assert Walk(disk, Down(disk, AtRoot, user), [bn]) == Down(disk, Down(disk, AtRoot, user), bn) by {
      assert [bn][1..] == [];
    }
  }

  // ---------------------------------------------------------------------------------------------
  // What the boxes hold does not change where a path leads

  /** Two spools with the same homes and the same boxes; only what the boxes hold may differ. */
  ghost predicate SameShape(d1: Disk, d2: Disk) {
    d1.homes.Keys == d2.homes.Keys && forall u, b :: d1.Box(u, b).Some? == d2.Box(u, b).Some?
  }

  lemma {:induction false} WalkStuck(disk: Disk, e: int, cs: seq<string>)
    ensures Walk(disk, Stuck(e), cs) == Stuck(e)
    decreases |cs|
  {
    if cs != [] {
      WalkStuck(disk, e, cs[1..]);
    }
  }

  lemma {:induction false} WalkSameShape(d1: Disk, d2: Disk, w: Where, cs: seq<string>)
    requires SameShape(d1, d2) && Present(d1, w) && !Walk(d1, w, cs).Stuck?
    ensures Present(d2, w) && Walk(d2, w, cs) == Walk(d1, w, cs)
    decreases |cs|
  {
    assert Present(d2, w) by {
      if w.AtBox? {
        assert d1.Box(w.user, w.box).Some?;
      }
    }
    if cs != [] {
      var next := Down(d1, w, cs[0]);
      if next.Stuck? {
        WalkStuck(d1, next.errno, cs[1..]);
      } else {
        if w.AtHome? && BoxNamed(cs[0]).Some? {
          assert d1.Box(w.user, BoxNamed(cs[0]).value).Some? == d2.Box(w.user, BoxNamed(cs[0]).value).Some?;
        }
        assert Down(d2, w, cs[0]) == next;
        WalkSameShape(d1, d2, next, cs[1..]);
      }
    }
  }

  /** What the boxes hold decides only why a walk fails: a directory found in one spool is
      found the same in any spool of the same shape. */
  lemma LocateSameShape(d1: Disk, d2: Disk, rel: string)
    requires SameShape(d1, d2) && Locate(d1, rel).Directory?
    ensures Locate(d2, rel) == Locate(d1, rel)
  {
    var cs := Components(rel);
    if cs != [] {
      var init, c := cs[..|cs| - 1], cs[|cs| - 1];
      var w := Walk(d1, AtRoot, init);
      WalkSameShape(d1, d2, AtRoot, init);
      if w.AtHome? && BoxNamed(c).Some? {
        assert d1.Box(w.user, BoxNamed(c).value).Some? == d2.Box(w.user, BoxNamed(c).value).Some?;
      }
    }
  }
}
