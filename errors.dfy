/** `errorHandling`: the fixed catalogue that turns a failed call's `errno` into the text the
    server sends back. Both servers carry the same table. The numbers are Linux's. */
module Errno {
  import opened CText

  const EPERM: int := 1
  const ENOENT: int := 2
  const EINTR: int := 4
  const EIO: int := 5
  const ENXIO: int := 6
  const EBADF: int := 9
  const EWOULDBLOCK: int := 11
  const ENOMEM: int := 12
  const EACCES: int := 13
  const EFAULT: int := 14
  const EBUSY: int := 16
  const EEXIST: int := 17
  const ENODEV: int := 19
  const ENOTDIR: int := 20
  const EISDIR: int := 21
  const EINVAL: int := 22
  const ENFILE: int := 23
  const EMFILE: int := 24
  const ETXTBSY: int := 26
  const EFBIG: int := 27
  const ENOSPC: int := 28
  const EROFS: int := 30
  const ENAMETOOLONG: int := 36
  const ENOTEMPTY: int := 39
  const ELOOP: int := 40
  const EOVERFLOW: int := 75
  const EOPNOTSUPP: int := 95
  const EDQUOT: int := 122

  /** The errno values the table names a cause for. */
  const Listed: set<int> := {
    EACCES, EBADF, EMFILE, ENFILE, ENOENT, ENOMEM, ENOTDIR, EBUSY, EFAULT, EIO, EISDIR, ELOOP,
    ENAMETOOLONG, EPERM, EROFS, EINVAL, ENOTEMPTY, EDQUOT, EEXIST, EFBIG, EINTR, ENODEV, ENOSPC,
    ENXIO, EOPNOTSUPP, EOVERFLOW, ETXTBSY, EWOULDBLOCK
  }

  /** Every reply of the catalogue: `ERR - `, the cause, a newline. */
  function ErrReply(cause: string): (r: string)
    ensures StartsWith(r, "ERR - ") && EndsWith(r, "\n")
  {
    "ERR - " + cause + "\n"
  }

  const UnknownCause: string := "unknown error"

  predicate StartsWith(s: string, prefix: string) {
    prefix <= s
  }

  /** The cause `errorHandling` names for an errno; values outside the catalogue share one. */
  function CauseText(errno: int): string {
    if errno == EACCES then "permission denied"
    else if errno == EBADF then "bad file number"
    else if errno == EMFILE then "too many open files"
    else if errno == ENFILE then "file table oveflow"
    else if errno == ENOENT then "no such file or directory"
    else if errno == ENOMEM then "not enough core"
    else if errno == ENOTDIR then "not a directory"
    else if errno == EBUSY then "mount device busy"
    else if errno == EFAULT then "bad address"
    else if errno == EIO then "I/O error"
    else if errno == EISDIR then "is a directory"
    else if errno == ELOOP then "symbolic link loop"
    else if errno == ENAMETOOLONG then "path name is too long"
    else if errno == EPERM then "not super-user"
    else if errno == EROFS then "read only file system"
    else if errno == EINVAL then "invalid argument"
    else if errno == ENOTEMPTY then "directory not empty"
    else if errno == EDQUOT then "disc quota exceeded"
    else if errno == EEXIST then "file exists"
    else if errno == EFBIG then "file too large"
    else if errno == EINTR then "interrupted system call"
    else if errno == ENODEV then "no such device"
    else if errno == ENOSPC then "no space left on device"
    else if errno == ENXIO then "no such device or address"
    else if errno == EOPNOTSUPP then "operation not supported"
    else if errno == EOVERFLOW then "value too large to be stored in data type"
    else if errno == ETXTBSY then "text file busy"
    else if errno == EWOULDBLOCK then "resource temporarily unavailabe"
    else UnknownCause
  }

  /** The response text `errorHandling` copies into the response buffer: every value has a
      reply in the `ERR - <cause>\n` shape, and only values outside the catalogue get the
      catch-all one. */
  function ErrorText(errno: int): (r: string)
    ensures StartsWith(r, "ERR - ") && EndsWith(r, "\n")
    ensures errno !in Listed <==> r == ErrReply(UnknownCause)
  {
    CauseOfCauseText(errno);
    ErrReply(CauseText(errno))
  }

  /** Which catalogued errno a reply names, if any: the inverse of `ErrorText` on the catalogue. */
  function Cause(reply: string): (r: Option<int>)
    ensures r.Some? ==> r.value in Listed && ErrorText(r.value) == reply
  {
    if |reply| < 8 then None
    else
      var cause := reply[6..|reply| - 1];
      var e := ErrnoBySignature(|cause|, cause[0], cause[|cause| - 1]);
      if e.Some? && ErrorText(e.value) == reply then e else None
  }

  /** The causes of the catalogue differ already in their length, first and last character;
      this is the lookup on that triple. */
  function ErrnoBySignature(length: int, first: char, last: char): (r: Option<int>)
    ensures r.Some? ==> r.value in Listed
  {
    if length == 17 && first == 'p' && last == 'd' then Some(EACCES)
    else if length == 15 && first == 'b' && last == 'r' then Some(EBADF)
    else if length == 19 && first == 't' && last == 's' then Some(EMFILE)
    else if length == 18 && first == 'f' && last == 'w' then Some(ENFILE)
    else if length == 25 && first == 'n' && last == 'y' then Some(ENOENT)
    else if length == 15 && first == 'n' && last == 'e' then Some(ENOMEM)
    else if length == 15 && first == 'n' && last == 'y' then Some(ENOTDIR)
    else if length == 17 && first == 'm' && last == 'y' then Some(EBUSY)
    else if length == 11 && first == 'b' && last == 's' then Some(EFAULT)
    else if length == 9 && first == 'I' && last == 'r' then Some(EIO)
    else if length == 14 && first == 'i' && last == 'y' then Some(EISDIR)
    else if length == 18 && first == 's' && last == 'p' then Some(ELOOP)
    else if length == 21 && first == 'p' && last == 'g' then Some(ENAMETOOLONG)
    else if length == 14 && first == 'n' && last == 'r' then Some(EPERM)
    else if length == 21 && first == 'r' && last == 'm' then Some(EROFS)
    else if length == 16 && first == 'i' && last == 't' then Some(EINVAL)
    else if length == 19 && first == 'd' && last == 'y' then Some(ENOTEMPTY)
    else if length == 19 && first == 'd' && last == 'd' then Some(EDQUOT)
    else if length == 11 && first == 'f' && last == 's' then Some(EEXIST)
    else if length == 14 && first == 'f' && last == 'e' then Some(EFBIG)
    else if length == 23 && first == 'i' && last == 'l' then Some(EINTR)
    else if length == 14 && first == 'n' && last == 'e' then Some(ENODEV)
    else if length == 23 && first == 'n' && last == 'e' then Some(ENOSPC)
    else if length == 25 && first == 'n' && last == 's' then Some(ENXIO)
    else if length == 23 && first == 'o' && last == 'd' then Some(EOPNOTSUPP)
    else if length == 41 && first == 'v' && last == 'e' then Some(EOVERFLOW)
    else if length == 14 && first == 't' && last == 'y' then Some(ETXTBSY)
    else if length == 31 && first == 'r' && last == 'e' then Some(EWOULDBLOCK)
    else None
  }

  lemma {:induction false} CauseOfCauseText(errno: int)
    ensures var c := CauseText(errno);
      |c| > 0 && ErrnoBySignature(|c|, c[0], c[|c| - 1]) == if errno in Listed then Some(errno) else None
  {
    var c := CauseText(errno);
    if errno in Listed {
      SignatureOfListed(errno);
    } else {
      assert c == UnknownCause;
    }
  }

  lemma SignatureOfListed(errno: int)
    requires errno in Listed
    ensures var c := CauseText(errno); |c| > 0 && ErrnoBySignature(|c|, c[0], c[|c| - 1]) == Some(errno)
  {
    if errno in {EACCES, EBADF, EMFILE, ENFILE, ENOENT, ENOMEM, ENOTDIR} {
      SignatureOfGroup1(errno);
    }     else if errno in {EBUSY, EFAULT, EIO, EISDIR, ELOOP, ENAMETOOLONG, EPERM} {
      SignatureOfGroup2(errno);
    }     else if errno in {EROFS, EINVAL, ENOTEMPTY, EDQUOT, EEXIST, EFBIG, EINTR} {
      SignatureOfGroup3(errno);
    }     else if errno in {ENODEV, ENOSPC, ENXIO, EOPNOTSUPP, EOVERFLOW, ETXTBSY, EWOULDBLOCK} {
      SignatureOfGroup4(errno);
    }
  }

  lemma SignatureOfGroup1(errno: int)
    requires errno in {EACCES, EBADF, EMFILE, ENFILE, ENOENT, ENOMEM, ENOTDIR}
    ensures var c := CauseText(errno); |c| > 0 && ErrnoBySignature(|c|, c[0], c[|c| - 1]) == Some(errno)
  {
  }

  lemma SignatureOfGroup2(errno: int)
    requires errno in {EBUSY, EFAULT, EIO, EISDIR, ELOOP, ENAMETOOLONG, EPERM}
    ensures var c := CauseText(errno); |c| > 0 && ErrnoBySignature(|c|, c[0], c[|c| - 1]) == Some(errno)
  {
  }

  lemma SignatureOfGroup3(errno: int)
    requires errno in {EROFS, EINVAL, ENOTEMPTY, EDQUOT, EEXIST, EFBIG, EINTR}
    ensures var c := CauseText(errno); |c| > 0 && ErrnoBySignature(|c|, c[0], c[|c| - 1]) == Some(errno)
  {
  }

  lemma SignatureOfGroup4(errno: int)
    requires errno in {ENODEV, ENOSPC, ENXIO, EOPNOTSUPP, EOVERFLOW, ETXTBSY, EWOULDBLOCK}
    ensures var c := CauseText(errno); |c| > 0 && ErrnoBySignature(|c|, c[0], c[|c| - 1]) == Some(errno)
  {
  }

  /** Every listed errno has a reply of its own, and the catch-all reply names none. */
  lemma CauseOfErrorText(errno: int)
    ensures Cause(ErrorText(errno)) == if errno in Listed then Some(errno) else None
  {
    var c := CauseText(errno);
    var reply := ErrorText(errno);
    assert reply[6..|reply| - 1] == c;
    CauseOfCauseText(errno);
  }

  lemma ErrorTextsDistinct(a: int, b: int)
    requires a in Listed && b in Listed && a != b
    ensures ErrorText(a) != ErrorText(b)
  {
    CauseOfErrorText(a);
    CauseOfErrorText(b);
  }
}
