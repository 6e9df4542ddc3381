# TWMailer and myfind, modelled in Dafny

TWMailer is a small mail system for a university network. It comes in two editions:

- **TWMailer Basic.** A server (`twmailer-basic/myserver.c`) and a client (`twmailer-basic/myclient.c`). Every request names the user it acts for.
- **TWMailer Pro.** Its server (`twmailer-pro/myserver.c`) first runs a login handshake against the campus LDAP directory. After that it serves every request on behalf of the logged-in user. Its client (`twmailer-pro/myclient.c`) reads the uid with `fgets` and the password with a blind `getpass`. It sleeps for a minute after repeated refusals.

Both servers keep their mail in a spool under `/var/spool/mail/<user>/{in,out}`, with one file per message, named after its subject.
The user name and the subject are pasted into these paths unchecked. The model resolves each path as the file system does, so a subject such as `../../alice/in/x` files the message in alice's inbox (`MailSpec.DeliverClimbs`).

- The requests are SEND, LIST, READ, DEL and quit.
- Each request is one chunk of newline-separated lines. The server splits a chunk with `strtok`.
- Failed system calls are turned into replies by the `errorHandling` catalogue.

`myfind` (`myfind/main.c`) collects a search path and up to 100 file names from its arguments. Its `findFile` then looks for each name in a directory and, with `-R`, in the directories below it. `-i` makes the comparison ignore case.

The model has one module per concern:

| module | file | what it holds |
|---|---|---|
| `CText` | `text.dfy` | the C string view of buffers, the strip of a line ending, `strtok`, `atoi` and `sprintf("%d")` |
| `Errno` | `errors.dfy` | the `errorHandling` catalogue |
| `Directory` | `directory.dfy` | `ldapCredentials`, with the directory as an oracle value |
| `Spool` | `spool.dfy` | the spool as a value: directories are `readdir` listings, and refusals are part of the value |
| `Paths` | `paths.dfy` | how the kernel resolves a path under the spool root: components, ".", "..", homes, boxes and the files in them |
| `MailSpec` | `mail_spec.dfy` | saveMail, listMail, readMail and deleteMail as functions on spool values, with their properties |
| `Store` | `store.dfy` | the same routines as they run: methods of a `MailStore` class whose fields are the spool and the global `response` buffer |
| `Session` | `session.dfy` | what both request loops share: request parsing, the keyword chain, the trace of a connection and the loop test |
| `ProServer` | `server_pro.dfy` | the pro session: a class holding the logged-in account, with the login loop and the request loop |
| `BasicServer` | `server_basic.dfy` | the basic request loop |
| `ClientFrame` | `client_frame.dfy` | both clients' frame assembly on the 1024-byte buffer, `isQuit` and the request loop |
| `ProClient` | `pro_client.dfy` | the pro client's uid line, `getpass`, the tries counter and the login loop |
| `MyFind` | `myfind.dfy` | argument collection and `findFile` over a file tree value |

Where the code loops over a buffer or a directory, the model is a method with a loop. Each such method is proved equal to a specification function, and the properties are proved about that function.

Where the TWMailer assignment's requirements and the code disagree, the model follows the code:

- **Lockout.** The requirements have the server refuse a fourth login attempt for a cool-down after three failures. The pro server has no such counter: it answers every handshake (`ProServer.ProSession.LoginLoop`). The only cool-down is in the client, and that client sleeps on the 3rd, 5th, 7th ... refusal in a row, not on every third (`ProClient.CooldownOn`).
- **Quit.** The requirements end a session on a quit request. The servers answer quit with a goodbye and go on reading (`BasicServer.QuitContinues`, `ProServer.QuitContinues`). The loop test `strcmp(buffer, "quit\n.")` can never hold once `strtok` has cut the buffer (`Session.QuitNeverMatches`).
- **Unknown receiver.** The requirements leave open whether a SEND to an unknown receiver still writes the sender's outbox. In the pro server nothing is written (`ProServer.SendRefused`). The basic server does no check at all (`BasicServer.SendFrame`).

## Model

| member | source | states |
|---|---|---|
| CText.CString | twmailer-pro/myserver.c:375-384 | the text C sees in a buffer is its prefix before the first NUL and holds no NUL |
| CText.Strip | twmailer-pro/myserver.c:375-384 | one trailing "\r\n", or else one trailing "\n", is cut from a received chunk; nothing else changes |
| CText.StripLineEnding | twmailer-pro/myserver.c:375-384 | a line followed by "\r\n", or by "\n" when it does not end in "\r", strips back to the line itself |
| CText.CStringOfText | twmailer-pro/myserver.c:384 | text without NUL is its own C string |
| CText.CStringOfTerminated | twmailer-basic/myclient.c:162 | bytes followed by a NUL read as those bytes, whatever stale content follows |
| CText.Run | twmailer-pro/myserver.c:394-395 | the token `strtok` returns is the longest newline-free prefix, stopped by a newline |
| CText.Tokens | twmailer-pro/myserver.c:394-416 | the successive `strtok` tokens are non-empty and hold no newline |
| CText.RunOfLine | twmailer-pro/myserver.c:394-395 | a newline-free line is its own token, and the run continues into what follows |
| CText.TokensOfJoin | twmailer-pro/myserver.c:394-416 | `strtok` on lines joined by newlines gives back exactly those lines (inverse of Join) |
| CText.Decimal | twmailer-pro/myserver.c:703 | `sprintf("%d")` of a count is a non-empty digit string with no leading zero unless the count is 0 |
| CText.LeadingDigits | twmailer-pro/myserver.c:472 | the digits `atoi` consumes are the longest digit prefix |
| CText.SkipSpace | twmailer-pro/myserver.c:472 | `atoi` skips leading white space and keeps the rest as a suffix |
| CText.Atoi | twmailer-pro/myserver.c:472 | text that does not start with a sign or a digit, after white space, reads as 0 |
| CText.ValueOfDecimal | twmailer-pro/myserver.c:703 | the digits printed for n have the value n |
| CText.LeadingDigitsOfDigits | twmailer-pro/myserver.c:472 | a digit string is read whole |
| CText.AtoiOfDigits | twmailer-pro/myserver.c:472 | `atoi` of a digit string is its value |
| CText.AtoiOfDecimal | twmailer-pro/myserver.c:478 | `atoi` reads back what `sprintf("%d")` wrote, so a listed number names the same message in READ and DEL |
| Errno.ErrReply | twmailer-pro/myserver.c:883-973 | every catalogue reply has the shape "ERR - cause\n" |
| Errno.ErrorText | twmailer-pro/myserver.c:883-973 | every errno gets an "ERR - ...\n" reply, and exactly the unlisted ones get "unknown error" |
| Errno.Cause | twmailer-basic/myserver.c:695-782 | recovers the listed errno from its reply (inverse of ErrorText on the catalogue) |
| Errno.ErrnoBySignature | twmailer-basic/myserver.c:695-782 | a lookup by cause length, first and last character yields only catalogued errnos |
| Errno.CauseOfCauseText | twmailer-pro/myserver.c:883-973 | the lookup by signature gives back exactly the listed errno, and nothing for unlisted ones |
| Errno.SignatureOfListed | twmailer-pro/myserver.c:883-973 | every catalogued cause is identified by its signature |
| Errno.SignatureOfGroup1 | twmailer-pro/myserver.c:883-973 | signature lookup is exact for EACCES, EBADF, EMFILE, ENFILE, ENOENT, ENOMEM, ENOTDIR |
| Errno.SignatureOfGroup2 | twmailer-pro/myserver.c:883-973 | signature lookup is exact for EBUSY, EFAULT, EIO, EISDIR, ELOOP, ENAMETOOLONG, EPERM |
| Errno.SignatureOfGroup3 | twmailer-pro/myserver.c:883-973 | signature lookup is exact for EROFS, EINVAL, ENOTEMPTY, EDQUOT, EEXIST, EFBIG, EINTR |
| Errno.SignatureOfGroup4 | twmailer-pro/myserver.c:883-973 | signature lookup is exact for ENODEV, ENOSPC, ENXIO, EOPNOTSUPP, EOVERFLOW, ETXTBSY, EWOULDBLOCK |
| Errno.CauseOfErrorText | twmailer-pro/myserver.c:883-973 | the reply of an errno names that errno exactly when it is catalogued (round trip) |
| Errno.ErrorTextsDistinct | twmailer-basic/myserver.c:695-782 | different catalogued errnos get different replies |
| Directory.Credentials | twmailer-pro/myserver.c:975-1102 | the count is positive exactly when the session opens, the bind succeeds and 1 to 500 entries match the filter; it is then the number of matches |
| Directory.Fold | twmailer-pro/myserver.c:1058-1060 | definition: ASCII case folding, as a case-ignoring uid match compares; its use is stated by `Directory.PrefixAccepted` and `Directory.CaseVariantAccepted` |
| Directory.Matches | twmailer-pro/myserver.c:1058-1087 | the search returns only existing uids, and for a literal text exactly the ASCII uids it is a case-ignoring prefix of |
| Directory.Filter | twmailer-pro/myserver.c:1058-1060 | definition: the searched text pasted unescaped between "(uid=" and "*)" |
| Directory.Dn | twmailer-pro/myserver.c:303-304 | definition: the bind DN "uid=<uid>,ou=people,dc=technikum-wien,dc=at" |
| Directory.PrefixAccepted | twmailer-pro/myserver.c:1058-1060 | the `(uid=<text>*)` filter accepts any text that starts an existing uid, ignoring case |
| Directory.UnknownRefused | twmailer-pro/myserver.c:1079-1101 | a literal text that starts no uid, in any mix of cases, gets 0 |
| Directory.CaseVariantAccepted | twmailer-pro/myserver.c:1058-1060 | a receiver written in capitals is accepted for the lower-case account |
| Directory.DnInjective | twmailer-pro/myserver.c:303-304 | different uids give different bind DNs |
| Spool.IsMessageByName | twmailer-pro/myserver.c:690 | in a proper directory, an entry is a message exactly when its name is a valid message name |
| Spool.MessagesAppend | twmailer-pro/myserver.c:688-693 | the messages of a concatenated listing are the concatenated messages |
| Spool.Messages | twmailer-pro/myserver.c:688-693 | definition: the entries that are neither "." nor "..", in `readdir` order |
| Spool.Count | twmailer-pro/myserver.c:688-693 | definition: the number of messages |
| Spool.MessagesAreFiles | twmailer-pro/myserver.c:688-693 | every message is a file entry |
| Spool.MessagesSnoc | twmailer-pro/myserver.c:688-693 | one more entry adds itself to the messages exactly when it is not "." or ".." |
| Spool.Names | twmailer-pro/myserver.c:720-748 | the subjects listed are the entries' names, position by position |
| Spool.Find | twmailer-pro/myserver.c:607 | locates the entry `fopen(..., "w")` reuses, or shows there is none |
| Spool.Put | twmailer-pro/myserver.c:637-646 | a write keeps the directory's size (overwrite in place) or appends exactly the new file, last |
| Spool.MessagesOfEntry | twmailer-pro/myserver.c:690 | a single entry contributes itself exactly when it is a message |
| Spool.MessagesSplit | twmailer-pro/myserver.c:777-789 | the messages split around any entry |
| Spool.NthIndex | twmailer-pro/myserver.c:777-789 | message k sits at a message entry with exactly k - 1 messages before it |
| Spool.NthIndexPlace | twmailer-pro/myserver.c:777-789 | the entry at that position is message k of the listing |
| Spool.CountStep | twmailer-pro/myserver.c:688-693 | each entry read adds one to the count exactly when it is a message |
| Spool.CountMonotone | twmailer-pro/myserver.c:688-693 | a longer prefix never counts fewer messages |
| Spool.NthIndexAt | twmailer-pro/myserver.c:777-789 | the entry a counting loop stops at is the message with that ordinal |
| Spool.NameTest | twmailer-pro/myserver.c:690 | the servers' "neither . nor .." test selects exactly the messages |
| Spool.MessagesFrom | twmailer-pro/myserver.c:720-748 | the messages from an entry on are that entry, if a message, then the rest |
| Spool.RemoveNthMessages | twmailer-pro/myserver.c:858-873 | removing message k leaves the other messages in order |
| Spool.RemoveNth | twmailer-pro/myserver.c:858-867 | definition: the directory without the entry of message k |
| Spool.RemoveNthRenumbers | twmailer-pro/myserver.c:858-873 | after removing message k, earlier messages keep their numbers and later ones move down by one |
| Spool.MessagesUpdate | twmailer-pro/myserver.c:637-645 | overwriting a message entry changes that message only |
| Spool.PutExisting | twmailer-pro/myserver.c:637-645 | a save under an existing subject replaces that message in place |
| Spool.PutFresh | twmailer-pro/myserver.c:637-645 | a save under a new subject becomes the last message (this model adds a new file last in `readdir` order; `Spool.PutHolds` is the order-free form) |
| Spool.PutHolds | twmailer-pro/myserver.c:637-645 | after a save the box holds that file with those contents |
| Spool.PutUnique | twmailer-pro/myserver.c:637-645 | saving keeps names unique |
| Spool.PutSubjects | twmailer-pro/myserver.c:637-645 | saving adds the subject to the set of subjects and nothing else |
| Spool.CountSubjects | twmailer-pro/myserver.c:688-693 | with unique names, the messages are as many as their names |
| Spool.UniqueMessageNames | twmailer-pro/myserver.c:688-693 | the messages of a directory with unique names have unique names |
| Spool.SubjectsSentCons | twmailer-pro/myserver.c:625-653 | the subjects of a sequence of saves are the first one's plus the rest's |
| Spool.PutAllSubjects | twmailer-pro/myserver.c:625-653 | after any sequence of saves, names stay unique and the subjects are the old ones plus those sent |
| Spool.CountIsDistinctSubjects | twmailer-pro/myserver.c:625-653 | a box that starts without messages ends with one message per distinct subject sent (a reused subject overwrites) |
| Spool.SubjectsCount | twmailer-pro/myserver.c:688-693 | the message count is the number of subjects |
| Spool.EmptyDirIsFresh | twmailer-pro/myserver.c:581-595 | a freshly made box has no messages |
| Spool.RecordRoundTrip | twmailer-pro/myserver.c:607-615 | a stored record "from: sender\nmessage\n" parses back into sender and message |
| Spool.Record | twmailer-pro/myserver.c:640-644 | definition: the text the `fputs` calls write, "from: " sender "\n" message "\n" |
| Spool.ParseRecord | twmailer-pro/myserver.c:640-644 | definition: the sender and message read back from a stored record, or none |
| Spool.FindAppended | twmailer-pro/myserver.c:637 | a name no entry carries is found at the end once a file of that name is added |
| MailSpec.Mail | twmailer-pro/myserver.c:675-693 | the messages of a box are files; a missing box holds none |
| Paths.NameEnd | twmailer-pro/myserver.c:629-637 | the first component of a path ends at its first "/" or at the end |
| Paths.Components | twmailer-pro/myserver.c:629-637 | a path splits into non-empty components without "/", as the kernel resolves it |
| Paths.ComponentsOfName | twmailer-pro/myserver.c:573-576 | a single name is one component |
| Paths.ComponentsJoin | twmailer-pro/myserver.c:629-634 | a path joined with "/" has the components of both parts |
| Paths.BoxNamed | twmailer-pro/myserver.c:581-586 | only "in" and "out" name a box inside a home |
| Paths.Down | twmailer-pro/myserver.c:637 | a lookup from a directory that exists reaches a directory that exists, a failure with its errno, or a place above the root |
| Paths.Walk | twmailer-pro/myserver.c:637 | walking components from a directory that exists keeps to directories that exist, a failure, or a place above the root |
| Paths.Last | twmailer-pro/myserver.c:637 | the last component names an existing directory, a plain name in an existing box, a plain name missing from the root or a home, a failed walk, or a place outside the spool |
| Paths.At | twmailer-pro/myserver.c:637 | what a list of components names from the spool root is one of those targets |
| Paths.Locate | twmailer-pro/myserver.c:637 | what `<root><rel>` names is one of those targets |
| Paths.FileComponents | twmailer-pro/myserver.c:629-634 | the components of `<user>/in/<subject>` are the user name's, the box name and the subject's |
| Paths.LocateHome | twmailer-pro/myserver.c:573-577 | a user name that is a single name names that home, present or missing |
| Paths.LocateBox | twmailer-pro/myserver.c:758-764 | for a user name that is a single name, `<user>/in` and `<user>/out` name that user's box, present or missing, and fail with ENOENT without the home |
| Paths.LocateFile | twmailer-pro/myserver.c:629-637 | for a single user name and a subject without "/", the file path names the subject in that user's box, or the walk fails there when the box is missing |
| Paths.LocateSameShape | twmailer-pro/myserver.c:764 | a directory a path leads to does not depend on what the boxes hold |
| MailSpec.Mkdir | twmailer-pro/myserver.c:577-595 | definition: `mkdir` of the located path: EEXIST for an existing name, the errno of a refused path or a failed walk, a new home or box, or a directory created where the spool has no place for one |
| MailSpec.MkdirEffect | twmailer-pro/myserver.c:577-595 | a `mkdir` that succeeds adds an empty home or box: every box reads as before (a missing one as empty), the homes and refusals stay, and directories stay well formed |
| MailSpec.Write | twmailer-pro/myserver.c:637-652 | definition: `fopen(..., "w")` and the writes on the located path |
| MailSpec.UpdateBox | twmailer-pro/myserver.c:581-595 | replacing one box changes that box and no other |
| MailSpec.WriteEffect | twmailer-pro/myserver.c:637-652 | `fopen(..., "w")` succeeds exactly on a name inside a box, wherever the path leads through ".." and other homes, when that file is not refused; it then puts the contents under that name in that box and changes no other box. A failed open changes nothing, and a file created anywhere but in a box is a stray outcome |
| MailSpec.MakeDirs | twmailer-pro/myserver.c:577-625 | definition: `mkdir` of the home, then of `in` and `out` for a new home; EEXIST goes on to the write |
| MailSpec.MakeDirsEffect | twmailer-pro/myserver.c:577-595 | making the directories adds no message, keeps the refusals and well-formedness, and a save that stops there has failed |
| MailSpec.MakeDirsPlain | twmailer-pro/myserver.c:577-625 | for a single user name: an existing home goes on to the write; a refused home reports its errno unless it is EEXIST; otherwise the home, `in` and `out` are made, and a refused `in` or `out` stops the save with no report |
| MailSpec.Save | twmailer-pro/myserver.c:559-661 | definition: the directories, then the write of the record to `<user>/in/` or `/out/` followed by the subject |
| MailSpec.SaveEffect | twmailer-pro/myserver.c:559-661 | `saveMail` writes at most one file: the one its path resolves to once the directories are made. When it returns 1 that box holds the record under the last component of the path, and any box whose messages changed is that box. A failed or stray save changes no box's messages, and the refusals stay |
| MailSpec.WritePlain | twmailer-pro/myserver.c:629-652 | for a single user name and a subject without "/": EISDIR for an empty, "." or ".." subject, ENOENT for a missing box, the refusal of a refused file, and otherwise the file is put |
| MailSpec.SavePlain | twmailer-pro/myserver.c:559-661 | for a single user name and a subject without "/": returns 1 exactly when `CanSave` holds, and then the box is the one before with the record put under the subject; no other box changes; a failure changes nothing; such a save never strays |
| MailSpec.UpdateBoxWellFormed | twmailer-pro/myserver.c:581-595 | replacing a box by a good one keeps the spool well formed |
| MailSpec.SaveWellFormed | twmailer-pro/myserver.c:559-661 | saving keeps every directory's names unique and proper |
| MailSpec.SaveOverwrites | twmailer-pro/myserver.c:625-653 | a save under an existing subject replaces that message: same count, same numbering, new contents |
| MailSpec.SaveAppends | twmailer-pro/myserver.c:625-653 | a save under a new subject adds one message, numbered last (a new file is added last in `readdir` order in this model; `Spool.PutHolds` and `MailSpec.DeliverOk` are the order-free forms) |
| MailSpec.SaveLeavesOthers | twmailer-pro/myserver.c:559-661 | a save for a user name that is a single name, with a subject without "/", leaves every other user's boxes alone (`MailSpec.DeliverClimbs` shows that other subjects do write elsewhere) |
| MailSpec.Deliver | twmailer-pro/myserver.c:443-454 | definition: the save into the receiver's inbox, then into the sender's outbox, and OK only when both return 1 |
| MailSpec.DeliverOk | twmailer-pro/myserver.c:443-454 | for user names that are single names and a subject without "/", SEND replies OK exactly when both saves can succeed, and then the signed message is in the receiver's inbox and the sender's outbox |
| MailSpec.ClimbLocate | twmailer-pro/myserver.c:629-637 | from any existing box, the subject "../../<victim>/in/<name>" leads to <name> in the victim's inbox |
| MailSpec.SaveClimbs | twmailer-pro/myserver.c:625-646 | a save from an existing home under that subject returns 1 and writes the record into the victim's inbox |
| MailSpec.DeliverClimbs | twmailer-pro/myserver.c:443-454 | a SEND under that subject between users whose boxes exist replies OK; the victim's inbox gets one new message signed by the sender, and the receiver's inbox and the sender's outbox get nothing |
| MailSpec.OpenInbox | twmailer-pro/myserver.c:758-770 | the box `opendir(<user>/in)` opens exists; otherwise it fails with ENOTDIR, ENOENT or the refused errno, or strays |
| MailSpec.OpenPlain | twmailer-pro/myserver.c:758-770 | for a single user name: ENOENT for a missing inbox, the refused errno, and otherwise that user's inbox |
| MailSpec.OpenSameShape | twmailer-pro/myserver.c:764 | the box an inbox path opens does not depend on what the boxes hold |
| MailSpec.Fits | twmailer-pro/myserver.c:809-815 | a response is sent exactly when it is shorter than BUF; a longer one is written past response[BUF] |
| MailSpec.Read | twmailer-pro/myserver.c:753-823 | definition: the inbox opened, the seek to message k, and "OK\n" plus its contents, with the error replies |
| MailSpec.ReadShowsNth | twmailer-pro/myserver.c:777-815 | READ k on an inbox that opens shows "OK\n" and the contents of message k of the listing, when that fits the response |
| MailSpec.ReadOutOfRange | twmailer-pro/myserver.c:791-800 | numbers outside 1..N give "This message does not exist"; READ 0 on an empty inbox leaves the response as it was |
| MailSpec.ReadCrashes | twmailer-pro/myserver.c:806-815 | READ ends the process exactly when message k opens and "OK\n" plus its contents does not fit the response |
| MailSpec.SavedLast | twmailer-pro/myserver.c:625-646 | a save under a new subject into a single-named user's inbox leaves one more message, the new one last (under this model's `readdir` order) |
| MailSpec.ReadPlain | twmailer-pro/myserver.c:753-815 | for a single user name whose inbox opens, READ k shows "OK\n" and message k when it fits |
| MailSpec.ReadSameInbox | twmailer-pro/myserver.c:753-823 | what READ shows a single-named user depends only on that user's inbox and the refusals |
| MailSpec.SaveThenRead | twmailer-pro/myserver.c:625-815 | a message saved under a new subject reads back at the next number with its sender line, unless it overflows the response (the new file is last in `readdir` order in this model; `Spool.PutHolds` is the order-free form) |
| MailSpec.ReadAfterDeliver | twmailer-pro/myserver.c:433-474 | after a SEND to another user, that user's next number reads back the message sent, unless it overflows the response (the new file is last in `readdir` order in this model; `MailSpec.DeliverOk` is the order-free form) |
| MailSpec.DeleteRemovesNth | twmailer-pro/myserver.c:825-878 | a DEL answered OK removes exactly message k and no other box changes |
| MailSpec.Delete | twmailer-pro/myserver.c:825-878 | definition: the inbox opened, the seek to message k and its removal, with the error replies and the `readdir(NULL)` crash |
| MailSpec.RemoveKeepsGood | twmailer-pro/myserver.c:858-867 | removing an entry keeps names unique and proper |
| MailSpec.DeleteWellFormed | twmailer-pro/myserver.c:825-878 | deleting keeps the spool well formed |
| MailSpec.ErrorTextShape | twmailer-pro/myserver.c:883-973 | no catalogue reply reads as OK |
| MailSpec.DeleteOutOfRange | twmailer-pro/myserver.c:842-877 | numbers outside 1..N change nothing and reply "ERR - could not remove message" |
| MailSpec.DeleteCrashes | twmailer-pro/myserver.c:836-843 | DEL ends the process exactly when the inbox cannot be opened (`readdir` on NULL) |
| MailSpec.DeleteThenRead | twmailer-pro/myserver.c:825-878 | after DEL k, READ k shows what was message k + 1, when that fits the response |
| MailSpec.ConcatAppend | twmailer-pro/myserver.c:720-748 | appending two runs of pieces is appending their texts |
| MailSpec.ConcatFour | twmailer-pro/myserver.c:723-743 | one listing line is its four pieces |
| MailSpec.ConcatPieces | twmailer-basic/myserver.c:568-579 | appending every piece without a guard gives the numbered listing |
| MailSpec.Taken | twmailer-pro/myserver.c:720-748 | the guarded append takes at most all the pieces |
| MailSpec.FitStopsAtPiece | twmailer-pro/myserver.c:720-748 | the guarded listing is the response plus the first pieces; when it stops early, the next piece would pass BUF - 2 |
| MailSpec.FitBound | twmailer-pro/myserver.c:720-748 | the guarded listing never grows the response past BUF - 2 characters |
| MailSpec.FitWhole | twmailer-pro/myserver.c:720-748 | when everything fits, nothing is cut |
| MailSpec.Fit | twmailer-pro/myserver.c:720-748 | definition: each piece is appended while the response stays within BUF - 2 |
| MailSpec.Pieces | twmailer-pro/myserver.c:720-748 | definition: number, ": ", subject, newline for each message |
| MailSpec.Listing | twmailer-basic/myserver.c:568-579 | definition: the numbered listing lines |
| MailSpec.HeaderPro | twmailer-pro/myserver.c:694-711 | definition: the pro header, naming the user |
| MailSpec.HeaderBasic | twmailer-basic/myserver.c:549-560 | definition: the basic header |
| MailSpec.ListPro | twmailer-pro/myserver.c:663-751 | definition: the error text and a zero count, or the header and the guarded listing |
| MailSpec.ListBasic | twmailer-basic/myserver.c:523-582 | definition: the error text and a zero count, or the header and the whole listing, taken as a crash once it reaches BUF |
| MailSpec.ListProTruncates | twmailer-pro/myserver.c:663-751 | the pro listing is a prefix of the full one, at most BUF - 2 long unless the header alone is longer, and whole when it fits |
| MailSpec.ListBasicWhole | twmailer-basic/myserver.c:523-582 | on an inbox that opens, the basic listing is the header and every numbered subject when shorter than BUF, and ends the process otherwise |
| MailSpec.HeaderCounts | twmailer-pro/myserver.c:694-711 | the header states the message count, which `atoi` reads back |
| Store.FgetsLength | twmailer-pro/myserver.c:811 | one `fgets` takes up to and including the next newline, at most BUF - 1 characters |
| Store.CountMessages | twmailer-pro/myserver.c:688-693 | the first `readdir` loop counts exactly the messages |
| Store.PiecesFrom | twmailer-pro/myserver.c:720-748 | the pieces left after reading an entry: its four pieces if it is a message, then the rest |
| Store.ListingFrom | twmailer-basic/myserver.c:568-579 | the listing left after reading an entry: its line if it is a message, then the rest |
| Store.FitCons | twmailer-pro/myserver.c:726-744 | the guarded append takes the next piece exactly when it fits |
| Store.AppendGuarded | twmailer-pro/myserver.c:719-748 | the pro listing loop leaves the guarded listing of all messages |
| Store.AppendAll | twmailer-basic/myserver.c:568-579 | the basic listing loop leaves the header plus the whole numbered listing |
| Store.SeekRead | twmailer-pro/myserver.c:777-794 | the readMail loop stops on message k exactly when 1 <= k <= N, else it counts all N |
| Store.SeekDelete | twmailer-pro/myserver.c:842-854 | the deleteMail loop stops on message k exactly when 1 <= k <= N |
| Store.AppendLines | twmailer-pro/myserver.c:811-815 | the `fgets`/`strcat` loop appends the whole file to the response |
| Store.MailStore.constructor | twmailer-pro/myserver.c:559 | a store starts on a well-formed spool with an empty response |
| Store.MailStore.ErrorHandling | twmailer-pro/myserver.c:883-973 | the catalogue reply replaces the response; the spool is unchanged |
| Store.MailStore.MakeDir | twmailer-pro/myserver.c:577-595 | `mkdir` leaves the spool `Mkdir` describes and reports its errno or that it strayed; the response is unchanged |
| Store.MailStore.WriteFile | twmailer-pro/myserver.c:637-652 | the file write leaves the spool `Write` describes and reports its errno, or reports that it created a file outside the boxes; the response is unchanged |
| Store.MailStore.SaveMail | twmailer-pro/myserver.c:559-661 | leaves the spool `Save` describes, returns its verdict, reports a failure through errorHandling, and says when the save strayed outside the boxes |
| Store.MailStore.Deliver | twmailer-pro/myserver.c:443-454 | the two saves of SEND and the OK or ERR reply, or a stray outcome, as `MailSpec.Deliver` |
| Store.MailStore.ListMailPro | twmailer-pro/myserver.c:663-751 | the response is the guarded listing `ListPro`, or the open strayed outside the spool; the spool is unchanged |
| Store.MailStore.ListMailBasic | twmailer-basic/myserver.c:523-582 | the response is the unguarded listing, with an overflow flag exactly when it reaches BUF, or a stray flag; the spool is unchanged |
| Store.MailStore.ReadMail | twmailer-pro/myserver.c:753-823 | the outcome is `Read`: the reply in the response, the overflow of the unguarded `strcat` into response[BUF], or a stray open; the spool is unchanged |
| Store.MailStore.DeleteMail | twmailer-pro/myserver.c:825-878 | leaves the spool `Delete` describes and reports the crash when the inbox cannot be opened, or a stray open |
| Session.Keyword | twmailer-pro/myserver.c:400-414 | each command name matches exactly, case-sensitively; anything else is no command |
| Session.Request | twmailer-pro/myserver.c:375-416 | a chunk's request lines are non-empty and newline-free |
| Session.ReplayReply | twmailer-pro/myserver.c:343-500 | an answered request puts its reply in front of the rest of the connection |
| Session.Replay | twmailer-pro/myserver.c:343-500 | definition: the requests answered one by one until one crashes or strays |
| Session.ReplayLength | twmailer-pro/myserver.c:343-500 | every request before a crash gets exactly one reply |
| Session.ServedReplay | twmailer-pro/myserver.c:343-500 | requests served one by one make up the start of the connection's trace |
| Session.ReplayCrash | twmailer-pro/myserver.c:343-500 | a request that crashes ends the connection |
| Session.ServedMore | twmailer-pro/myserver.c:343-500 | serving one more request extends the served prefix |
| Session.LeadingNewlines | twmailer-pro/myserver.c:394-395 | the newlines `strtok` skips before the first token |
| Session.QuitNeverMatches | twmailer-pro/myserver.c:500 | the loop test never sees "quit\n.", so only a closed connection ends the loop |
| Session.LoopBuffer | twmailer-pro/myserver.c:500 | definition: what the loop test sees in the buffer after `strtok` |
| Session.ServerSeesFrame | twmailer-basic/myserver.c:238-271 | a client frame sent with its NUL and stale bytes is read back exactly |
| Session.CStringPrefix | twmailer-basic/myserver.c:262-271 | a NUL after the frame cuts the C string there |
| Session.RequestOfLines | twmailer-basic/myserver.c:262-303 | a frame joined from lines reaches the server as exactly those lines |
| Session.NoNulInJoin | twmailer-basic/myclient.c:100-110 | lines without NUL join into text without NUL |
| ProServer.AccountOf | twmailer-pro/myserver.c:272-310 | the handshake records the uid and password as C strings and the DN built from the uid |
| ProServer.FirstAccepted | twmailer-pro/myserver.c:266-342 | the first accepted handshake, with every earlier one refused, or none accepted |
| ProServer.Accepted | twmailer-pro/myserver.c:303-310 | definition: the directory accepts the account's DN, uid and password |
| ProServer.SendStep | twmailer-pro/myserver.c:443-459 | definition: "receiver does not exist" when the directory finds none, and otherwise the delivery from the logged-in uid |
| ProServer.ProExecute | twmailer-pro/myserver.c:431-486 | definition: the switch on the parsed request |
| ProServer.ProStep | twmailer-pro/myserver.c:375-486 | definition: strip, parse and execute one chunk |
| ProServer.ProParse | twmailer-pro/myserver.c:394-486 | the request kind is decided by the first token and the number of lines, in both directions; SEND takes the next three lines and READ and DEL `atoi` of the next |
| ProServer.ProSession.constructor | twmailer-pro/myserver.c:250-265 | a session starts logged out with an empty account |
| ProServer.ProSession.Current | twmailer-pro/myserver.c:272-310 | definition: the account the session holds |
| ProServer.ProSession.Login | twmailer-pro/myserver.c:272-341 | records the account and logs in exactly when the directory accepts it, replying LOGINOK or NOTOK |
| ProServer.ProSession.LoginLoop | twmailer-pro/myserver.c:266-342 | answers NOTOK to every handshake before the first accepted one, then LOGINOK with that account; with no failure count |
| ProServer.ProSession.Send | twmailer-pro/myserver.c:433-460 | SEND as `SendStep`: the directory check, then the delivery from the logged-in user, or a stray outcome |
| ProServer.ProSession.Execute | twmailer-pro/myserver.c:431-499 | the switch carries out the parsed request as `ProExecute` and empties the response |
| ProServer.ProSession.HandleChunk | twmailer-pro/myserver.c:351-499 | one pass of the request loop, as `ProStep` |
| ProServer.ProSession.CommandLoop | twmailer-pro/myserver.c:343-500 | the request loop produces the connection trace `Replay` defines |
| ProServer.ParseRequest | twmailer-pro/myserver.c:375-480 | the parsing code yields `ProParse` of the request's lines |
| ProServer.FirstAcceptedAt | twmailer-pro/myserver.c:266-342 | the handshake the loop stops at is the first accepted one |
| ProServer.ProCrashes | twmailer-pro/myserver.c:394-486 | the process dies exactly on an empty request, SEND with under three arguments, READ or DEL without a number, a READ whose message overflows the response, or DEL on an inbox that cannot be opened |
| ProServer.ExecuteCrashes | twmailer-pro/myserver.c:431-486 | a parsed request ends the process exactly when malformed, a READ that overflows, or a DEL whose inbox cannot be opened |
| ProServer.ProStepKeepsSpool | twmailer-pro/myserver.c:461-486 | only SEND and DEL change the spool |
| ProServer.SendRefused | twmailer-pro/myserver.c:443-459 | "receiver does not exist" is sent exactly when the directory finds no receiver, and then nothing is written |
| ProServer.SendFrame | twmailer-pro/myserver.c:433-446 | a typed SEND frame delivers its receiver, subject and first body line; later lines are ignored |
| ProServer.ReadFrame | twmailer-pro/myserver.c:467-474 | a READ frame reads the number its second line spells |
| ProServer.SendThenRead | twmailer-pro/myserver.c:433-474 | after A sends to B, B's READ of the next number shows the message signed with A's uid, or overflows the response (the new file is last in `readdir` order in this model; `MailSpec.DeliverOk` is the order-free form) |
| ProServer.QuitFrame | twmailer-pro/myserver.c:481-483 | the quit frame is answered with a goodbye and changes nothing |
| ProServer.QuitContinues | twmailer-pro/myserver.c:481-500 | after the goodbye the connection goes on as if quit had not been sent |
| BasicServer.BasicParse | twmailer-basic/myserver.c:281-362 | the request kind is decided by the first token and the number of lines, in both directions; the user is always the second line |
| BasicServer.BasicExecute | twmailer-basic/myserver.c:317-362 | definition: the switch on the parsed request |
| BasicServer.BasicStep | twmailer-basic/myserver.c:262-362 | definition: strip, parse and execute one chunk |
| BasicServer.ParseRequest | twmailer-basic/myserver.c:262-356 | the parsing code yields `BasicParse` of the request's lines |
| BasicServer.Execute | twmailer-basic/myserver.c:317-368 | the switch carries out the parsed request as `BasicExecute` and empties the response |
| BasicServer.HandleChunk | twmailer-basic/myserver.c:238-368 | one pass of the request loop, as `BasicStep` |
| BasicServer.CommandLoop | twmailer-basic/myserver.c:215-375 | the request loop produces the connection trace `Replay` defines |
| BasicServer.BasicCrashes | twmailer-basic/myserver.c:281-362 | the process dies exactly on fewer than two lines, SEND with under four arguments, READ or DEL without a number, a listing or a message too long for the buffer, or DEL on an inbox that cannot be opened |
| BasicServer.ExecuteCrashes | twmailer-basic/myserver.c:317-362 | a parsed request ends the process exactly when malformed, an overflowing listing or read, or DEL on an inbox that cannot be opened |
| BasicServer.BareQuitCrashes | twmailer-basic/myserver.c:303-310 | even a bare "quit" needs a second line; without one the process dies |
| BasicServer.BasicStepKeepsSpool | twmailer-basic/myserver.c:337-362 | only SEND and DEL change the spool |
| BasicServer.SendFrame | twmailer-basic/myserver.c:318-336 | a SEND frame delivers from whatever sender it names, with no check of sender or receiver |
| BasicServer.ReadFrame | twmailer-basic/myserver.c:343-350 | a READ frame reads the named user's inbox at the number its third line spells |
| BasicServer.ReadNonNumeric | twmailer-basic/myserver.c:348 | a number line that does not start with a number reads message 0 |
| BasicServer.SendThenRead | twmailer-basic/myserver.c:318-350 | anyone can send in anyone's name, and the message reads back signed with that name, or overflows the response (the new file is last in `readdir` order in this model; `MailSpec.DeliverOk` is the order-free form) |
| BasicServer.QuitFrame | twmailer-basic/myserver.c:357-358 | the quit frame is answered with a goodbye and changes nothing |
| BasicServer.QuitContinues | twmailer-basic/myserver.c:357-375 | after the goodbye the connection goes on |
| ClientFrame.Key | twmailer-basic/myclient.c:100-110 | each `fgetc` gives the next input character, then EOF |
| ClientFrame.FirstEnd | twmailer-basic/myclient.c:100-110 | the frame ends at the first "." followed by a newline, or when the buffer is full |
| ClientFrame.Keys | twmailer-basic/myclient.c:100-110 | definition: the first n characters `fgetc` returns; what the frame makes of them is stated by `ClientFrame.FrameOfText` |
| ClientFrame.Framed | twmailer-basic/myclient.c:100-110 | definition: the characters the frame loop writes, with a NUL for the final newline |
| ClientFrame.Remaining | twmailer-basic/myclient.c:100-110 | definition: the input the frame loop leaves unread |
| ClientFrame.AssembleFrame | twmailer-basic/myclient.c:100-110 | the frame loop writes `Framed(input)` to the buffer's front and leaves the rest as it was |
| ClientFrame.Overwritten | twmailer-basic/myclient.c:100-110 | a buffer whose front was overwritten is that front plus its old rest |
| ClientFrame.FirstEndIs | twmailer-basic/myclient.c:100-110 | an end with no end before it is the first end |
| ClientFrame.FrameBound | twmailer-basic/myclient.c:100-110 | a frame takes 1 to MSG characters, and is NUL-terminated exactly when a "." and a newline arrive in time |
| ClientFrame.DotNewlineEnds | twmailer-basic/myclient.c:100-110 | any "." followed by a newline ends the frame, even at the end of a longer line |
| ClientFrame.LeadingNewlineKept | twmailer-basic/myclient.c:100-110 | a newline typed first does not end the frame |
| ClientFrame.FrameOfText | twmailer-basic/myclient.c:100-110 | text up to a "." line becomes the frame with a NUL for the final newline, and the rest stays unread |
| ClientFrame.NoEarlyEndOfLines | twmailer-basic/myclient.c:100-110 | lines of which only the last ends in "." cannot end a frame early |
| ClientFrame.JoinStartsWithLine | twmailer-basic/myclient.c:100-110 | a join starts with its first line's first character |
| ClientFrame.TypedRequest | twmailer-basic/myclient.c:100-137 | a request typed line by line up to "." reaches the server as exactly those lines |
| ClientFrame.JoinEndsWithLine | twmailer-basic/myclient.c:100-110 | a join ends with its last line's last character |
| ClientFrame.QuitTyped | twmailer-basic/myclient.c:114 | typing "quit" then "." sets `isQuit` |
| ClientFrame.QuitIff | twmailer-basic/myclient.c:114 | a terminated frame sets `isQuit` exactly when its text is "quit\n." |
| ClientFrame.IsQuit | twmailer-basic/myclient.c:114 | definition: `strcmp(buffer, "quit\n.") == 0` on the C string |
| ClientFrame.AfterFrame | twmailer-basic/myclient.c:100-110 | the buffer keeps its size after a frame |
| ClientFrame.AfterReply | twmailer-basic/myclient.c:151-164 | the buffer keeps its size after a reply |
| ClientFrame.RequestLoop | twmailer-basic/myclient.c:96-166 | the `do ... while (!isQuit)` loop produces the session `Converse` defines |
| ClientFrame.Converse | twmailer-basic/myclient.c:96-166 | definition: the rounds until a send fails, the connection is lost or quit is typed |
| ClientFrame.Round | twmailer-pro/myclient.c:176-248 | one pass sends the first MSG bytes of the framed buffer, tests quit, and takes the reply into the buffer |
| ClientFrame.ConverseStep | twmailer-basic/myclient.c:96-166 | a round ends the session on a failed send, a lost connection or quit, and otherwise goes on with the reply in the buffer |
| ClientFrame.GlueGlue | twmailer-basic/myclient.c:96-166 | gluing rounds is associative |
| ClientFrame.GlueNothing | twmailer-basic/myclient.c:96-166 | gluing onto an empty session gives what was glued |
| ClientFrame.Receive | twmailer-basic/myclient.c:151-164 | `recv` plus `buffer[size] = 0` puts the reply and a NUL at the front and keeps the rest |
| ClientFrame.ConverseShape | twmailer-basic/myclient.c:121-137 | every round sends exactly MSG bytes, with at most one frame per answer and one reply per frame |
| ClientFrame.QuitEndsSession | twmailer-basic/myclient.c:114-166 | typing quit sends one frame, prints its reply and stops |
| ClientFrame.SendFailureEnds | twmailer-basic/myclient.c:121-137 | a failed `send` ends the loop with nothing sent |
| ProClient.Fgets | twmailer-pro/myclient.c:115 | `fgets` takes no more than the input and the room |
| ProClient.FgetsStops | twmailer-pro/myclient.c:115 | `fgets` reads a prefix that stops only at the end of input, the room, or a newline it includes |
| ProClient.FgetsLine | twmailer-pro/myclient.c:115 | a line that fits is read whole with its newline |
| ProClient.FgetsLong | twmailer-pro/myclient.c:115 | a longer line is cut after the room |
| ProClient.UidOfLine | twmailer-pro/myclient.c:114-116 | a uid line that fits is read whole and its newline dropped |
| ProClient.Uid | twmailer-pro/myclient.c:114-116 | definition: the `fgets` line without its newline |
| ProClient.UidOfLongLine | twmailer-pro/myclient.c:114-116 | a uid longer than 126 characters is cut, and its rest goes to the password prompt |
| ProClient.GetPass | twmailer-pro/myclient.c:307-342 | the `getpass` loop consumes through the first RETURN and returns the keys before it as edited by BACKSPACE |
| ProClient.KeyTyped | twmailer-pro/myclient.c:319-340 | one key before the RETURN edits the password typed so far, and a RETURN is still to come |
| ProClient.RunUpTo | twmailer-pro/myclient.c:319 | the keys before the first RETURN are the run up to it |
| ProClient.TypedSnoc | twmailer-pro/myclient.c:319-340 | one more key edits the password as it stood |
| ProClient.Edit | twmailer-pro/myclient.c:319-340 | definition: BACKSPACE drops the last character when there is one; any other key is appended |
| ProClient.Typed | twmailer-pro/myclient.c:319-340 | definition: the keys applied by `Edit` in order |
| ProClient.TypedClean | twmailer-pro/myclient.c:319-340 | the password never holds RETURN or BACKSPACE and is no longer than the keys |
| ProClient.TypedPlain | twmailer-pro/myclient.c:319-340 | keys without BACKSPACE are taken as they are |
| ProClient.TypeThenErase | twmailer-pro/myclient.c:319-340 | a key typed then erased leaves no trace |
| ProClient.EraseNothing | twmailer-pro/myclient.c:319-340 | BACKSPACE on an empty password does nothing |
| ProClient.TriesAfter | twmailer-pro/myclient.c:155-165 | the counter stays between 0 and 2 |
| ProClient.Refused | twmailer-pro/myclient.c:155-165 | definition: at 2 the client sleeps and restarts from 0, then the counter is incremented |
| ProClient.Cooldowns | twmailer-pro/myclient.c:155-165 | definition: the sleeps the first n refusals cause |
| ProClient.RefusedOnce | twmailer-pro/myclient.c:155-165 | one more refusal moves the counter and the sleep count on by one step |
| ProClient.TriesCycle | twmailer-pro/myclient.c:155-165 | after the first refusal the counter alternates between 1 and 2 |
| ProClient.CooldownOn | twmailer-pro/myclient.c:155-165 | the n-th refusal sleeps exactly when n is odd and at least 3 |
| ProClient.CooldownsCount | twmailer-pro/myclient.c:155-165 | n refusals cause (n - 1) / 2 sleeps |
| ProClient.ScanReading | twmailer-pro/myclient.c:114-120 | scanning the uid line reads what `fgets` reads and keeps it up to the newline |
| ProClient.ReadingEnds | twmailer-pro/myclient.c:115 | `fgets` stops at once, or takes the newline and stops |
| ProClient.ReadingGoesOn | twmailer-pro/myclient.c:115 | `fgets` takes one more uid character within its room |
| ProClient.UidGrows | twmailer-pro/myclient.c:116 | the uid grows by the character read |
| ProClient.ScanPassword | twmailer-pro/myclient.c:119-120 | the password scan ends at the first RETURN with what `getpass` returns, or waits for ever |
| ProClient.Scan | twmailer-pro/myclient.c:114-120 | definition: the uid read by `fgets`, then the password read by `getpass` |
| ProClient.Prompt | twmailer-pro/myclient.c:114-120 | definition: one prompt's scan from the start of the input |
| ProClient.PromptAfterUid | twmailer-pro/myclient.c:114-120 | an attempt's scan splits where `fgets` stops |
| ProClient.ReadCredentials | twmailer-pro/myclient.c:114-120 | reading the uid and the password gives `Prompt(input)` |
| ProClient.LoginRun | twmailer-pro/myclient.c:108-168 | the login loop leaves the buffer its size; when the answers run out first the phase is reported as still going |
| ProClient.LoginLoop | twmailer-pro/myclient.c:108-168 | the `while (!loginSuccess)` loop ends as `LoginRun` describes, and says whether it was left |
| ProClient.Attempt | twmailer-pro/myclient.c:111-167 | one pass either ends the phase as `LoginRun` does or counts a refusal and goes on |
| ProClient.Client | twmailer-pro/myclient.c:108-250 | the request loop runs on the same buffer and the keys left only once the login loop was left; while it still prompts or `getpass` waits, nothing more is sent |
| ProClient.PromptOfTyped | twmailer-pro/myclient.c:114-120 | typing uid, RETURN, password, RETURN sends exactly that uid and password |
| ProClient.PasswordLine | twmailer-pro/myclient.c:319-342 | `getpass` stops at RETURN and leaves what follows |
| ProClient.LoginFirstTry | twmailer-pro/myclient.c:148-154 | a LOGINOK reply ends the phase at once, logged in, counters untouched |
| ProClient.FailureEndsLogin | twmailer-pro/myclient.c:121-145 | a failed send or a lost connection ends the phase without a login and without counting |
| ProClient.RefusalGoesOn | twmailer-pro/myclient.c:155-165 | a refusal is counted, the counter moves on, and the loop continues with the next keys |
| ProClient.OtherwiseEnds | twmailer-pro/myclient.c:111-167 | anything but a refusal ends the phase with the counts as they stand |
| ProClient.SuccessIsLoginOk | twmailer-pro/myclient.c:148-154 | a successful login leaves LOGINOK in the buffer and never a waiting `getpass` |
| ProClient.LoginCounts | twmailer-pro/myclient.c:111-167 | every refusal sent a uid and a password, and the last attempt at most two more |
| ProClient.CooldownsFollowRefusals | twmailer-pro/myclient.c:155-165 | the sleeps taken are exactly those the counter forces for the refusals so far |
| ProClient.LoginCooldowns | twmailer-pro/myclient.c:108-168 | a login phase with n refusals sleeps (n - 1) / 2 times |
| ProClient.LoginEnds | twmailer-pro/myclient.c:111-168 | the loop is left exactly on an answer that is not a refusal, unless `getpass` waits; a login always leaves it |
| MyFind.Collected | myfind/main.c:82-88 | the names taken are the arguments in order, at most the budget, each within NAME_MAX; collection stops at a name that is too long |
| MyFind.Parse | myfind/main.c:33-88 | definition: the usage check, the search path and the collected names |
| MyFind.ParseArguments | myfind/main.c:33-88 | the argument checks produce `Parse(argv, optind)` |
| MyFind.CollectFilenames | myfind/main.c:82-88 | the collection loop yields `Collected(argv, optind, MAX_FILES)` |
| MyFind.CollectedPrefix | myfind/main.c:82-88 | the collected names are an in-order prefix of the remaining arguments |
| MyFind.UsageCases | myfind/main.c:33-81 | the usage text is printed exactly for too few arguments or no name after the path; the path is the argument at `optind` |
| MyFind.LongPathCollectsNothing | myfind/main.c:72-88 | a path longer than PATH_MAX is not copied and no name is collected after it |
| MyFind.Lower | myfind/main.c:153 | definition: `tolower` in the C locale; the comparison built on it is stated by `MyFind.SameIgnoringCase` and `MyFind.CaseInsensitiveFindsMore` |
| MyFind.SameIgnoringCase | myfind/main.c:153 | `strcasecmp` is zero exactly when the names agree character by character after `tolower` |
| MyFind.Matches | myfind/main.c:152-153 | definition: `strcmp`, or `strcasecmp` with -i, finds the names equal |
| MyFind.Descends | myfind/main.c:168-169 | definition: with -R, a directory other than "." and ".." is searched |
| MyFind.Child | myfind/main.c:169-172 | definition: the path, "/", and the name; that the child lies below the path is stated by `MyFind.WithinChild` |
| MyFind.FindFile | myfind/main.c:140-179 | `findFile` returns 1 or 0 and prints the hits, as `Find` describes |
| MyFind.Find | myfind/main.c:140-179 | definition: the result and the hits of `findFile` on a directory |
| MyFind.Scan | myfind/main.c:151-176 | definition: the `readdir` loop over the entries |
| MyFind.MatchFinds | myfind/main.c:151-163 | any matching entry makes the loop return 1 |
| MyFind.DirectHit | myfind/main.c:151-163 | a matching entry in an opened directory makes `findFile` return 1 |
| MyFind.FirstMatchStops | myfind/main.c:151-163 | the loop stops at the first match, and the last hit printed is that entry |
| MyFind.FlatScan | myfind/main.c:151-176 | without -R, the loop prints one hit in the path and returns 1 exactly when an entry matches, and otherwise changes nothing |
| MyFind.NoRecursion | myfind/main.c:140-179 | without -R, the search returns 1 exactly when an entry of the path matches, printing at most that hit |
| MyFind.CaseInsensitiveFindsMore | myfind/main.c:152-163 | without -R, a name found with `strcmp` is also found with `strcasecmp` |
| MyFind.Descent | myfind/main.c:168-174 | "." and "..", files and all entries without -R are passed over; other directories are searched and their result replaces the loop's |
| MyFind.LastDescentDecides | myfind/main.c:168-176 | without a match, the result is that of the last directory descended into |
| MyFind.PassOver | myfind/main.c:151-176 | entries that neither match nor are descended into change nothing |
| MyFind.HitForgotten | myfind/main.c:168-178 | a concrete tree where a hit in an earlier subdirectory is printed but the search returns 0 |
| MyFind.FindPrinted | myfind/main.c:140-179 | a search that returns 1 printed a hit, and every hit is a matching entry at or below the path |
| MyFind.ScanPrinted | myfind/main.c:151-176 | the loop keeps the printed hits sound |
| MyFind.WithinChild | myfind/main.c:169-172 | below a child path is below the path |

## Left out

- Sockets, `accept`, `fork`, the SIGINT handler and shutdown, and the welcome banner are not modelled. The network is a sequence of received chunks (servers) or answers (clients). One `recv` is one request; TCP may split or merge chunks, and that is not modelled.
- The `BUF - 1` bytes sent by every `send` are modelled as the C string the peer reads. Reading past short string literals such as "LOGINOK" is not modelled.
- Variable-length arrays one byte too short for their NUL are not modelled; paths are whole strings. These are the paths in saveMail, the name buffers in the basic server, the `directory` arrays of listMail, readMail and deleteMail (twmailer-pro/myserver.c:670, 759, 831; twmailer-basic/myserver.c:529, 589, 651), the `file` arrays that readMail and deleteMail build from `dir->d_name` (twmailer-pro/myserver.c:802, 860; twmailer-basic/myserver.c:626, 675), and myfind's `tempPath` (myfind/main.c:169).
- Store.MailStore.ReadMail: readMail and deleteMail call `closedir` before they read `dir->d_name` (twmailer-pro/myserver.c:790 then 796-805, 855 then 857-863; twmailer-basic/myserver.c:616 then 621-629, 671 then 673-678). The model takes the freed `DIR` buffer to still hold message k's name, so `Store.MailStore.DeleteMail`, `MailSpec.Read` and `MailSpec.Delete` open or remove that file; a read of freed memory that yields another name is not modelled.
- The strip reads `buffer[size - 2]` even when a single byte was received; that read is not modelled.
- LDAP is an oracle value: reachability, the pairs that bind, and the uids under the search base. The protocol, the empty-password bind and the TLS options are not modelled.
- In the pro login phase, a `recv` returning 0 or -1 and a quit are not modelled; `LoginLoop` takes the handshakes that arrive.
- Directory order is `readdir`'s order as a sequence, and a new file is added last; the rows that number a new message last rely on that order, and `Spool.PutHolds` and `MailSpec.DeliverOk` state the same saves without it. Races between server processes, NUL bytes inside files, `atoi` overflow and mkdir modes are not modelled.
- Paths are resolved component by component ("." and ".." included) over the homes and boxes of the spool value, so a user name or subject holding "/" or ".." reaches the box it names (`MailSpec.DeliverClimbs`). Symbolic links and permission bits other than the refusals are not modelled.
- Stray outcome: a path that leaves the spool root, or creates a directory or file where the spool value has no place for one (a directory inside a box, a file in a home or at the root), ends the model's account of that session as `Stray`. What the file system then holds and the later requests of that session are not modelled.
- The basic listing and every READ reply are taken as the end of the process once they reach `BUF`; what the overflow actually overwrites is not modelled.
- MailSpec.SavePlain: like `MakeDirsPlain`, `WritePlain`, `SaveLeavesOthers`, `DeliverOk`, `SaveThenRead` and `ReadAfterDeliver`, it is stated for a user name that is a single name and a subject without "/"; other names are covered by `MailSpec.SaveEffect` and `MailSpec.WriteEffect`, which hold for every name.
- Directory.Credentials: the directory's matching is fixed only for literal search texts (printable ASCII without `*`, `(`, `)` and `\`, at most 120 characters), as a prefix match that ignores ASCII case; for any other text the matches are part of the oracle. Overflow of `char filter[128]` is not modelled.
- ProClient.LoginRun: when the answers run out while the loop still prompts, the phase is reported as not left; the prompts the C loop would go on to make are not modelled.
- ProClient.GetPass: modelled only for input that holds a RETURN. Without one, the C loop reads EOF for ever; `Scan` models that as `waiting`, with all input consumed.
- ProServer.AccountOf: the server copies the handshake chunks with `strcpy` into `char rawuid[128]` and `char pwd[256]`, and `sprintf`s the DN into `char fulluid[256]`; a uid chunk of 128 or more characters before its NUL, or a password chunk of 256 or more, overflows these arrays. That overflow is not modelled: `AccountOf` and `ProServer.ProSession.Login` take both texts at any length.
- ProClient.Fgets: the `rawuid[128]` and `pwd[256]` buffers are not modelled. A stale `rawuid` after end of input is not modelled, nor is the dangling pointer `getpass` returns; the model uses the text it was meant to hold.
- The raw terminal mode of `getch` is not modelled, and `sleep(60)` is counted as a cool-down rather than timed.
- myfind: `fork`, `waitpid`, `getopt`, `printf`, `getpid` and `perror` are not modelled. `optind` is an input, and `-R` and `-i` are booleans. Names exactly `NAME_MAX` long and paths exactly `PATH_MAX` long overflow their arrays by one NUL; that is not modelled. An unset search path is `None`. `d_type` values other than `DT_DIR`, `closedir`, the formatting of a hit (modelled as the pair of directory and name), and the "not found" message are not modelled.
