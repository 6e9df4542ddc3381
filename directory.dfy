/** `ldapCredentials(fulluid, searchedUid, pwd)` against the campus directory, with the
    directory itself as an oracle: whether a session can be opened at all, which
    (DN, password) pairs bind, the uid of every entry under the search base, and what the
    directory makes of a filter whose text the model does not read. */
module Directory {
  import opened CText

  const PeopleSuffix: string := ",ou=people,dc=technikum-wien,dc=at"

  /** The `sizelimit` handed to `ldap_search_ext_s`. */
  const SizeLimit: nat := 500

  /** The longest searched text `char filter[128]` holds between "(uid=" and "*)" with its NUL. */
  const FilterRoom: nat := 120

  /** The bind DN the pro server builds from the identity a client sent. */
  function Dn(uid: string): string {
    "uid=" + uid + PeopleSuffix
  }

  /** The search filter, with the searched text pasted in unescaped between "(uid=" and the
      trailing wildcard "*)"; whatever filter syntax the text holds becomes part of the filter,
      which is why `Found` reads only literal texts itself. */
  function Filter(uid: string): string {
    "(uid=" + uid + "*)"
  }

  /** `others` holds the (searched text, uid) pairs the directory matches for filters the model
      does not read itself. */
  datatype Ldap = Ldap(reachable: bool, binds: set<(string, string)>, uids: set<string>, others: set<(string, string)>)

  /** A searched text the filter takes as plain characters: printable ASCII other than space and
      the filter syntax `*`, `(`, `)` and `\`, short enough for the filter buffer. */
  predicate Literal(s: string) {
    |s| <= FilterRoom && forall i :: 0 <= i < |s| ==> '!' <= s[i] <= '~' && s[i] !in "*()\\"
  }

  predicate IsAscii(s: string) {
    forall i :: 0 <= i < |s| ==> s[i] < 128 as char
  }

  function Lower(c: char): char {
    if 'A' <= c <= 'Z' then (c as int + 32) as char else c
  }

  /** ASCII case folding, as the uid attribute's case-ignoring match compares. */
  function Fold(s: string): string {
    seq(|s|, i requires 0 <= i < |s| => Lower(s[i]))
  }

  /** Whether `(uid=<searched>*)` matches the entry with this uid: a literal text matches the
      uids it starts, ignoring case; any other text is the directory's business. */
  predicate Found(ldap: Ldap, searched: string, uid: string) {
    if Literal(searched) && IsAscii(uid) then Fold(searched) <= Fold(uid)
    else (searched, uid) in ldap.others
  }

  /** The entries the search returns: only existing uids, and for a literal text exactly the
      ASCII uids it starts, in any mix of cases. */
  function Matches(ldap: Ldap, searched: string): (r: set<string>)
    ensures r <= ldap.uids
    ensures Literal(searched) ==>
      forall u :: u in ldap.uids && IsAscii(u) ==> (u in r <==> Fold(searched) <= Fold(u))
  {
    set u | u in ldap.uids && Found(ldap, searched, u)
  }

  /** What `ldapCredentials` returns: 0 when the session cannot be opened or the bind fails,
      0 when the search exceeds the size limit, and otherwise the number of entries found. */
  function Credentials(ldap: Ldap, dn: string, searched: string, pwd: string): (r: nat)
    ensures r <= SizeLimit
    ensures r > 0 <==> ldap.reachable && (dn, pwd) in ldap.binds && 1 <= |Matches(ldap, searched)| <= SizeLimit
    ensures r > 0 ==> r == |Matches(ldap, searched)|
  {
    if !ldap.reachable || (dn, pwd) !in ldap.binds then 0
    else
      var n := |Matches(ldap, searched)|;
      if n > SizeLimit then 0 else n
  }

  /** The search is a prefix match that ignores case: a receiver is accepted whenever some uid
      starts with it in any mix of cases, whether or not an account of exactly that name
      exists. */
  lemma PrefixAccepted(ldap: Ldap, dn: string, pwd: string, searched: string, uid: string)
    requires ldap.reachable && (dn, pwd) in ldap.binds
    requires Literal(searched) && uid in ldap.uids && IsAscii(uid) && Fold(searched) <= Fold(uid)
    requires |Matches(ldap, searched)| <= SizeLimit
    ensures Credentials(ldap, dn, searched, pwd) > 0
  {
    assert uid in Matches(ldap, searched);
  }

  /** A literal text that no uid starts with, in any mix of cases, is refused. */
  lemma UnknownRefused(ldap: Ldap, dn: string, pwd: string, searched: string)
    requires Literal(searched)
    requires forall u :: u in ldap.uids ==> IsAscii(u) && !(Fold(searched) <= Fold(u))
    ensures Credentials(ldap, dn, searched, pwd) == 0
  {
    assert Matches(ldap, searched) == {};
  }

  /** A receiver written in capitals is accepted for the lower-case account: the SEND goes
      ahead, and the message is filed under the name as written, not under the account's
      uid. */
  lemma CaseVariantAccepted(dn: string, pwd: string)
    ensures var ldap := Ldap(true, {(dn, pwd)}, {"if21b145"}, {});
      Credentials(ldap, dn, "IF21B145", pwd) == 1
  {
    var ldap := Ldap(true, {(dn, pwd)}, {"if21b145"}, {});
    assert Fold("IF21B145") == "if21b145";
    assert Literal("IF21B145");
    assert Matches(ldap, "IF21B145") == {"if21b145"};
  }

  /** Different identities give different bind DNs. */
  lemma DnInjective(a: string, b: string)
    requires Dn(a) == Dn(b)
    ensures a == b
  {
    assert |a| == |b|;
    assert a == Dn(a)[4..4 + |a|];
    assert b == Dn(b)[4..4 + |b|];
  }
}
