/**
 * The two ways `app.py` changes a password on one directory backend:
 * `change_password_ldap` for a plain directory server and `change_password_ad`
 * for an Active Directory / Samba domain controller, and the user lookup
 * `find_user_dn` they share. Each is a function of the backend's configuration
 * section, the request and the directory's replies; it yields the operations
 * issued, in order, and how the call ends.
 */
module Adapter {

  import opened Maybe
  import opened Text
  import opened Directory

  /** A configuration section: option name to value. */
  type Options = map<string, string>

  const UidPlaceholder: string := "{uid}"

  /** The operations one adapter call issued and how the call ended. */
  datatype Attempt = Attempt(ops: seq<DirOp>, outcome: Outcome)

  /** How the user lookup ended: the operations issued and the DN found, or the exception. */
  datatype Lookup = Located(ops: seq<DirOp>, dn: Option<string>) | LookupFailed(ops: seq<DirOp>, error: Exc)

  /** `"(%s)" % template.replace('{uid}', uid)` */
  function SearchFilter(template: string, uid: string): (r: string)
    ensures |r| >= 2 && r[0] == '(' && r[|r| - 1] == ')'
  {
    "(" + Replace(template, UidPlaceholder, uid) + ")"
  }

  /** A template with no placeholder is searched for verbatim, in parentheses. */
  lemma SearchFilterConstant(template: string, uid: string)
    requires !Contains(template, UidPlaceholder)
    ensures SearchFilter(template, uid) == "(" + template + ")"
  {
    ReplaceAbsent(template, UidPlaceholder, uid);
  }

  /**
   * Every placeholder is replaced: the first one is replaced by the user id,
   * which is not rescanned, and the rest of the template is substituted in turn.
   */
  lemma SearchFilterFirst(before: string, after: string, uid: string)
    requires forall i: nat :: i < |before| ==> !OccursAt(before + UidPlaceholder, UidPlaceholder, i)
    ensures SearchFilter(before + UidPlaceholder + after, uid)
         == "(" + before + uid + Replace(after, UidPlaceholder, uid) + ")"
  {
    ReplaceFirst(before, UidPlaceholder, after, uid);
  }

  /** Text without an opening brace lets no placeholder start inside it. */
  lemma NoBrace(a: string)
    requires forall i :: 0 <= i < |a| ==> a[i] != '{'
    ensures forall i: nat :: i < |a| ==> !OccursAt(a + UidPlaceholder, UidPlaceholder, i)
  {
    forall i: nat | i < |a|
      ensures !OccursAt(a + UidPlaceholder, UidPlaceholder, i)
    {
      assert (a + UidPlaceholder)[i] == a[i];
    }
  }

  /**
   * A template naming the user twice, as `(|(uid={uid})(mail={uid})` does,
   * gets the user id in both places.
   */
  lemma SearchFilterTwice(a: string, b: string, uid: string)
    requires forall i :: 0 <= i < |a| ==> a[i] != '{'
    requires forall i :: 0 <= i < |b| ==> b[i] != '{'
    ensures SearchFilter(a + UidPlaceholder + b + UidPlaceholder, uid) == "(" + a + uid + b + uid + ")"
  {
    NoBrace(a);
    NoBrace(b);
    assert !Contains([], UidPlaceholder);
    ReplaceOnce(b, UidPlaceholder, [], uid);
    assert b + UidPlaceholder + [] == b + UidPlaceholder;
    assert a + UidPlaceholder + b + UidPlaceholder == a + UidPlaceholder + (b + UidPlaceholder);
    ReplaceFirst(a, UidPlaceholder, b + UidPlaceholder, uid);
    assert b + uid + [] == b + uid;
  }

  /** The placeholder is replaced by the user id and the user id itself is not rescanned. */
  lemma SearchFilterSubstitutes(before: string, after: string, uid: string)
    requires forall i: nat :: i < |before| ==> !OccursAt(before + UidPlaceholder, UidPlaceholder, i)
    requires !Contains(after, UidPlaceholder)
    ensures SearchFilter(before + UidPlaceholder + after, uid) == "(" + before + uid + after + ")"
  {
    ReplaceOnce(before, UidPlaceholder, after, uid);
  }

  /** The typical template `uid={uid}` with the user `alice`. */
  lemma SearchFilterExample()
    ensures SearchFilter("uid={uid}", "alice") == "(uid=alice)"
  {
    assert "uid={uid}" == "uid=" + UidPlaceholder + "";
    forall i: nat | i < 4
      ensures !OccursAt("uid=" + UidPlaceholder, UidPlaceholder, i)
    {
      assert ("uid=" + UidPlaceholder)[i + 4] != '}';
    }
    assert !OccursAt("", UidPlaceholder, 0);
    SearchFilterSubstitutes("uid=", "", "alice");
  }

  /**
   * `find_user_dn`: search the configured base with the filter built from the
   * template and take the DN of the first entry found, or None when there is
   * none. The options are read in the source's order: `search_filter`, then `base`.
   */
  function FindUserDn(conf: Options, uid: string, reply: SearchReply): (r: Lookup)
    ensures "search_filter" !in conf ==> r == LookupFailed([], KeyError("search_filter"))
    ensures "search_filter" in conf && "base" !in conf ==> r == LookupFailed([], KeyError("base"))
    ensures "search_filter" in conf && "base" in conf ==>
      r.ops == [Search(conf["base"], SearchFilter(conf["search_filter"], uid))]
    ensures r.Located? <==> "search_filter" in conf && "base" in conf && reply.Entries?
    ensures r.Located? ==> r.dn == if reply.dns == [] then None else Some(reply.dns[0])
    ensures r.LookupFailed? && r.ops != [] ==> r.error == Ldap(reply.searchError)
  {
    if "search_filter" !in conf then LookupFailed([], KeyError("search_filter"))
    else
      var filter := SearchFilter(conf["search_filter"], uid);
      if "base" !in conf then LookupFailed([], KeyError("base"))
      else
        var search := Search(conf["base"], filter);
        match reply
        case SearchFailed(e) => LookupFailed([search], Ldap(e))
        case Entries(dns) => Located([search], if dns == [] then None else Some(dns[0]))
  }

  /** The operation changes a password (in either protocol's argument order). */
  predicate ChangesPassword(op: DirOp) {
    op.ModifyPassword? || op.AdModifyPassword?
  }

  /** The (old, new) pair a password change asks for, whatever order the protocol wants them in. */
  function Requested(op: DirOp): (string, string)
    requires ChangesPassword(op)
  {
    match op
    case ModifyPassword(_, oldPassword, newPassword) => (oldPassword, newPassword)
    case AdModifyPassword(_, newPassword, oldPassword) => (oldPassword, newPassword)
  }

  /** The options `connect_ldap` reads before it opens a connection: only `host` is required. */
  const HostKey: string := "host"

  /** The section names the host and both options `find_user_dn` reads. */
  predicate LookupConfigured(conf: Options) {
    HostKey in conf && "search_filter" in conf && "base" in conf
  }

  /** The search `find_user_dn` issues for `uid` under a configured section. */
  function UserSearch(conf: Options, uid: string): DirOp
    requires LookupConfigured(conf)
  {
    Search(conf["base"], SearchFilter(conf["search_filter"], uid))
  }

  /**
   * `change_password_ldap`: enter an anonymous connection to `host` and look
   * the user up on it, then bind as the DN found with the old password and ask
   * for the change with `(dn, old, new)`. The lookup's options are read only
   * once its connection is open. No DN found raises
   * LDAPUserNameIsMandatoryError (the authenticated connection is refused a
   * missing user) before any bind. Every directory exception passes through
   * unchanged.
   */
  function ChangePasswordLdap(conf: Options, username: string, oldPass: string, newPass: string, d: Replies): (r: Attempt)
    ensures HostKey !in conf ==> r == Attempt([], Raise(KeyError(HostKey)))
    ensures HostKey in conf ==> |r.ops| > 0 && r.ops[0] == Connect(conf[HostKey])
    ensures HostKey in conf && d.connectReply.Failed? ==>
      r == Attempt([Connect(conf[HostKey])], Raise(Ldap(d.connectReply.error)))
    ensures HostKey in conf && d.connectReply.Done? && "search_filter" !in conf ==>
      r == Attempt([Connect(conf[HostKey])], Raise(KeyError("search_filter")))
    ensures HostKey in conf && d.connectReply.Done? && "search_filter" in conf && "base" !in conf ==>
      r == Attempt([Connect(conf[HostKey])], Raise(KeyError("base")))
    ensures LookupConfigured(conf) && d.connectReply.Done? && d.searchReply.SearchFailed? ==>
      r == Attempt([Connect(conf[HostKey]), UserSearch(conf, username)], Raise(Ldap(d.searchReply.searchError)))
    ensures LookupConfigured(conf) && d.connectReply.Done? && d.searchReply == Entries([]) ==>
      r == Attempt([Connect(conf[HostKey]), UserSearch(conf, username)], Raise(Ldap(UserNameIsMandatoryError)))
    ensures LookupConfigured(conf) && d.connectReply.Done? && d.searchReply.Entries? && d.searchReply.dns != []
            && d.bindReply.Failed? ==>
      r == Attempt([Connect(conf[HostKey]), UserSearch(conf, username), Bind(d.searchReply.dns[0], oldPass)],
                   Raise(Ldap(d.bindReply.error)))
    ensures LookupConfigured(conf) && d.connectReply.Done? && d.searchReply.Entries? && d.searchReply.dns != []
            && d.bindReply.Done? ==>
      && r.ops == [Connect(conf[HostKey]), UserSearch(conf, username), Bind(d.searchReply.dns[0], oldPass),
                   ModifyPassword(d.searchReply.dns[0], oldPass, newPass)]
      && r.outcome == (if d.modifyReply.Failed? then Raise(Ldap(d.modifyReply.error)) else Ok)
    ensures r.outcome.Ok? <==>
      LookupConfigured(conf) && d.connectReply.Done? && d.searchReply.Entries? && d.searchReply.dns != []
      && d.bindReply.Done? && d.modifyReply.Done?
    ensures forall k :: 0 <= k < |r.ops| && ChangesPassword(r.ops[k]) ==>
      k == 3 && d.connectReply.Done? && d.searchReply.Entries? && d.searchReply.dns != [] && d.bindReply.Done?
      && r.ops[k] == ModifyPassword(d.searchReply.dns[0], oldPass, newPass)
      && r.ops[2] == Bind(d.searchReply.dns[0], oldPass)
  {
    if HostKey !in conf then Attempt([], Raise(KeyError(HostKey)))
    else
      var connect := Connect(conf[HostKey]);
      match d.connectReply
      case Failed(e) => Attempt([connect], Raise(Ldap(e)))
      case Done =>
        match FindUserDn(conf, username, d.searchReply)
        case LookupFailed(ops, e) => Attempt([connect] + ops, Raise(e))
        case Located(ops, dn) =>
          if dn.None? then Attempt([connect] + ops, Raise(Ldap(UserNameIsMandatoryError)))
          else
            var bind := Bind(dn.value, oldPass);
            match d.bindReply
            case Failed(e) => Attempt([connect] + ops + [bind], Raise(Ldap(e)))
            case Done =>
              var change := ModifyPassword(dn.value, oldPass, newPass);
              Attempt([connect] + ops + [bind, change], if d.modifyReply.Failed? then Raise(Ldap(d.modifyReply.error)) else Ok)
  }

  /**
   * `change_password_ad`: build the principal `username@ad_domain`, open a
   * connection to `host` and bind as that principal with the old password,
   * look the user up on that connection, then ask for the change with
   * `(dn, new, old)`. A lookup that finds nothing still issues the change,
   * for a missing DN. Every directory exception passes through unchanged.
   */
  function ChangePasswordAd(conf: Options, username: string, oldPass: string, newPass: string, d: Replies): (r: Attempt)
    ensures "ad_domain" !in conf ==> r == Attempt([], Raise(KeyError("ad_domain")))
    ensures "ad_domain" in conf && HostKey !in conf ==> r == Attempt([], Raise(KeyError(HostKey)))
    ensures "ad_domain" in conf && HostKey in conf ==> |r.ops| > 0 && r.ops[0] == Bind(username + "@" + conf["ad_domain"], oldPass)
    ensures "ad_domain" in conf && HostKey in conf && d.bindReply.Failed? ==>
      r == Attempt([Bind(username + "@" + conf["ad_domain"], oldPass)], Raise(Ldap(d.bindReply.error)))
    ensures "ad_domain" in conf && HostKey in conf && d.bindReply.Done? && "search_filter" !in conf ==>
      r == Attempt([Bind(username + "@" + conf["ad_domain"], oldPass)], Raise(KeyError("search_filter")))
    ensures "ad_domain" in conf && HostKey in conf && d.bindReply.Done? && "search_filter" in conf && "base" !in conf ==>
      r == Attempt([Bind(username + "@" + conf["ad_domain"], oldPass)], Raise(KeyError("base")))
    ensures "ad_domain" in conf && LookupConfigured(conf) && d.bindReply.Done? && d.searchReply.SearchFailed? ==>
      r == Attempt([Bind(username + "@" + conf["ad_domain"], oldPass), UserSearch(conf, username)],
                   Raise(Ldap(d.searchReply.searchError)))
    ensures "ad_domain" in conf && LookupConfigured(conf) && d.bindReply.Done? && d.searchReply.Entries? ==>
      && r.ops == [Bind(username + "@" + conf["ad_domain"], oldPass), UserSearch(conf, username),
                   AdModifyPassword(if d.searchReply.dns == [] then None else Some(d.searchReply.dns[0]), newPass, oldPass)]
      && r.outcome == (if d.modifyReply.Failed? then Raise(Ldap(d.modifyReply.error)) else Ok)
    ensures r.outcome.Ok? <==>
      "ad_domain" in conf && LookupConfigured(conf) && d.searchReply.Entries?
      && d.bindReply.Done? && d.modifyReply.Done?
    ensures forall k :: 0 <= k < |r.ops| && ChangesPassword(r.ops[k]) ==>
      k == 2 && d.bindReply.Done? && d.searchReply.Entries?
      && r.ops[k] == AdModifyPassword(if d.searchReply.dns == [] then None else Some(d.searchReply.dns[0]), newPass, oldPass)
  {
    if "ad_domain" !in conf then Attempt([], Raise(KeyError("ad_domain")))
    else if HostKey !in conf then Attempt([], Raise(KeyError(HostKey)))
    else
      var bind := Bind(username + "@" + conf["ad_domain"], oldPass);
      match d.bindReply
      case Failed(e) => Attempt([bind], Raise(Ldap(e)))
      case Done =>
        match FindUserDn(conf, username, d.searchReply)
        case LookupFailed(ops, e) => Attempt([bind] + ops, Raise(e))
        case Located(ops, dn) =>
          var change := AdModifyPassword(dn, newPass, oldPass);
          Attempt([bind] + ops + [change], if d.modifyReply.Failed? then Raise(Ldap(d.modifyReply.error)) else Ok)
  }

  /**
   * Whatever the argument order on the wire, both variants ask for exactly the
   * change the caller requested, so a call with the passwords swapped asks for
   * the reverse change.
   */
  lemma BothVariantsRequestTheCall(conf: Options, username: string, oldPass: string, newPass: string, d: Replies)
    ensures forall op :: op in ChangePasswordLdap(conf, username, oldPass, newPass, d).ops && ChangesPassword(op) ==>
      Requested(op) == (oldPass, newPass)
    ensures forall op :: op in ChangePasswordAd(conf, username, oldPass, newPass, d).ops && ChangesPassword(op) ==>
      Requested(op) == (oldPass, newPass)
  {
  }
}
