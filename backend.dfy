/**
 * `change_password`: one password change on one configured backend. The
 * section's `type` picks the protocol variant, and the directory exceptions
 * the variant raises are turned into the service's `Error` with a message fit
 * for the user.
 */
module Backend {

  import opened Maybe
  import opened Text
  import opened Directory
  import opened Adapter

  const IncorrectCredentials: string := "Username or password is incorrect!"
  const CannotConnect: string := "Unable to connect to the remote server."
  const Unexpected: string := "Encountered an unexpected error while communicating with the remote server."

  /** What Samba 4 and Active Directory put before the informative part of a constraint violation. */
  const RestrictionsMarker: string := "check_password_restrictions: "

  /** `conf.get('type') == 'ad'`: an absent `type` is the plain directory variant. */
  predicate IsAd(conf: Options) {
    "type" in conf && conf["type"] == "ad"
  }

  /**
   * The user-facing text for a constraint violation: what follows the last
   * marker (the whole message when there is none), first letter upper-cased,
   * the rest lower-cased.
   */
  function RestrictionMessage(message: string): (r: string)
    ensures |r| <= |message|
    ensures Lower(r) == Lower(message[|message| - |r|..])
    ensures |r| > 0 ==> !IsLowerChar(r[0])
    ensures forall i :: 1 <= i < |r| ==> !IsUpperChar(r[i])
  {
    Capitalize(LastPiece(message, RestrictionsMarker))
  }

  /**
   * The shown text is the part after the last marker: it holds no marker, and
   * when it is not the whole message a marker comes right before it.
   */
  lemma RestrictionMessageAfterMarker(message: string)
    ensures var r := RestrictionMessage(message);
      && !Contains(message[|message| - |r|..], RestrictionsMarker)
      && (|r| < |message| ==>
            |message| - |r| >= |RestrictionsMarker|
            && OccursAt(message, RestrictionsMarker, |message| - |r| - |RestrictionsMarker|))
  {
    LastPieceClean(message, RestrictionsMarker);
    LastPieceAfterSep(message, RestrictionsMarker);
  }

  /** A message without the marker is shown whole, capitalised. */
  lemma RestrictionMessageWhole(message: string)
    requires !Contains(message, RestrictionsMarker)
    ensures RestrictionMessage(message) == Capitalize(message)
  {
    LastPieceAbsent(message, RestrictionsMarker);
  }

  /**
   * The `except` clauses of `change_password`, tried in order: the message of
   * the `Error` raised for a directory exception, or None when no clause
   * catches it and it propagates as it is.
   */
  function Classify(e: DirError): (r: Option<string>)
    ensures e.BindError? || e.InvalidCredentialsResult? || e.UserNameIsMandatoryError? ==> r == Some(IncorrectCredentials)
    ensures e.ConstraintViolationResult? ==> r == Some(RestrictionMessage(e.message))
    ensures e.SocketOpenError? ==> r == Some(CannotConnect)
    ensures e.OtherExceptionError? ==> r == Some(Unexpected)
    ensures r.None? <==> e.OtherException?
  {
    match e
    case BindError => Some(IncorrectCredentials)
    case InvalidCredentialsResult => Some(IncorrectCredentials)
    case UserNameIsMandatoryError => Some(IncorrectCredentials)
    case ConstraintViolationResult(message) => Some(RestrictionMessage(message))
    case SocketOpenError => Some(CannotConnect)
    case OtherExceptionError(_) => Some(Unexpected)
    case OtherException(_) => None
  }

  /**
   * Only a constraint violation shows text that came from the server; every
   * other classified failure shows one of three fixed messages, never the
   * exception's own details.
   */
  lemma ClassifiedMessagesAreFixed(e: DirError)
    requires !e.ConstraintViolationResult? && Classify(e).Some?
    ensures Classify(e).value in {IncorrectCredentials, CannotConnect, Unexpected}
  {
  }

  /** The exception `change_password` lets out for the one its variant raised. */
  function Translate(o: Outcome): (r: Outcome)
    ensures o.Ok? <==> r.Ok?
    ensures o.Raise? && o.error.Ldap? && Classify(o.error.cause).Some? ==> r == Raise(Error(Classify(o.error.cause).value))
    ensures o.Raise? && !(o.error.Ldap? && Classify(o.error.cause).Some?) ==> r == o
  {
    match o
    case Raise(Ldap(e)) =>
      (match Classify(e)
       case Some(message) => Raise(Error(message))
       case None => o)
    case _ => o
  }

  /** `change_password(conf, username, old_pass, new_pass)` */
  function ChangePassword(conf: Options, username: string, oldPass: string, newPass: string, d: Replies): (r: Attempt)
    ensures IsAd(conf) ==> r.ops == ChangePasswordAd(conf, username, oldPass, newPass, d).ops
    ensures !IsAd(conf) ==> r.ops == ChangePasswordLdap(conf, username, oldPass, newPass, d).ops
    ensures r.outcome == Translate((if IsAd(conf) then ChangePasswordAd(conf, username, oldPass, newPass, d)
                                    else ChangePasswordLdap(conf, username, oldPass, newPass, d)).outcome)
  {
    var raw := if IsAd(conf) then ChangePasswordAd(conf, username, oldPass, newPass, d)
               else ChangePasswordLdap(conf, username, oldPass, newPass, d);
    Attempt(raw.ops, Translate(raw.outcome))
  }

  /**
   * The variant decides the argument order of the password change: a section
   * of type `ad` issues `(dn, new, old)`, any other section (including one
   * with no type) `(dn, old, new)`, and either asks for the requested change.
   */
  lemma DispatchOrder(conf: Options, username: string, oldPass: string, newPass: string, d: Replies)
    ensures forall op :: op in ChangePassword(conf, username, oldPass, newPass, d).ops && ChangesPassword(op) ==>
      Requested(op) == (oldPass, newPass)
      && (IsAd(conf) ==> op.AdModifyPassword? && op.adNewPassword == newPass && op.adOldPassword == oldPass)
      && (!IsAd(conf) ==> op.ModifyPassword? && op.oldPassword == oldPass && op.newPassword == newPass)
  {
    BothVariantsRequestTheCall(conf, username, oldPass, newPass, d);
  }

  /**
   * An unreachable host is reported to the user before any option of the
   * lookup is read: a plain section lacking `search_filter` still gives
   * "Unable to connect to the remote server."
   */
  lemma UnreachableHostBeforeOptions(conf: Options, username: string, oldPass: string, newPass: string, d: Replies)
    requires !IsAd(conf) && HostKey in conf && d.connectReply == Failed(SocketOpenError)
    ensures ChangePassword(conf, username, oldPass, newPass, d) == Attempt([Connect(conf[HostKey])], Raise(Error(CannotConnect)))
  {
  }

  /** A section without `host` fails before any directory operation, with the KeyError. */
  lemma MissingHostPropagates(conf: Options, username: string, oldPass: string, newPass: string, d: Replies)
    requires HostKey !in conf && (IsAd(conf) ==> "ad_domain" in conf)
    ensures ChangePassword(conf, username, oldPass, newPass, d) == Attempt([], Raise(KeyError(HostKey)))
  {
  }

  /**
   * A configuration error (a missing option) is not turned into a user
   * message. A plain section reads `search_filter` only once its lookup
   * connection is open.
   */
  lemma MissingOptionPropagates(conf: Options, username: string, oldPass: string, newPass: string, d: Replies)
    requires !IsAd(conf) && HostKey in conf && "search_filter" !in conf && d.connectReply.Done?
    ensures ChangePassword(conf, username, oldPass, newPass, d) == Attempt([Connect(conf[HostKey])], Raise(KeyError("search_filter")))
  {
  }
}
