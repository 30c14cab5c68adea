/**
 * What the password service sees of a directory server through the ldap3
 * client: the exceptions a call can raise, the operations the service issues,
 * and the replies one change attempt receives.
 *
 * The client library itself (connections, the wire protocol, the context
 * manager that opens and unbinds a connection) is not part of this model:
 * each operation's reply is given. Entering the anonymous lookup connection
 * of the plain variant is an operation of its own, `Connect`, because the
 * options of the lookup are read only once it is open. Opening any other
 * connection is folded into the reply of the bind issued on it, since nothing
 * happens between the two.
 */
module Directory {

  import Maybe

  /** The exceptions of the ldap3 client, by the clause of `change_password` that can catch them. */
  datatype DirError =
    | BindError                                  // LDAPBindError
    | InvalidCredentialsResult                   // LDAPInvalidCredentialsResult
    | UserNameIsMandatoryError                   // LDAPUserNameIsMandatoryError
    | ConstraintViolationResult(message: string) // LDAPConstraintViolationResult and its `message`
    | SocketOpenError                            // LDAPSocketOpenError
    | OtherExceptionError(name: string)          // any other LDAPExceptionError
    | OtherException(name: string)               // an ldap3 exception outside LDAPExceptionError

  /** A Python exception raised while changing a password. */
  datatype Exc =
    | Ldap(cause: DirError)        // raised by the directory client
    | KeyError(key: string)        // a configuration section lacks the option `key`
    | Error(message: string)       // the service's own `Error`, carrying the user-facing message

  /** A Python call either returns or raises. */
  datatype Outcome = Ok | Raise(error: Exc)

  /** The directory operations the service issues, with their arguments. */
  datatype DirOp =
    | Connect(host: string)                                             // with connect_ldap(conf): open and bind anonymously
    | Search(base: string, filter: string)                              // conn.search(base, filter, SUBTREE)
    | Bind(user: string, password: string)                              // a SIMPLE bind as `user`
    | ModifyPassword(dn: string, oldPassword: string, newPassword: string)       // extend.standard.modify_password
    | AdModifyPassword(adDn: Maybe.Option<string>, adNewPassword: string, adOldPassword: string) // extend.microsoft.modify_password

  /** The reply to a search: the distinguished names found, in order, or an exception. */
  datatype SearchReply = Entries(dns: seq<string>) | SearchFailed(searchError: DirError)

  /** The reply to a bind or a modify. */
  datatype Reply = Done | Failed(error: DirError)

  /**
   * The replies the directory gives to the operations of one change attempt:
   * entering the anonymous lookup connection, the search, the bind and the
   * password change.
   */
  datatype Replies = Replies(connectReply: Reply, searchReply: SearchReply, bindReply: Reply, modifyReply: Reply)
}
