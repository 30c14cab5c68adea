# ldap-passwd-webui: the password-change core in Dafny

ldap-passwd-webui is a small web service for changing a user's password. It
changes the password on every configured LDAP / Active Directory backend. This
project models the logic behind that change and proves properties of it:

- **The multi-backend saga.** `change_passwords` applies the change to each
  backend section (`ldap` or `ldap:*`) in declared order. When one backend fails
  with the service's `Error`, it reverts the backends already changed, newest
  first, with the passwords swapped. It then re-raises the original error.
  `ChangePasswords` in `saga.dfy` is that loop, written as a method. It is
  proved equal to the function `Saga`, and the ordering and compensation facts
  are lemmas about `Saga`.
- **One backend.** `change_password` picks the protocol variant from
  `type == 'ad'`. It turns the ldap3 exceptions into `Error` with one of four
  user messages (`backend.dfy`). Two pieces live in `adapter.dfy`:
  - the variants `change_password_ldap` and `change_password_ad`, which differ
    in principal and in argument order;
  - `find_user_dn`.
- **The strength policy.** `password_is_strong` is a chain of checks with early
  return (`strength.dfy`):
  - minimum length;
  - mixed case;
  - a digit;
  - a special character;
  - a dictionary of forbidden fragments.
- **The service's exception `Error`.** It is the constructor `Error` of
  `Directory.Exc`, next to `KeyError` and the ldap3 exceptions (`directory.dfy`).

Every backend call goes to an injected oracle, `Saga.Backends`. Given the calls
made so far in the run and the call being made, the oracle says how that
`change_password` call ends. `Saga.ThroughDirectory` builds such an oracle from
a script of directory replies and the modelled `change_password`. A run is the
final outcome together with the trace of calls, in order.

Python's string operations are in `text.dfy`: `lower`, `upper`, `capitalize`,
`isspace`, `rstrip`, substring `in`, `replace`, and the last piece of
`split`. `maybe.dfy` holds the option type.

The intended behaviour is that every backend that was changed gets a revert
attempt, whatever goes wrong with the others, and that the caller sees the
error of the first backend that failed. The code does less: `app.py:80` and
`app.py:85` catch only `Error`. An exception of another kind behaves differently:
- one raised by an apply call propagates at once, with no revert. Examples are
  a `KeyError` for a missing option (`host`, `search_filter`, `base` or
  `ad_domain`), or an ldap3 exception outside the four `except` clauses of
  `change_password`, such as an operation result other than invalid
  credentials or a constraint violation;
- one raised by a revert stops the remaining reverts and replaces the original
  error.

The model follows the code.

## Model

| member | source | states |
|---|---|---|
| Saga.ChangePasswords | app.py:70-87 | The method's outcome and its full call trace are exactly those of `Saga`: a forward loop in declared order, then the compensation loop on the first failure. |
| Saga.RevertChanged | app.py:81-86 | The revert loop visits `reversed(changed)` with `(new, old)`, passes over `Error` and stops at any other exception. It equals `Compensate`. |
| Saga.IsBackend | app.py:74 | `key == 'ldap' or key.startswith('ldap:')`. |
| Saga.Selected | app.py:73-74 | The backend sections, in declared order; never more than the configuration has. |
| Saga.SelectedMembers | app.py:73-74 | A section is processed iff it is in the configuration and named `ldap` or `ldap:…`. |
| Saga.SelectedAppend | app.py:73-74 | Selection keeps the declared order: selecting from `a + b` is selecting from `a`, then from `b`. |
| Saga.SelectedDistinct | app.py:73-74 | Distinct section names (as ConfigParser guarantees) stay distinct among the backends. |
| Saga.Applies | app.py:76-79 | The apply calls: one per section, in order, each with `(old, new)`. |
| Saga.AppliesSnoc | app.py:78-79 | Each apply call comes after the earlier ones, which makes `changed` the applied sections in order. |
| Saga.Reverts | app.py:81-84 | The revert calls: the changed sections newest first, each with `(new, old)`. |
| Saga.FirstFailure | app.py:76-80 | The index of the first apply call that raises: every call before it returned, and it raised (or no call raised). |
| Saga.FirstFailureAt | app.py:76-80 | The first failure is at `k` exactly when the calls before `k` return and the call at `k` raises. |
| Saga.CompensateStep | app.py:81-86 | One round of the revert loop: the newest remaining section is reverted. Anything but `Error` escapes; `Error` goes on to the rest. |
| Saga.CompensateOutcomes | app.py:81-86 | During compensation the earlier calls are kept and every passed-over revert returned or raised `Error`. An escaped exception is not `Error` and is the outcome of the last revert. |
| Saga.CompensateKeeps | app.py:81-84 | Compensation only appends calls. |
| Saga.CompensateTargets | app.py:81-84 | The n-th revert issued is for the n-th newest changed section, with the passwords swapped. Unless something escaped, every changed section is reverted. |
| Saga.CompensatedCalls | app.py:76-84 | After a failure at section k, the trace is the applies 0..k followed by at most k reverts. Call `i` reverts section `2k - i`. |
| Saga.CompensatedResult | app.py:81-87 | After an `Error` at section k: a revert raising `Error` does not stop later reverts. A revert raising anything else ends the run, and the caller gets that exception. Otherwise the caller gets the original error and all k reverts were made. `SagaCompensates` makes this the behaviour of `Saga`. |
| Saga.CompensatedFully | app.py:81-87 | When the original error is re-raised, the trace is exactly `Applies(sel[..k+1]) + Reverts(sel[..k])`. |
| Saga.SagaCompensates | app.py:76-87 | When the apply call at `k` raises `Error` after the earlier ones returned, the run is exactly the compensated run for `k`. |
| Saga.FailedRunRaises | app.py:76-87 | A run ends without an exception iff no apply call raises. |
| Saga.AllSucceed | app.py:76-79 | A run succeeds iff every backend's apply call returns. |
| Saga.SuccessAppliesOnly | app.py:76-79 | A successful run made no revert call: its trace is exactly the apply calls, in order. |
| Saga.FailureReverts | app.py:80-84 | After an `Error` at section k, the run's calls after k are reverts of earlier sections, newest first, with the passwords swapped. There are at most k of them. |
| Saga.FailurePassesOver | app.py:85-86 | After an `Error` at k, no revert before the last one raised anything but `Error`: a failing revert does not stop the others. |
| Saga.FailureKeepsError | app.py:85-87 | After an `Error` at k, if no revert raises anything but `Error`, the caller gets the original error `e`. |
| Saga.FailureRevertsAll | app.py:80-87 | When the caller gets the original error, every changed section was reverted, newest first. |
| Saga.UnhandledRevertsNothing | app.py:78-80 | An apply call raising anything but `Error` propagates at once: no revert, and the trace ends with that call. |
| Saga.FirstBackendFails | app.py:76-84 | A failure at the first backend section makes zero reverts. |
| Saga.ErrorIsTheOriginal | app.py:80-87 | An `Error` reaching the caller is always the one raised by the first failing apply call, never a revert's. |
| Saga.OnlyBackendSections | app.py:73-84 | Every call of a run is to a configured backend section and on behalf of the requesting user. |
| Saga.AppliesTargets | app.py:76-78 | Apply calls for a prefix of the selection are to selected sections, for the requesting user. |
| Saga.RunTargets | app.py:73-84 | Every call of a run, by index, is to a selected section for the requesting user. |
| Saga.CompensationTargets | app.py:76-84 | Every call of a compensated run is to a selected section for the requesting user. |
| Saga.RevertsSpareTheFailed | app.py:80-84 | With distinct section names, no revert goes to the failed section or any later one. |
| Saga.ThreeBackendsScenario | app.py:70-87 | With backends A, B, C, where C fails with `Error`: the trace is A, B, C, revert B, revert A, and the caller gets C's error. |
| Saga.TwoBackendsThroughDirectory | app.py:70-130 | Through the modelled `change_password`: a plain backend A that accepts every change, then an AD backend B whose modify raises a constraint violation with message `m`. The caller gets `Error(RestrictionMessage(m))`, and the trace is apply A, apply B, then one revert of A with the passwords swapped. |
| Saga.UnreachableSecondBackend | app.py:70-121 | Through the modelled `change_password`: a plain A that accepts, then a plain B lacking `search_filter` whose host cannot be reached. The caller gets `Error("Unable to connect to the remote server.")`, after apply A, apply B and one swapped revert of A. |
| Saga.OneBackendWrongPassword | app.py:70-121 | Through the modelled `change_password`: one plain backend whose bind raises invalid credentials. The caller gets `Error("Username or password is incorrect!")` after one call, and nothing is reverted. |
| Saga.ThroughDirectory | app.py:78 | The backend oracle whose outcome for a call is that of the modelled `change_password` on the section's options, against the directory's replies for that call. |
| Saga.Escapes | app.py:80 | The outcomes `except Error` lets through: a raised exception that is not `Error`. |
| Saga.Compensated | app.py:80-87 | The run after the apply call at `k` raised `Error`: reverts of `sections[..k]` after the applies 0..k, then the escaped exception or the original error. |
| Saga.Compensate | app.py:81-86 | The revert loop as a function: the changed sections newest first with `(new, old)`; `Error` passed over, any other exception ends the loop and escapes. |
| Saga.Saga | app.py:70-87 | The run of `change_passwords` phase by phase: applies in declared order, success when none raises, immediate propagation of a non-`Error` exception, otherwise compensation and the original error re-raised. |
| Saga.RevertTwo | app.py:81-84 | Reverting `[a, b]`, when both reverts return, issues the revert of b and then the revert of a. |
| Backend.ChangePassword | app.py:90-111 | `type == 'ad'` selects the AD variant; any other value, or none, selects the plain variant. The outcome is the variant's outcome, classified. |
| Backend.Translate | app.py:96-111 | A classified ldap3 exception becomes `Error(message)`. Success, `KeyError` and unclassified exceptions pass through unchanged. |
| Backend.Classify | app.py:97-111 | Bind, invalid-credentials and username-mandatory exceptions give "Username or password is incorrect!". A constraint violation gives its restriction text, socket-open "Unable to connect…", any other `LDAPExceptionError` "Encountered an unexpected error…". Nothing else is caught. |
| Backend.ClassifiedMessagesAreFixed | app.py:97-111 | Apart from a constraint violation, a caught exception shows one of three fixed messages. |
| Backend.RestrictionMessage | app.py:100-103 | The shown text comes from the end of the server message and equals it up to case. Its first letter is not lower-case and the rest is not upper-case. |
| Backend.RestrictionMessageAfterMarker | app.py:102 | The shown part holds no `check_password_restrictions: `. If it is not the whole message, the marker comes right before it. |
| Backend.RestrictionMessageWhole | app.py:102 | A message without the marker is shown whole, capitalised. |
| Backend.DispatchOrder | app.py:92-95 | On the wire, AD sends `(dn, new, old)` and the plain variant `(dn, old, new)`. Both ask for exactly the requested change. |
| Backend.IsAd | app.py:92 | `conf.get('type') == 'ad'`: an absent `type` is the plain variant. |
| Backend.MissingHostPropagates | app.py:61-62 | A section without `host` raises `KeyError('host')` before any directory operation, in either variant. The AD variant first needs `ad_domain`, which it reads before connecting. |
| Backend.MissingOptionPropagates | app.py:90-111 | In a plain section that names its `host`, once the lookup connection is open, a missing `search_filter` raises `KeyError`, which no `except` clause catches. |
| Backend.UnreachableHostBeforeOptions | app.py:105-107 | A plain section whose host cannot be reached gives "Unable to connect to the remote server." before any lookup option is read, even when `search_filter` is missing. |
| Adapter.UserSearch | app.py:134-135 | The one search of the lookup: the configured `base`, with the filter built from `search_filter`. |
| Adapter.FindUserDn | app.py:133-137 | Reads `search_filter`, then `base` (each missing one is a `KeyError`). Issues one search with the built filter and yields the first entry's DN, or None for no entries. |
| Adapter.SearchFilter | app.py:134-135 | The filter is wrapped in parentheses. What lies inside is stated by `SearchFilterFirst`, `SearchFilterConstant` and `SearchFilterSubstitutes`. |
| Adapter.SearchFilterFirst | app.py:134-135 | The first `{uid}` is replaced by the user id, which is not rescanned, and the rest of the template is substituted in turn. With `ReplaceAbsent` at the end, every `{uid}` is replaced. |
| Adapter.SearchFilterTwice | app.py:134-135 | A template naming the user twice, separated by text without `{`, gets the user id in both places. |
| Adapter.SearchFilterConstant | app.py:134-135 | A template without `{uid}` is searched for verbatim, in parentheses. |
| Adapter.SearchFilterSubstitutes | app.py:134-135 | A single `{uid}` is replaced by the user id, and nothing else changes. |
| Adapter.SearchFilterExample | app.py:134-135 | `uid={uid}` for `alice` gives `(uid=alice)`. |
| Adapter.ChangePasswordLdap | app.py:114-121 | A missing `host` raises its `KeyError` before any operation. Otherwise the lookup connection to `host` is entered first, and its failure passes through. Only then does a missing `search_filter` or `base` raise its `KeyError`, and a failed search the search's exception. No DN raises UserNameIsMandatoryError before any bind. A failed bind raises the bind's exception. Otherwise the operations are connect, search, bind as the DN with the old password, then modify `(dn, old, new)`, and the call ends as the modify does. It succeeds iff all of these succeed. |
| Adapter.ChangePasswordAd | app.py:124-130 | A missing `ad_domain`, then a missing `host`, raises its `KeyError` before any operation. Otherwise it binds as `username@ad_domain` with the old password, and a failed bind raises the bind's exception. A missing `search_filter` or `base` then raises its `KeyError`, and a failed search the search's exception. Otherwise it issues modify `(dn, new, old)`, even for a missing DN, and ends as the modify does. |
| Adapter.BothVariantsRequestTheCall | app.py:114-130 | Whatever the wire order, each variant asks for exactly the change the caller requested `(old → new)`. |
| Strength.PasswordStrength | app.py:148-178 | The policy as a function: no section means strong; then length (default 8), mixed case, digit and special character, each checked only when enabled; then the dictionary. |
| Strength.DictionaryVerdict | app.py:168-176 | A missing `dictionary_file` raises its `KeyError`, an unopenable path fails to open, and otherwise the password is strong iff no line rejects it. |
| Strength.PasswordIsStrong | app.py:148-178 | The method's verdict is exactly that of `PasswordStrength`: the checks in source order, with early return, including the missing `dictionary_file` and the unopenable file. |
| Strength.Rejects | app.py:171-174 | A dictionary line forbids the password when it is not blank and its stripped, lower-cased text occurs in the lower-cased password. |
| Strength.MixedCase | app.py:159 | `p.lower() != p and p.upper() != p`. |
| Strength.HasAny | app.py:162 | Some character of the given set occurs in the password. |
| Strength.ScanDictionary | app.py:170-176 | The dictionary loop returns weak iff some non-blank line's stripped, lower-cased pattern occurs in the lower-cased password. |
| Strength.NoCheckerAcceptsAll | app.py:149-152 | Without a `password_checker` section every password is strong. |
| Strength.TooShortRejected | app.py:154-156 | A password shorter than `min_length` (default 8) is weak, whatever the other options and files. |
| Strength.MixedCaseIff | app.py:158-160 | The mixed-case check passes iff the password has both an upper-case and a lower-case letter. |
| Strength.NoLettersNotMixed | app.py:158-160 | With mixed case required, a password without letters is weak. |
| Strength.DigitIff | app.py:161-163 | The digit check passes iff some character is `0`–`9`. |
| Strength.DictionaryWordRejected | app.py:172-176 | A password containing a non-blank line's stripped text, in any letter case, is rejected by that line. |
| Strength.RejectsIgnoresCase | app.py:173-174 | The dictionary check gives the same answer for `p`, `p.upper()` and `p.lower()`. |
| Strength.RejectingPatternNotEmpty | app.py:171-173 | A non-empty line that is not blank gives a non-empty pattern. |
| Strength.BlankLinesIgnored | app.py:171-172 | Inserting a whitespace-only line anywhere in the dictionary does not change the verdict. |
| Strength.DropBlankKeepsRejection | app.py:171-174 | A line that rejects the password still rejects it once a blank line is removed. |
| Strength.AddBlankKeepsRejection | app.py:171-174 | A line that rejects the password still rejects it once a blank line is inserted. |
| Strength.MoreLinesStricter | app.py:170-176 | Appending dictionary lines can turn a strong password weak, never the reverse. |
| Strength.DictionaryExample | app.py:168-176 | With the file `["password\n"]`, `MyPassword1` is weak. |
| Text.Lower | app.py:159 | `lower` keeps the length, maps every upper-case letter to its lower-case letter, and leaves other characters as they are; no upper-case letter remains. |
| Text.Upper | app.py:159 | `upper` keeps the length, maps every lower-case letter to its upper-case letter, and leaves other characters as they are; no lower-case letter remains. |
| Text.IsWhite | app.py:171 | The characters Python's `isspace` and `rstrip` treat as whitespace. |
| Text.IsSpace | app.py:171 | `isspace` holds exactly for the non-empty strings that `rstrip` empties. |
| Text.Contains | app.py:174 | Substring `in`: the empty string is in every string, and nothing longer than `s` is in `s`. |
| Text.LowerFixedIff | app.py:159 | `s.lower() == s` iff `s` has no upper-case letter. |
| Text.UpperFixedIff | app.py:159 | `s.upper() == s` iff `s` has no lower-case letter. |
| Text.RStrip | app.py:173 | `rstrip` leaves a prefix that does not end in whitespace; everything removed is whitespace. |
| Text.RStripNotBlank | app.py:171-173 | A non-empty string that is not all whitespace keeps something after `rstrip`. |
| Text.LastPiece | app.py:102 | `split(sep)[-1]` is a suffix of the string. |
| Text.LastPieceClean | app.py:102 | The last piece of a split holds no separator. |
| Text.LastPieceAfterSep | app.py:102 | A last piece shorter than the string comes right after a separator. |
| Text.LastPieceAbsent | app.py:102 | Without a separator the last piece is the whole string. |
| Text.Capitalize | app.py:102 | `capitalize` keeps the length and upper-cases only the first letter. The rest is lower-cased, and it equals the input up to case. |
| Text.Replace | app.py:134 | `replace` by a left-to-right scan: an occurrence is replaced and the scan resumes after it, so the replacement text is not rescanned. |
| Text.ReplaceFirst | app.py:134 | The first occurrence is replaced and the rest of the string is replaced in turn: every occurrence is substituted. |
| Text.ReplaceAbsent | app.py:134 | `replace` leaves a string without the pattern unchanged. |
| Text.ReplaceOnce | app.py:134 | The single occurrence of the pattern is replaced, and the rest is kept. |

## Left out

- HTTP routing, templates, static files and the form handling of `post_index` (app.py:23-58). That is web plumbing around the core.
- `connect_ldap`, the ldap3 `Server` and `Connection`, timeouts and unbinding (app.py:61-67). Only its read of `host`, with the `KeyError` when it is missing, is modelled. Each directory operation's reply is given instead. Entering the anonymous lookup connection of the plain variant (app.py:115) is its own operation, `Connect`, since the lookup options are read only after it. Opening the authenticated connection (app.py:119, 127) is folded into the reply of its bind, since nothing happens in between.
- The `ValueError` that `getint('port')` or `getboolean('use_ssl')` raises in `connect_ldap` (app.py:63-64) for a malformed value. Option parsing belongs to the configuration reader; a well-formed value only affects the connection.
- `read_config` and start-up (app.py:140-144, 185-207). The configuration is passed in as a value. A section's options are a string map. The `password_checker` options arrive already read by `getint` and `getboolean`.
- `Strength.PasswordIsStrong`: does not model the `ValueError` raised by `getint` or `getboolean` for a malformed option value, because option parsing belongs to the configuration reader.
- Opening and reading the dictionary file (app.py:169). Its contents are a sequence of lines, and a path the service cannot open gives `CannotOpen`.
- Logging. It has no effect on results.
- Case mapping and `capitalize` are ASCII only. Other characters are left as they are. Whitespace is the full set accepted by Python's `str.isspace`.
- Saga.RevertsSpareTheFailed: assumes distinct section names. ConfigParser guarantees distinct names, but `Saga.Section` values do not.
- The ldap3 class hierarchy: `OtherExceptionError` is an `LDAPExceptionError` that none of the earlier clauses catches, and `OtherException` an ldap3 exception outside that family.
- Python's `split` is modelled only for the last piece, the one the service uses.
