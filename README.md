# Open Trashmail, modelled in Dafny

Open Trashmail is a self-hosted disposable-mail service. A Python SMTP
receiver (`python/mailserver3.py`) accepts mail for configured domains and
stores each message as `data/<address>/<id>.json`, with its attachments under
`data/<address>/attachments/`, and may post a webhook. A PHP web application
(`src/`, with its older single-file generation under `web/inc/`) lists
mailboxes and messages, serves raw mail and attachments, deletes mail and
whole accounts, stores per-address webhook settings, and guards all of this
with an optional IP allow-list, a site password and an admin password.

This project models that core: the path sandbox that turns an address into a
mailbox directory, the mailbox store, the access guard and its session state,
the client-address and range checks, the API and JSON controllers, the HTML
helpers, the legacy back end, and the receiver's naming, routing, escaping,
templating and attachment handling. The file system is a `FileSystem.Fs`
object whose `nodes` map paths to files, directories and links and whose
methods (`Unlink`, `Rmdir`, `Mkdirs`, `Write`) change it in place. Paths are
sequences of components; `FileSystem.Normalize` resolves `.` and `..` lexically,
without looking at the tree, and every file operation resolves its path that way.
The PHP and Python library calls the model cannot see (`filter_var`,
`inet_pton`, `json_decode`, `md5`, `hash_hmac`, `preg_match` on e-mail
addresses) are fields of the `Externals.Externals` record, and
`Externals.Lawful` lists the few facts about them the proofs rely on.

Modules, one per file:

| file | module | models |
|---|---|---|
| `wrappers.dfy` | `Wrappers` | `Option`, `Result` and the exceptions PHP and Python raise |
| `text.dfy` | `Text` | string helpers shared by both languages, lexical path resolution |
| `ordering.dfy` | `Ordering` | PHP's `ksort` order on array keys |
| `externals.dfy` | `Externals` | library functions as parameters; JSON values |
| `filesystem.dfy` | `FileSystem` | the directory tree and the calls that read and change it |
| `sandbox.dfy` | `Sandbox` | `Mailbox::getDirForEmail` |
| `mailbox.dfy` | `Mailbox` | `src/Services/Mailbox.php` |
| `http.dfy` | `Http` | `src/Utils/Http.php` |
| `access_guard.dfy` | `AccessGuard` | `src/Services/AccessGuard.php` |
| `webhook.dfy` | `Webhook` | `src/Services/Webhook.php` |
| `view.dfy` | `View` | `src/Utils/View.php` |
| `api_controller.dfy` | `ApiController` | `src/Controllers/ApiController.php` |
| `json_controller.dfy` | `JsonController` | `src/Controllers/JsonController.php` |
| `legacy_core.dfy` | `LegacyCore` | `web/inc/core.php` |
| `legacy_backend.dfy` | `LegacyBackend` | `web/inc/OpenTrashmailBackend.class.php` |
| `mail_receiver.dfy` | `MailReceiver` | the receiver's helpers in `python/mailserver3.py` |

## Model

| member | source | states |
|---|---|---|
| Sandbox.SanitizedIsOneComponent | src/Services/Mailbox.php:31-36 | the sanitised address contains no `/`, `\` or NUL, so joining it adds exactly one path component |
| Sandbox.SanitizeOfPlainAddress | src/Services/Mailbox.php:31-36 | an address free of separators and NUL is only lower-cased |
| Sandbox.SanitizeKeepsAt | src/Services/Mailbox.php:31-36 | an `@` survives sanitising |
| Sandbox.GetDirForEmail | src/Services/Mailbox.php:26-51 | the result is the canonical path when the join lies strictly below the resolved base, and the raw join otherwise |
| Sandbox.GetDirResolvesToJoin | src/Services/Mailbox.php:43-50 | whichever branch is taken, the result names the same place as `base/name` |
| Sandbox.GetDirIsChildOfBase | src/Services/Mailbox.php:26-51 | a sanitised name other than `""`, `.` and `..` puts the mailbox exactly one level below the base |
| Sandbox.ValidEmailStaysInBase | src/Services/Mailbox.php:26-51 | every address that passes e-mail validation gets a direct child of the data directory |
| Sandbox.DotDotEscapesBase | src/Services/Mailbox.php:26-51 | the name `..` survives sanitising, fails the containment test, and the raw `base/..` returned names the parent of the data directory |
| Mailbox.EndsWithMeansSuffix | src/Services/Mailbox.php:53-61 | `endsWith` holds exactly when the haystack is some text followed by the needle |
| Mailbox.LoadEmailJson | src/Services/Mailbox.php:63-88 | the decoded array of the message file, or none when the file is missing, unreadable, empty, malformed or not an array |
| Mailbox.LoadStoredMessage | src/Services/Mailbox.php:63-83 | a message file holding an encoded array loads back as that array |
| Mailbox.GetRawEmail | src/Services/Mailbox.php:90-99 | the `raw` entry as a string exactly when the message loads and has the key |
| Mailbox.GetRawEmailOfString | src/Services/Mailbox.php:90-99 | a string `raw` entry is returned unchanged |
| Mailbox.LoadedMessageExists | src/Services/Mailbox.php:63-106 | a message that loads is one `emailIdExists` reports |
| Mailbox.EntryRow | src/Services/Mailbox.php:144-190 | one directory entry yields nothing, a row keyed by the file's id carrying this address with `maillen` the UTF-8 byte length of `raw`, or the `TypeError` of `strlen` on a non-string `raw` |
| Mailbox.ValidEntries | src/Services/Mailbox.php:203-218 | the entries of the data directory that validate as addresses, in order; none when the directory cannot be opened |
| Mailbox.ListedAddressesAreMailboxes | src/Services/Mailbox.php:203-218 | every listed address validates and names an entry of the data directory, and every such entry is listed |
| Mailbox.ValidEntryIffMailbox | src/Services/Mailbox.php:208-213 | the listed addresses are exactly the validating children of the readable data directory |
| Mailbox.ListEmailAddresses | src/Services/Mailbox.php:203-218 | the method returns exactly the validating entries, without changing the file system |
| Mailbox.FilterValidEntries | src/Services/Mailbox.php:209-213 | the `readdir` loop keeps the validating entries, in order |
| Mailbox.ScanEntriesErrSticks | src/Services/Mailbox.php:144-191 | an exception raised by an earlier entry is the outcome of the whole mailbox |
| Mailbox.ScanDirectory | src/Services/Mailbox.php:144-191 | the loop over one mailbox yields the rows of its message files, or the first exception |
| Mailbox.ScanOneMailbox | src/Services/Mailbox.php:132-194 | a mailbox that is not a directory or cannot be opened adds nothing |
| Mailbox.ScanAddresses | src/Services/Mailbox.php:132-194 | the loop over the mailboxes merges their rows by id, and stops at the first exception |
| Mailbox.GetEmailsOfEmail | src/Services/Mailbox.php:108-201 | every listed address for the admin address, the one address otherwise, scanned and sorted by id |
| Mailbox.ListingSortedByUniqueId | src/Services/Mailbox.php:108-201 | the listing is strictly increasing by id, and every row belongs to a scanned mailbox |
| Mailbox.ListingBodiesAsAsked | src/Services/Mailbox.php:169-171 | every row carries the message body exactly when bodies were asked for |
| Mailbox.SortedRowsById | src/Services/Mailbox.php:196-198 | after `ksort` the ids strictly increase |
| Mailbox.ScanEntriesKeepsLast | src/Services/Mailbox.php:190 | a row an entry produces is in the mailbox's result under its id, with this mailbox's address |
| Mailbox.LaterMailboxWins | src/Services/Mailbox.php:132-198 | in the admin view a later mailbox's message replaces an earlier mailbox's message with the same id |
| Mailbox.CountJson | src/Services/Mailbox.php:268-275 | the count never exceeds the number of entries |
| Mailbox.CountJsonStep | src/Services/Mailbox.php:269-273 | one more entry adds one to the count exactly when its name ends in `.json` |
| Mailbox.CountEmailsOfAddress | src/Services/Mailbox.php:263-278 | the number of `.json` entries of the mailbox, zero when it cannot be read |
| Mailbox.CountJsonEntries | src/Services/Mailbox.php:268-275 | the counting loop computes the number of `.json` entries |
| Mailbox.ListedAtMostCounted | src/Services/Mailbox.php:144-156 | a mailbox's listing never has more rows than its count |
| Mailbox.WebhookConfigCountedNotListed | src/Services/Mailbox.php:144-156 | `webhook.json` is counted as a message but never listed as one |
| Mailbox.AttachmentStaysInMailbox | src/Services/Mailbox.php:220-225 | a plain attachment name stays in the mailbox's `attachments` directory |
| Mailbox.AttachmentNameCanReachMessage | src/Services/Mailbox.php:251-261 | an attachment name `../<id>.json` names the message file itself |
| Mailbox.ListAttachmentsOfMailId | src/Services/Mailbox.php:227-249 | the values of `parsed.attachments` when that is an array, none in every other case |
| Mailbox.AttachmentPaths | src/Services/Mailbox.php:256-258 | one path per attachment name, each the join below `attachments` |
| Mailbox.UnlinkEachRemovesOnlyThose | src/Services/Mailbox.php:256-258 | unlinking the attachments removes only the named files and changes nothing else |
| Mailbox.UnlinkAll | src/Services/Mailbox.php:256-258 | the loop unlinks each path in turn, ignoring failures |
| Mailbox.DeleteEmail | src/Services/Mailbox.php:251-261 | the attachments are unlinked, then the message file; the result is that last unlink's |
| Mailbox.DeleteEmailRemovesOnlyTheMessage | src/Services/Mailbox.php:251-261 | deleting removes nothing but the attachments and the message file, and succeeds exactly when the message file was still there to unlink |
| Mailbox.EnsureExistingMailboxDir | src/Services/Mailbox.php:10-24 | an existing mailbox directory is returned and nothing changes |
| Mailbox.EnsureMailboxDir | src/Services/Mailbox.php:10-24 | afterwards the mailbox is a directory, or the failure is reported |
| Mailbox.DeleteTree | src/Services/Mailbox.php:280-308 | only nodes are removed, and only at or below the directory; a non-directory fails with nothing changed; success means nothing is left at or below it, and it succeeds exactly when the path is a directory other than the root and nothing at or below it is locked or an unlistable directory; every removed node was neither locked nor an unlistable directory |
| Mailbox.DeleteEntries | src/Services/Mailbox.php:289-305 | the loop over the listed entries removes only nodes below the directory, keeps every entry not yet reached, and either leaves no listed entry behind or reports false only when the tree held a locked node or an unlistable directory |
| Mailbox.DeleteEntry | src/Services/Mailbox.php:291-305 | one entry only loses nodes at or below itself; it succeeds exactly when the entry exists and nothing at or below it is locked or unlistable, and then nothing is left at or below it |
| Text.Saturate | src/Controllers/ApiController.php:226-234 | an integer cast stays within PHP's 64-bit integer range and keeps every value already inside it |
| Text.WholeDecimalReads | web/inc/core.php:266 | on a decimal with no fraction digit other than 0 and within PHP's integer range, the integer and float readings agree |
| Text.Utf8Width | src/Services/Mailbox.php:166 | a character takes one to four UTF-8 bytes, and one exactly when it is ASCII |
| Text.Utf8Length | src/Services/Mailbox.php:166 | `strlen` of stored text is between its character count and four times that, and equals the character count exactly when the text is all ASCII |
| Text.Utf8LengthAppend | web/inc/core.php:87 | the byte length of a concatenation is the sum of the parts' byte lengths |
| Text.Utf8LengthOfAccents | web/inc/core.php:118 | `é` counts two bytes and the replacement character U+FFFD three, so `a` followed by `é` counts three |
| Text.Lower | src/Services/Mailbox.php:31 | `strtolower` lower-cases each character and keeps the length |
| Text.SplitOn | src/Utils/Http.php:23 | `explode` yields at least one piece and no piece holds the separator |
| Text.SplitJoin | src/Utils/Http.php:23 | joining the pieces with the separator gives the input back |
| Text.Trim | src/Controllers/ApiController.php:165 | `trim` leaves no trimmed character at either end and adds no character |
| Text.ReplaceAllRemoves | src/Services/Mailbox.php:32-36 | `str_replace` of a one-character pattern removes every occurrence of it |
| Text.ReplaceAllKeepsPresent | src/Services/Mailbox.php:32-36 | a character the pattern does not contain survives `str_replace` |
| Text.ReplaceAllKeepsAbsent | src/Services/Mailbox.php:32-36 | a character absent from subject and replacement stays absent |
| Ordering.LessIsStrictTotalOrder | src/Services/Mailbox.php:196-198 | the key order `ksort` uses is a strict total order |
| Ordering.SortedElements | src/Services/Mailbox.php:196-198 | the keys in increasing order, each exactly once |
| Ordering.CanonicalOrderIsNumeric | src/Services/Mailbox.php:196-198 | on canonical decimal ids the order is numeric order |
| Http.TrimmedPieces | src/Utils/Http.php:23 | one trimmed piece per comma-separated field, none containing a comma |
| Http.FirstValidIndex | src/Utils/Http.php:22-29 | the position of the first forwarded address that validates, every earlier one failing validation |
| Http.GetUserIp | src/Utils/Http.php:10-40 | the early-returning loop over `X-Forwarded-For` picks the same address as the priority order of the headers |
| Http.UserIpIsValidHeaderValue | src/Utils/Http.php:10-40 | the chosen address is empty or valid, comes from one of the consulted headers, and is empty only when none holds a valid address |
| Http.StrRepeat | src/Utils/Http.php:67 | `str_repeat`: `n` copies of the character |
| Http.StrPad | src/Utils/Http.php:74 | `str_pad`: the input followed by padding up to the size, never shortened |
| Http.StrAnd | src/Utils/Http.php:77 | PHP's `&` on strings is as long as the shorter operand |
| Http.ChrOfShiftedOnes | src/Utils/Http.php:71 | the byte the mask loop appends has exactly its top `bits` bits set |
| Http.TopBitsOfShiftedOnes | src/Utils/Http.php:71 | `(2 ** k - 1) << (w - k)` has exactly its top `k` of `w` bits set |
| Http.ShiftedOnesFitByte | src/Utils/Http.php:71 | the appended value is a byte |
| Http.SolidMask | src/Utils/Http.php:65-67 | the `floor(m / 8)` bytes `chr(255)` cover exactly the bits below `m` they span |
| Http.MaskStep | src/Utils/Http.php:69-72 | each pass of the mask loop keeps the mask bits exactly those below the prefix length |
| Http.PaddedMask | src/Utils/Http.php:74 | padding with `chr(0)` yields the mask of the first `m` bits |
| Http.BuildMask | src/Utils/Http.php:65-74 | a negative prefix length raises `ValueError`; otherwise the mask has exactly its first `m` bits set |
| Http.IsIpInRange | src/Utils/Http.php:42-78 | the recursive method with its mask loop answers as the range test |
| Http.AnyRangeIsFirstDecisive | src/Utils/Http.php:44-47 | a list answers false exactly when every sub-range does, and otherwise gives the first sub-range's true or exception |
| Http.ListMatchesIffSomeRangeMatches | src/Utils/Http.php:44-47 | a list matches exactly when some trimmed sub-range matches and none before it throws |
| Http.MaskedEqualIsPrefixAgreement | src/Utils/Http.php:76-77 | comparing under the mask decides whether the first `m` bits agree |
| Http.FullAgreementIsEquality | src/Utils/Http.php:76-77 | agreement on every bit is equality |
| Http.SingleRangeIsPrefixTest | src/Utils/Http.php:49-77 | a single range throws on a negative prefix length and otherwise matches exactly when the first `m` bits agree |
| Http.ZeroPrefixAdmitsAll | src/Utils/Http.php:49-77 | prefix length 0 admits every address of the network's length |
| Http.FullPrefixAdmitsOnlyTheAddress | src/Utils/Http.php:49-77 | `/32` and `/128` admit exactly the network address |
| Http.BareAddressAdmitsAll | src/Utils/Http.php:50-52 | a range without `/` has prefix length 0 and admits every address of its length |
| Http.UnparseableRaises | src/Utils/Http.php:58-62 | an address or network that does not parse raises `InvalidArgumentException` rather than answering false |
| AccessGuard.GetPath | src/Services/AccessGuard.php:263-268 | the path is never empty and has no trailing slash unless it is `/` |
| AccessGuard.EnsureToken | src/Services/AccessGuard.php:270-276 | a missing or empty token is replaced by the fresh one, a present token kept; afterwards the token is non-empty |
| AccessGuard.CsrfValid | src/Services/AccessGuard.php:283-291 | valid exactly when the session token is non-empty and the posted token equals it |
| AccessGuard.Failures | src/Services/AccessGuard.php:298-301 | wrong passwords change neither the passed flag nor the token |
| AccessGuard.CaptchaAfterTwoFailures | src/Services/AccessGuard.php:293-311 | after a reset and `n` failures the counter is `n`, and the captcha is required exactly when `n >= 2` |
| AccessGuard.Session.EnsureCsrfToken | src/Services/AccessGuard.php:270-276 | the session holds the ensured token of that gate and nothing else changes |
| AccessGuard.Session.RotateCsrfToken | src/Services/AccessGuard.php:278-281 | the gate's token is the fresh one and nothing else changes |
| AccessGuard.Session.IncrementFailedAttempts | src/Services/AccessGuard.php:298-301 | the gate's counter grows by one and nothing else changes |
| AccessGuard.Session.ResetFailedAttempts | src/Services/AccessGuard.php:303-306 | the gate's counter is cleared and nothing else changes |
| AccessGuard.FormLoginStep | src/Services/AccessGuard.php:98-145 | the form-post branch of either gate, on the session object, agrees with the login specification |
| AccessGuard.EnforcePassword | src/Services/AccessGuard.php:74-176 | the site gate's outcome and new session are those of its specification |
| AccessGuard.EnforceAdminPassword | src/Services/AccessGuard.php:183-261 | the admin gate's outcome and new session are those of its specification |
| AccessGuard.CheckIpAllowList | src/Services/AccessGuard.php:44-54 | the allow-list outcome is that of its specification |
| AccessGuard.Enforce | src/Services/AccessGuard.php:23-69 | the allow-list, the captcha exemption, the session start when either password is non-empty, and both gates in order, as specified; without a session the gates run on a request-local state and the stored session is unchanged |
| AccessGuard.BadTokenOnlyRotates | src/Services/AccessGuard.php:103-113 | a bad CSRF token rotates the token and shows the login, leaving the counter and flag alone |
| AccessGuard.FailedCaptchaChangesNothing | src/Services/AccessGuard.php:115-124 | a failed captcha shows the login with the captcha required and changes nothing |
| AccessGuard.PasswordDecides | src/Services/AccessGuard.php:126-144 | the right password passes, resets the counter and rotates the token; a wrong one adds one failure and recomputes the captcha requirement |
| AccessGuard.FormLoginNeedsTokenAndCaptcha | src/Services/AccessGuard.php:98-145 | a form login passes only with a valid token, the right password and, after two failures, the captcha |
| AccessGuard.HeaderPasswordPasses | src/Services/AccessGuard.php:85-91 | a matching `PWD` header passes the site gate and resets its counter, whatever else the request holds |
| AccessGuard.LegacyParameterDecides | src/Services/AccessGuard.php:147-166 | the legacy `password` parameter passes when it matches and otherwise counts one failure |
| AccessGuard.SiteGateAdmitsOnlyPassed | src/Services/AccessGuard.php:74-176 | with a site password set, a request proceeds exactly when the gate is passed afterwards |
| AccessGuard.AdminGateInactive | src/Services/AccessGuard.php:185-194 | outside `/api/admin` or without an enabled admin password the admin gate changes nothing |
| AccessGuard.AdminGateAdmitsOnlyPassed | src/Services/AccessGuard.php:183-261 | with the admin gate active, a request proceeds exactly when the admin flag is set afterwards |
| AccessGuard.EnforceAdmitsOnlyPassed | src/Services/AccessGuard.php:23-39 | a request that proceeds passed the allow-list and, except for the captcha endpoint and when a session is started, every active gate |
| AccessGuard.ZeroAdminPasswordKeepsNoSession | src/Services/AccessGuard.php:59-69 | with no site password and the admin password `0`, no session is started, so the stored session never changes, and a request reaches `/api/admin` only by posting the token minted during that same request |
| AccessGuard.GatesAreIndependent | src/Services/AccessGuard.php:23-39 | the captcha endpoint leaves the session untouched, and neither gate writes the other's entries |
| AccessGuard.AllowListAdmitsOnlyInRange | src/Services/AccessGuard.php:44-54 | with an allow-list set, a request proceeds exactly when the client address is in range |
| Webhook.ConfigPathResolves | src/Services/Webhook.php:12 | the configuration file resolves to the same place whatever the file system holds |
| Webhook.GetConfig | src/Services/Webhook.php:10-30 | a configuration is returned only when it is an array read from an existing file |
| Webhook.SaveConfig | src/Services/Webhook.php:32-47 | the method validates the address, creates the mailbox and writes the file, as specified |
| Webhook.SaveThenGet | src/Services/Webhook.php:10-47 | reading after a successful save gives the saved configuration back |
| Webhook.DeleteConfig | src/Services/Webhook.php:49-58 | the file is unlinked when present, as specified |
| Webhook.DeleteConfigIdempotent | src/Services/Webhook.php:49-58 | after a successful delete there is no configuration, and deleting again succeeds without change |
| View.EscapeChar | src/Utils/View.php:8-11 | the five special characters become entities starting with `&`; every other character is kept |
| View.Escape | src/Utils/View.php:8-11 | the output holds no quote or angle bracket and is never shorter than the input |
| View.DecodeEscaped | src/Utils/View.php:8-11 | an escaped character decodes back to itself |
| View.UnescapeEscape | src/Utils/View.php:8-11 | decoding the escaped text gives the input back |
| View.EscapeInjective | src/Utils/View.php:8-11 | different strings escape differently |
| View.ArrayToUnorderedList | src/Utils/View.php:13-22 | the loop yields `<ul>`, one `<li>` per item in order, `</ul>` |
| View.ListItemsAppend | src/Utils/View.php:16-18 | the items of a concatenation are those of each part, in order |
| View.ListItemsInOrder | src/Utils/View.php:13-22 | each item appears as `<li>item</li>` between the items before and after it |
| JsonController.CanShowAccountList | src/Controllers/JsonController.php:45-57 | off without `SHOW_ACCOUNT_LIST`, open without an admin password, otherwise only for a request password equal to it |
| JsonController.AccountListGatesAgree | src/Controllers/JsonController.php:45-57 | the JSON and HTML account-list gates agree when no admin password is set and when the list is off |
| JsonController.ListAccounts | src/Controllers/JsonController.php:31-40 | 200 with the mailbox addresses exactly when the gate is open, 403 otherwise |
| JsonController.HandleEmailRequest | src/Controllers/JsonController.php:62-83 | a missing or invalid address gets 404; 400 only for an id that is not all digits and whose file exists; 200 for an id only when its file exists and it is all digits; an exception only from the listing without an id |
| JsonController.InvalidEmailNotFound | src/Controllers/JsonController.php:64-67 | a missing or invalid address gets 404 whatever storage holds |
| JsonController.ExistenceCheckedBeforeDigits | src/Controllers/JsonController.php:69-78 | a non-digit id gets 400 exactly when its file exists and 404 otherwise, unlike the HTML API |
| JsonController.NonDigitIdProbed | src/Controllers/JsonController.php:69-78 | a non-digit id is answered by whether `<id>.json` exists |
| JsonController.ExistingIdShowsMessage | src/Controllers/JsonController.php:69-79 | a digit id whose message loads answers with that message |
| JsonController.NoIdListsWithBodies | src/Controllers/JsonController.php:82 | without an id the reply is the address's listing with bodies |
| JsonController.Handle | src/Controllers/JsonController.php:15-24 | any route other than the two JSON routes gets 404 |
| ApiController.ErrorHtml | src/Controllers/ApiController.php:247 | the error page is a heading whose escaped text decodes back to the message and holds no quote or angle bracket |
| ApiController.ResolveParam | src/Controllers/ApiController.php:158-183 | `resolveEmail` and `resolveId`: the request value wins over the route value; a non-string, a missing key or a blank value gives null; a result is trimmed and non-empty |
| ApiController.BaseName | src/Controllers/ApiController.php:199 | the base name holds no `/`, and a name without `/` is its own base name |
| ApiController.ResolveAttachment | src/Controllers/ApiController.php:188-200 | a resolved attachment name never contains `/` |
| ApiController.IsValidMailId | src/Controllers/ApiController.php:209-212 | valid exactly for a non-empty string of ASCII digits |
| ApiController.ValidIdIsPlainName | src/Controllers/ApiController.php:209-212 | a valid id makes `<id>.json` one plain file name in the mailbox |
| ApiController.PositiveIntOrDefault | src/Controllers/ApiController.php:219-240 | the result is the default or positive |
| ApiController.PositiveIntOrDefaultReads | src/Controllers/ApiController.php:219-240 | a positive decimal is taken as it is, capped at PHP's largest integer; null or a value whose integer part is not positive gives the default |
| ApiController.LogLines | src/Controllers/ApiController.php:423-426 | the number of log lines shown is always positive |
| ApiController.CanSee | src/Controllers/ApiController.php:127-153 | on exactly when the flag is set and either no admin password is set or the active session carries the admin flag |
| ApiController.MailGuard | src/Controllers/ApiController.php:268-333 | the checks pass exactly for a valid address, a digit id and an existing message file |
| ApiController.MailGuardOrder | src/Controllers/ApiController.php:268-333 | the address is checked first, the id second, and a failure of either is decided without reading storage |
| ApiController.SetKey | src/Controllers/ApiController.php:306-311 | assigning a key stores the value there and keeps every other entry |
| ApiController.WithAttachmentList | src/Controllers/ApiController.php:306-311 | the message handed to the page has an array `parsed` with an array `attachments` |
| ApiController.WithAttachmentListKeepsOthers | src/Controllers/ApiController.php:306-311 | every other entry of the message is kept |
| ApiController.WithAttachmentListKeepsAttachments | src/Controllers/ApiController.php:306-311 | a well-formed message's attachments pass unchanged |
| ApiController.ReadMail | src/Controllers/ApiController.php:287-319 | a message page is shown only after the three checks pass, for the asked address and id |
| ApiController.ReadMailShowsStoredMessage | src/Controllers/ApiController.php:287-319 | a stored message is shown with its own entries |
| ApiController.GetRawMail | src/Controllers/ApiController.php:321-350 | a failed check gives its error page; otherwise the raw source (or `htmlbody`) of the message |
| ApiController.RawMailIsStoredSource | src/Controllers/ApiController.php:321-350 | the raw view of a message with a string `raw` is that string |
| ApiController.GetAttachment | src/Controllers/ApiController.php:352-384 | file content is served exactly for a valid address and an existing, readable attachment, and it is that file's content |
| ApiController.AttachmentServedFromMailbox | src/Controllers/ApiController.php:352-384 | a plain resolved name is served from the mailbox's own `attachments` directory |
| ApiController.ListAccount | src/Controllers/ApiController.php:386-416 | the method ensures the mailbox and renders its table, as specified |
| ApiController.ListAccountOfValid | src/Controllers/ApiController.php:386-416 | for a valid address the table is rendered after the mailbox directory has been ensured |
| ApiController.MailboxTableOfDir | src/Controllers/ApiController.php:399-407 | the expiry is 15 minutes after the directory's modification time, or after now when there is none |
| ApiController.ListAccountShowsMailbox | src/Controllers/ApiController.php:386-416 | a valid address's table lists its own messages, flags the admin inbox and expires 900 seconds after the mailbox was made |
| ApiController.DeleteMail | src/Controllers/ApiController.php:268-285 | the method performs the checks, deletes the message and shows the table, as specified |
| ApiController.DeleteMailGuarded | src/Controllers/ApiController.php:268-280 | a request that fails a check leaves storage as it was and gets the check's error page |
| ApiController.DeleteAccount | src/Controllers/ApiController.php:244-256 | an invalid address changes nothing; a valid one answers `''`, removes nodes only inside its mailbox, and the mailbox tree is gone exactly when nothing in it is locked or unlistable |
| ApiController.DeleteAccountStaysInDataDir | src/Controllers/ApiController.php:244-256 | the tree removed for a valid address is one direct child of the data directory |
| ApiController.SecretKey | src/Controllers/ApiController.php:584-586 | the stored secret is the posted one cut to its first 255 characters: a prefix of it, exactly 255 long when the posted one is longer, all of it otherwise, and empty when none was posted |
| ApiController.ConfigJson | src/Controllers/ApiController.php:576-587 | the stored array has exactly the five keys, and `retry_config` exactly its two |
| ApiController.ConfigJsonRoundTrip | src/Controllers/ApiController.php:576-587 | every stored value can be read back from the stored array |
| ApiController.ConfigJsonEncodable | src/Controllers/ApiController.php:576-589 | the stored array survives JSON encoding and is not empty |
| ApiController.UrlFailure | src/Controllers/ApiController.php:500-531 | an empty URL is not checked; a URL `filter_var` refuses gets the invalid-URL message; only the three URL messages can come out |
| ApiController.UrlFailureIffUnacceptable | src/Controllers/ApiController.php:500-531 | the URL checks fail exactly for URLs that are not acceptable |
| ApiController.CheckConfig | src/Controllers/ApiController.php:500-572 | an accepted configuration is the one read, with a passing URL, a parsing template, 1 to 10 attempts and a backoff from 1 to 5; a refusal carries one of the six messages |
| ApiController.CheckConfigAccepts | src/Controllers/ApiController.php:500-572 | the chain accepts exactly the values that are all in range, and then keeps them unchanged |
| ApiController.CheckConfigFirstFailure | src/Controllers/ApiController.php:500-572 | the first failing check, in the order URL, template, attempts, backoff, decides the message |
| ApiController.InternalTargetsRejected | src/Controllers/ApiController.php:514-530 | a blocked host, or a private or reserved literal IP, never passes |
| ApiController.GetWebhook | src/Controllers/ApiController.php:480-489 | an invalid address gets the error page; a valid one a non-empty array: the stored configuration when there is a non-empty one, `{'enabled': false}` otherwise |
| ApiController.SaveWebhook | src/Controllers/ApiController.php:494-594 | the method validates and stores the configuration, as specified |
| ApiController.SaveWebhookOfAccepted | src/Controllers/ApiController.php:574-593 | for a valid address and accepted values the configuration read from the request is stored |
| ApiController.SaveWebhookRejected | src/Controllers/ApiController.php:496-572 | a request that fails a check stores nothing and is answered with the first failure |
| ApiController.SaveWebhookThenGet | src/Controllers/ApiController.php:480-594 | after a successful save, reading the webhook gives the configuration just built |
| ApiController.DeleteWebhook | src/Controllers/ApiController.php:596-610 | the method validates the address and deletes the configuration, as specified |
| ApiController.HandleWebhook | src/Controllers/ApiController.php:445-462 | the method dispatches on the action, as specified |
| ApiController.OnlySaveAndDeleteWrite | src/Controllers/ApiController.php:445-462 | only `save` and `delete` can change storage, and only for a resolved address |
| ApiController.ReadOnlyActions | src/Controllers/ApiController.php:456-461 | every action other than `save` and `delete` leaves storage as it is |
| LegacyCore.DirForIsNewLayout | web/inc/core.php:3-29 | the legacy mailbox of an address under `ROOT` is the new mailbox of that address under `ROOT/..` |
| LegacyCore.SharedDataDirectory | web/inc/core.php:17 | with the legacy `ROOT` at `<repo>/web` and the new one at `<repo>/public/..`, both front ends store mail in `<repo>/data` |
| LegacyCore.UpFromChild | web/inc/core.php:17 | going down into a plain name and back up leads where it started |
| LegacyCore.StartsWithMeansPrefix | web/inc/core.php:32-36 | `startsWith` holds exactly when the haystack is the needle followed by something |
| LegacyCore.EndsWithAgrees | web/inc/core.php:38-46 | the legacy `endsWith`, true for an empty needle, is the new suffix test |
| LegacyCore.MessagePathIsNewLayout | web/inc/core.php:48-62 | the legacy message file is the new one over the same data directory |
| LegacyCore.LegacyReadsWhatNewLoads | web/inc/core.php:48-62 | where the new code loads a message, the legacy code reads the same document and `raw` entry and reports it as existing |
| LegacyCore.MissingMessageReadsNull | web/inc/core.php:48-58 | a missing message reads as null, and so does its raw text |
| LegacyCore.StringMessageRaises | web/inc/core.php:53-58 | a message whose document is a JSON string makes the legacy `getRawEmail` throw where the new one answers null |
| LegacyCore.DirectoryCountsAsMessage | web/inc/core.php:60-63 | a directory named `<id>.json` exists for the legacy test and not for the new one |
| LegacyCore.NewMessagesExist | web/inc/core.php:60-63 | every message the new code sees exists for the legacy code |
| LegacyCore.GetEmail | web/inc/core.php:48-51 | a message file that cannot be read reads as null |
| LegacyCore.GetRawEmail | web/inc/core.php:53-58 | `TypeError` exactly when the file decodes to a string; otherwise the `raw` entry, null when it is missing or not an array |
| LegacyCore.AttachmentExistsWidensNew | web/inc/core.php:155-158 | without a second name the test is on `attachments/<id>` alone and accepts whatever the new test accepts |
| LegacyCore.AttachmentWithName | web/inc/core.php:155-158 | a truthy second name is appended after a dash |
| LegacyCore.ListAttachmentsAgree | web/inc/core.php:160-168 | where the legacy list does not throw, it is the new list |
| LegacyCore.DeleteEmailAgrees | web/inc/core.php:170-177 | unless listing the attachments throws, the legacy delete does exactly what the new one does |
| LegacyCore.DeleteEmail | web/inc/core.php:170-177 | the method unlinks the listed attachments and then the message file, as specified |
| LegacyCore.CountEmailsOfAddress | web/inc/core.php:320-331 | the legacy count is the new count over the same data directory |
| LegacyCore.EntryRow | web/inc/core.php:79-97 | an entry not ending in `.json` adds nothing; any other yields a row keyed by its id with `maillen` the UTF-8 byte length of `raw`, whatever the file holds, or the exception reading it throws |
| LegacyCore.AddressListIsNewLayout | web/inc/core.php:141-153 | the legacy address list is the new one over the same data directory |
| LegacyCore.StrictAdminIsLooseAdmin | web/inc/core.php:70 | whoever the new code treats as admin, the legacy code does too |
| LegacyCore.LooseAdminAcceptsNumericSpelling | web/inc/core.php:70 | with `ADMIN` set to `1`, the address `1.0` gets the admin view from the legacy code only |
| LegacyCore.ScanEntriesKeys | web/inc/core.php:78-99 | the keys a scan adds are exactly the ids of the `.json` entries |
| LegacyCore.AddEntryKeys | web/inc/core.php:79-82 | one step of the scan adds the id of a `.json` entry and nothing else |
| LegacyCore.JsonIdsCounted | web/inc/core.php:320-331 | distinct `.json` names give as many ids as the count |
| LegacyCore.ListingMatchesCount | web/inc/core.php:105-132 | a mailbox lists exactly as many rows as it counts |
| LegacyCore.SortedRowsById | web/inc/core.php:135-136 | after `ksort` the ids strictly increase |
| LegacyCore.ListingSortedByUniqueId | web/inc/core.php:65-139 | the listing is sorted by id with no id twice, every row belonging to a scanned mailbox |
| LegacyCore.WebhookConfigListed | web/inc/core.php:79-88 | a stored `webhook.json` is listed as a message with id `webhook`, which the new listing skips |
| LegacyCore.ScanEntriesErrSticks | web/inc/core.php:78-99 | an exception raised by an earlier entry is the outcome of the whole mailbox |
| LegacyCore.ScanDirectory | web/inc/core.php:78-99 | the `readdir` loop over one mailbox computes its rows or the first exception |
| LegacyCore.ScanOneMailbox | web/inc/core.php:77-101 | a mailbox that cannot be opened is skipped |
| LegacyCore.ScanAddresses | web/inc/core.php:75-102 | the loop over the mailboxes merges their rows by id and stops at the first exception |
| LegacyCore.GetEmailsOfEmail | web/inc/core.php:65-139 | the admin view over all mailboxes or the one mailbox, scanned and sorted |
| LegacyCore.UserIpOrigin | web/inc/core.php:209-241 | of `UserIp`: the address is the Cloudflare header, a value that validates, or the unchecked `REMOTE_ADDR`, never a later element of a forwarded list |
| LegacyCore.UnvalidatedCloudflareHeader | web/inc/core.php:212-215 | an invalid Cloudflare header is returned by the legacy code and never by the new code |
| LegacyCore.UserIpAgreesWithoutProxies | web/inc/core.php:209-241 | without proxy headers and with a missing or valid `REMOTE_ADDR` the two agree |
| LegacyCore.LegacyMaskFails | web/inc/core.php:266-268 | the legacy mask fails exactly for a negative prefix, and then with the `ValueError` of `str_repeat` |
| LegacyCore.LegacyMaskOfWhole | web/inc/core.php:266-274 | for a whole prefix the float mask the legacy code builds is the new code's mask of the first `m` bits |
| LegacyCore.IntegralPrefixReads | web/inc/core.php:254-266 | a prefix written as a whole number within PHP's integer range is read by the legacy division as the number the new `(int)` cast reads |
| LegacyCore.SingleRangeAgrees | web/inc/core.php:254-277 | for one range whose prefix is absent or a whole number, the legacy test is the new one, except that a prefix that is not numeric throws `TypeError` where the new code reads 0 |
| LegacyCore.NegativePrefixRaises | web/inc/core.php:266-268 | once both addresses parse and the prefix is numeric, the legacy test throws `ValueError` exactly when the prefix value is negative, fractions such as `-0.5` included |
| LegacyCore.FractionalPrefixMask | web/inc/core.php:266-274 | for `/23.5` the legacy mask is `FF FF B4 00`, so `10.0.2.0` is inside `10.0.0.0/23.5` for the legacy code, while the new code's `/23` mask (`FF FF FE 00`) keeps it out |
| LegacyCore.AnyRangeAgrees | web/inc/core.php:245-252 | when every sub-range's prefix is absent or a whole number, the legacy and new list tests agree |
| LegacyCore.RangeMatchAgrees | web/inc/core.php:243-278 | the whole legacy test agrees with the new one whenever every written prefix is absent or a whole number |
| LegacyCore.TrailingSlashRaises | web/inc/core.php:254-267 | a range ending in `/` throws `TypeError` in the legacy code and reads as `/0` in the new code |
| LegacyCore.BuildLegacyMask | web/inc/core.php:266-274 | the loop over a float counter, with `bits` clamped to 0..8, builds the legacy mask or fails as it does |
| LegacyCore.IsIpInRange | web/inc/core.php:243-278 | the recursive method with its mask loop answers as the legacy range test |
| LegacyCore.DelTree | web/inc/core.php:333-341 | a path `scandir` cannot list throws `TypeError` with nothing changed; a listable tree never throws; only nodes at or below the directory are removed; true means nothing is left there, and comes exactly when the path is a directory other than the root with nothing locked or unlistable below |
| LegacyCore.DelEntries | web/inc/core.php:336-338 | the `foreach` removes only nodes below the directory, keeps the entries not yet reached, throws only `TypeError` and only when something below cannot be listed, and clears every entry when the tree is removable |
| LegacyCore.DelEntry | web/inc/core.php:336-338 | one entry only loses nodes at or below itself; `TypeError` comes only from an unlistable directory there; true exactly when the entry exists and its tree is removable |
| LegacyCore.OutsideChild | web/inc/core.php:336-338 | what lies outside a directory lies outside each of its children |
| LegacyCore.ConfigPathIsNewLayout | web/inc/core.php:345 | the legacy configuration file is the new one over the same data directory |
| LegacyCore.GetWebhookConfig | web/inc/core.php:343-350 | a configuration is read only when something exists under the file name |
| LegacyCore.GetWebhookConfigNarrowed | web/inc/core.php:343-350 | the new `getConfig` is the legacy one restricted to regular files that decode to an array |
| LegacyCore.SaveWebhookConfig | web/inc/core.php:352-369 | the legacy save is the new save over the same mailbox, for any value |
| LegacyCore.SaveThenGetWebhook | web/inc/core.php:343-369 | reading after a successful save gives the saved value back, array or not |
| LegacyCore.DeleteWebhookConfig | web/inc/core.php:371-378 | the file is unlinked when anything exists under its name, as specified |
| LegacyCore.DeleteWebhookConfigAgrees | web/inc/core.php:371-378 | the legacy and new deletes agree on a regular file or on nothing, and differ on a directory or a link under that name |
| LegacyCore.DeleteWebhookConfigIdempotent | web/inc/core.php:371-378 | after a successful delete nothing is configured, and deleting again succeeds without change |
| LegacyBackend.RequestOrRoute | web/inc/OpenTrashmailBackend.class.php:25 | a truthy string request value wins, an array request value reads as no string, and otherwise the route segment is taken |
| LegacyBackend.CanSee | web/inc/OpenTrashmailBackend.class.php:33-42 | the `listaccounts` and `logs` gate: the flag, and either no (or a falsy) admin password or an admin session |
| LegacyBackend.GateMatchesNewExceptZeroPassword | web/inc/OpenTrashmailBackend.class.php:73-78 | the legacy gate is the new one, except that an admin password of `0` opens the page to everybody |
| LegacyBackend.LogLines | web/inc/OpenTrashmailBackend.class.php:80-82 | the `lines` value is the route segment when it is numeric and positive, and `100` otherwise |
| LegacyBackend.LogLinesAgree | web/inc/OpenTrashmailBackend.class.php:80-82 | on a positive digit run the legacy page passes the digits on and the new page their value, capped at PHP's largest integer; a positive fraction such as `0.5` is passed on by the legacy page only |
| LegacyBackend.DigitsAreNumeric | web/inc/OpenTrashmailBackend.class.php:82 | a digit run is numeric and its value is its decimal value |
| LegacyBackend.CanListAccountsJson | web/inc/OpenTrashmailBackend.class.php:138-148 | the JSON account list needs the flag, and either no admin password or a request password loosely equal to it |
| LegacyBackend.JsonGateWidensNew | web/inc/OpenTrashmailBackend.class.php:138-148 | whatever the new JSON gate admits the legacy one admits too, and with `1` set the password `1.0` is admitted by the legacy gate only |
| LegacyBackend.MailGuard | web/inc/OpenTrashmailBackend.class.php:198-259 | the checks run in the order address, `is_numeric` id, existence, and pass exactly when all three do |
| LegacyBackend.MailGuardWidensNew | web/inc/OpenTrashmailBackend.class.php:198-259 | every request the new checks admit passes the legacy checks on the same mailbox, and `1.0` passes only the legacy checks |
| LegacyBackend.DeleteMail | web/inc/OpenTrashmailBackend.class.php:198-208 | the method runs the checks and the legacy delete, as specified |
| LegacyBackend.DeleteMailEffect | web/inc/OpenTrashmailBackend.class.php:198-208 | a refused request changes nothing and gets the first failing check's message; an admitted one removes what the new delete removes, or nothing when listing the attachments throws |
| LegacyBackend.DeleteEmailRaisesTypeError | web/inc/OpenTrashmailBackend.class.php:206 | the only exception the legacy delete throws is `TypeError` |
| LegacyBackend.ReadMail | web/inc/OpenTrashmailBackend.class.php:242-259 | the message page is shown exactly when the checks pass, and otherwise an error page |
| LegacyBackend.ReadMailShowsStoredMessage | web/inc/OpenTrashmailBackend.class.php:242-259 | a message the new code loads is shown as the same document |
| LegacyBackend.ExitOutput | web/inc/OpenTrashmailBackend.class.php:220 | `exit` prints a string as it is, and nothing for an integer or null |
| LegacyBackend.Offset2 | web/inc/OpenTrashmailBackend.class.php:220 | a nested offset throws exactly when it is taken on a string |
| LegacyBackend.RawMailIsStoredSource | web/inc/OpenTrashmailBackend.class.php:210-224 | the raw view of a loaded message shows its stored source, and the HTML view its stored HTML body |
| LegacyBackend.ForbiddenListIsStatus200 | web/inc/OpenTrashmailBackend.class.php:138-148 | the refused JSON account list is answered with status 200, where the new controller answers 403 with the same body |
| LegacyBackend.JsonExistenceBeforeNumeric | web/inc/OpenTrashmailBackend.class.php:157-171 | with a truthy id, a non-numeric id gets 400 exactly when something exists under `<id>.json`, and 404 otherwise |
| LegacyBackend.JsonShowsWhatNewShows | web/inc/OpenTrashmailBackend.class.php:157-171 | where the new JSON controller shows a stored message, the legacy branch shows the same document |
| LegacyBackend.TruthyIdAsksById | web/inc/OpenTrashmailBackend.class.php:157-171 | a truthy id is answered by the id branch |
| LegacyBackend.FalsyIdLists | web/inc/OpenTrashmailBackend.class.php:157-174 | an id of `0` or none is falsy and gets the address's listing, where the new controller looks up message `0` |
| LegacyBackend.DeleteAccount | web/inc/OpenTrashmailBackend.class.php:180-187 | an invalid address changes nothing; a valid one answers empty or passes on `TypeError`, never for a listable mailbox; only nodes inside the mailbox are removed, and its tree is gone exactly when nothing in it is locked or unlistable |
| LegacyBackend.DeleteDirectory | web/inc/OpenTrashmailBackend.class.php:185-186 | a path that is not a directory is left alone with an empty answer; a listable directory answers empty; only nodes at or below it are removed, and it is gone exactly when its tree is removable |
| LegacyBackend.DeleteAccountStaysInDataDir | web/inc/OpenTrashmailBackend.class.php:180-187 | the tree removed for a valid address is the same direct child of the data directory the new code removes |
| LegacyBackend.GetWebhook | web/inc/OpenTrashmailBackend.class.php:294-302 | an invalid address gets the error page, any other a non-empty JSON body |
| LegacyBackend.GetWebhookAgrees | web/inc/OpenTrashmailBackend.class.php:294-302 | where the stored value is an array in a regular file, or absent, the legacy and new handlers answer alike |
| LegacyBackend.UrlFailureIffUnacceptable | web/inc/OpenTrashmailBackend.class.php:311-334 | the URL checks fail exactly for URLs that are not acceptable |
| LegacyBackend.UrlChecksWidenNew | web/inc/OpenTrashmailBackend.class.php:311-334 | every URL the new checks accept with a lower-case host, the legacy checks accept; the legacy checks also accept other schemes and the falsy URL `0` |
| LegacyBackend.CheckForm | web/inc/OpenTrashmailBackend.class.php:311-364 | an accepted form is returned unchanged, with string template and secret |
| LegacyBackend.CheckFormAccepts | web/inc/OpenTrashmailBackend.class.php:311-364 | the chain accepts exactly the forms whose values are all in range |
| LegacyBackend.CheckFormFirstFailure | web/inc/OpenTrashmailBackend.class.php:311-364 | the first failing check decides the answer, and an array template or secret throws `TypeError` |
| LegacyBackend.NullTemplatePasses | web/inc/OpenTrashmailBackend.class.php:340-342 | a template whose test payload decodes to `null` is not rejected |
| LegacyBackend.ConfigJson | web/inc/OpenTrashmailBackend.class.php:355-364 | the stored secret is the posted one cut to its first 255 characters: a prefix of it, exactly 255 long when the posted one is longer, the whole secret otherwise |
| LegacyBackend.ConfigJsonEncodable | web/inc/OpenTrashmailBackend.class.php:355-368 | the stored array survives JSON encoding and is not empty |
| LegacyBackend.ConfigJsonMatchesNew | web/inc/OpenTrashmailBackend.class.php:355-364 | a form the new checks also accept, with a URL, a posted backoff and a short secret, is stored as the same array as in the new controller |
| LegacyBackend.SaveWebhook | web/inc/OpenTrashmailBackend.class.php:304-371 | the method validates and stores the form, as specified |
| LegacyBackend.StoreFormIn | web/inc/OpenTrashmailBackend.class.php:366-370 | the accepted form is written with the legacy save, as specified |
| LegacyBackend.SaveWebhookRejected | web/inc/OpenTrashmailBackend.class.php:304-364 | a refused form stores nothing and is never answered as saved |
| LegacyBackend.CheckFormNeverSaved | web/inc/OpenTrashmailBackend.class.php:311-364 | no failure of the chain reads as a successful save |
| LegacyBackend.SaveWebhookThenGet | web/inc/OpenTrashmailBackend.class.php:294-371 | after a successful save, `getWebhook` answers with the array just built from the form |
| LegacyBackend.DeleteWebhook | web/inc/OpenTrashmailBackend.class.php:373-385 | the method validates the address and deletes the configuration, as specified |
| LegacyBackend.DeleteWebhookAgrees | web/inc/OpenTrashmailBackend.class.php:373-385 | on a regular file or on nothing the legacy and new handlers do the same |
| MailReceiver.SkipRun | python/mailserver3.py:46 | what is left after dropping the longest leading run of characters not kept: a suffix of the input that is empty or starts with a kept character |
| MailReceiver.ReplaceRuns | python/mailserver3.py:46 | the replacement never lengthens the text and leaves a non-empty text non-empty |
| MailReceiver.ReplaceRunsOnlyKept | python/mailserver3.py:46 | when `_` is kept, the result holds only kept characters |
| MailReceiver.ReplaceRunsFixed | python/mailserver3.py:46 | a text of kept characters is left as it is |
| MailReceiver.ReplaceRunsIdempotent | python/mailserver3.py:46 | sanitising twice is sanitising once |
| MailReceiver.ReplaceRunsKeepsChar | python/mailserver3.py:46 | a kept character of the input survives |
| MailReceiver.DataDir | python/mailserver3.py:20-21 | `DATA_DIR` is an absolute path with no `.` or `..` in it |
| MailReceiver.SafeEmailDirOutcome | python/mailserver3.py:40-50 | only the name `..` is refused with `ValueError`; `""` and `.` give `DATA_DIR`; every other name is one entry below it |
| MailReceiver.ReceiverAndWebNamesDiffer | python/mailserver3.py:45-46 | a character outside `[a-z0-9@._-]` that is not a separator or NUL makes the receiver's directory name differ from the web side's |
| MailReceiver.ReceiverAndWebNamesAgree | python/mailserver3.py:45-46 | an address made of `[a-z0-9@._-]` after lower-casing gets the same directory name from both sides |
| MailReceiver.ReceiverDataDirectory | python/mailserver3.py:20-21 | with the script in `<repo>/python`, mail is stored in `<repo>/data` |
| MailReceiver.Basename | python/mailserver3.py:57 | the base name is a suffix of the path holding no `/` |
| MailReceiver.AttachmentName | python/mailserver3.py:57-58 | the sanitised name is non-empty and holds only `[a-zA-Z0-9._-]` |
| MailReceiver.SafeAttachmentId | python/mailserver3.py:53-59 | the file id ends in `_` followed by the sanitised name |
| MailReceiver.AttachmentIdIsPlain | python/mailserver3.py:53-59 | with hexadecimal digests the file id is one plain name |
| MailReceiver.AttachmentCheckAlwaysPasses | python/mailserver3.py:177-185 | the path check never blocks a file id: it names one file directly inside the attachments directory |
| MailReceiver.DomainOf | python/mailserver3.py:130 | the domain is no longer than the address |
| MailReceiver.RemoveStars | python/mailserver3.py:137 | the result holds no `*` |
| MailReceiver.FindDomain | python/mailserver3.py:132-142 | the loop sets `found` exactly when some non-blank entry accepts the domain |
| MailReceiver.StarAcceptsEverything | python/mailserver3.py:137 | a lone `*` accepts every domain |
| MailReceiver.PlainEntryIsExact | python/mailserver3.py:134-142 | an entry without a star accepts exactly the domain it names |
| MailReceiver.LeadingStarIsSuffix | python/mailserver3.py:137 | `*suffix` accepts exactly the domains ending in the suffix, and `*.example.com` does not accept `example.com` |
| MailReceiver.RouteRecipients | python/mailserver3.py:123-154 | the recipient loop delivers to the directories the routing rule gives, in order |
| MailReceiver.RouteOne | python/mailserver3.py:124-152 | one pass of the loop follows the routing rule |
| MailReceiver.ValidRecipientHasDirectory | python/mailserver3.py:126-152 | a well-formed recipient's directory is never refused and lies directly below `DATA_DIR` |
| MailReceiver.RouteOutcome | python/mailserver3.py:123-152 | a recipient is delivered exactly when it is well-formed and its domain is known or unknown domains are kept, and it is stored one entry below `DATA_DIR` |
| MailReceiver.RoutesStayInDataDir | python/mailserver3.py:123-154 | every delivery is for a well-formed address and goes directly below `DATA_DIR` |
| MailReceiver.EscapeChainIsEach | python/mailserver3.py:251-257 | the chain of replacements escapes each character on its own; no replacement rewrites an earlier one's output |
| MailReceiver.JsonEscapeRoundTrip | python/mailserver3.py:247-257 | a text with no control character other than newline, carriage return and tab decodes back from its escaped form |
| MailReceiver.JsonEscapeLeavesControlChars | python/mailserver3.py:247-257 | a text with any other control character escapes to something a JSON decoder refuses |
| MailReceiver.HexDigit | python/mailserver3.py:247-257 | the digit written for a value below 16 reads back as that value |
| MailReceiver.StrictEscapeRoundTrip | python/mailserver3.py:247-257 | the corrected escape decodes back for every text |
| MailReceiver.StrictEscapeAgrees | python/mailserver3.py:247-257 | the correction changes nothing for texts the original already handles |
| MailReceiver.Replacements | python/mailserver3.py:261-271 | seven non-empty placeholders in their insertion order |
| MailReceiver.ReplaceTemplateVariables | python/mailserver3.py:273-277 | the loop replaces each placeholder in turn, as the template filling specifies |
| MailReceiver.ReplaceEachNoMatch | python/mailserver3.py:273-277 | replacing placeholders that do not occur changes nothing |
| MailReceiver.ReplaceEachOnePattern | python/mailserver3.py:273-277 | a text that is exactly one placeholder becomes its value, unless an earlier placeholder occurs in it or a later one in the value |
| MailReceiver.FillTemplateWithoutPlaceholders | python/mailserver3.py:244-280 | a template with no placeholder is sent as it is |
| MailReceiver.ToPlaceholderIsFirstRecipient | python/mailserver3.py:262 | `{{to}}` becomes the escaped first recipient, or nothing without recipients |
| MailReceiver.SignPayload | python/mailserver3.py:282-291 | a signature exactly when the secret is non-empty |
| MailReceiver.DumpsChar | python/mailserver3.py:323-333 | with `ensure_ascii` a character is written in printable ASCII only |
| MailReceiver.DumpsCharsGrows | python/mailserver3.py:323-333 | the two settings write a text alike exactly when it is all ASCII, and `ensure_ascii` writes a longer one otherwise |
| MailReceiver.DumpsGrows | python/mailserver3.py:323-333 | the two settings of `json.dumps` write a JSON value alike exactly when every string and key in it is ASCII |
| MailReceiver.AsWrittenSignsOtherText | python/mailserver3.py:321-333 | as written, the signature is the HMAC of the `ensure_ascii=False` text, and that text is the posted body exactly when the payload is all ASCII |
| MailReceiver.AsWrittenAccentedSubject | python/mailserver3.py:321-333 | a payload `"é"` is signed as `"é"` and posted as `"\u00e9"` |
| MailReceiver.SignedRequestVerifies | python/mailserver3.py:321-333 | signing the posted body gives a header exactly when a secret is set, the receiver's HMAC check of the body passes, and ASCII payloads get the same request as before |
| MailReceiver.HandleAttachmentOutcome | python/mailserver3.py:384-409 | an attachment is refused exactly when a positive limit is exceeded; otherwise it keeps its payload and a plain file id ending in its sanitised name |
| MailReceiver.BracketedContentId | python/mailserver3.py:387-389 | `<id>` in `Content-ID` gives the content id `id` |
| MailReceiver.ReplaceCidWithAttachmentId | python/mailserver3.py:411-422 | the loop rewrites each attachment's `cid:` reference, as specified, and empty HTML is returned at once |
| MailReceiver.EmptyHtmlStaysEmpty | python/mailserver3.py:413-414 | empty HTML stays empty |
| MailReceiver.UnreferencedHtmlUnchanged | python/mailserver3.py:416-422 | HTML that references no attachment is left as it is |
| MailReceiver.ReferenceBecomesLink | python/mailserver3.py:419-421 | a reference `cid:<cid>` becomes the attachment's download link |

## Left out

- Sockets, SMTP, MIME parsing, TLS, the receiver's asynchronous handler and its file writes, the HTTP delivery of webhooks with retries and back-off (`send_configured_webhook`, `send_global_webhook`): network, concurrency and floating point. The receiver's naming, routing, escaping, template filling, signing and attachment handling are modelled, and of `send_configured_webhook` the signed text and the posted body; what the handler writes is not.
- HTML templates, the RSS feed, `renderTemplate`, `renderIntro`, `renderLogs` beyond its line count, `listAccounts` beyond its gate, `AbstractController`, `AppController`, `RssController` and both `index.php` files: rendering and request dispatch. `ApiController::handle` and `OpenTrashmailBackend::run` are modelled only for the gates and parameter reading their routes use (`CanSee`, `LogLines`, `RequestOrRoute`, `CanListAccountsJson`, the JSON branch).
- The `address`, `random`, `attachment`, `admin` and `rss` routes of the legacy `run`, and the legacy `getAttachment` and `listAccount`: they render templates or stream files. `generateRandomEmail` and `random_bytes`: randomness; fresh CSRF tokens are inputs.
- `View::assetUrl` and the legacy `escape`, `array2ul`, `tailShell`, `getVersion`, `removeScriptsFromHtml`, `loadSettings`: file metadata, shell and settings I/O; the two HTML helpers repeat `View` exactly.
- `Settings`, `System` and `Captcha`: settings are an input map, and the captcha verdict is an input.
- `filter_var`, `parse_url`, `inet_pton`, `json_decode`, `json_encode`, `md5`, HMAC-SHA256, `preg_match` on addresses, `mime_content_type`: foreign functions, taken as parameters. `Externals.Lawful` states what the proofs assume of them (for example that a validating address holds one `@`, and that decoding an encoded value gives it back).
- Every file operation (`realpath`, `is_dir`, `is_file`, `file_exists`, `scandir`, `unlink`, `rmdir`, `mkdir`, reads and writes) resolves `.` and `..` in its path lexically, where POSIX resolves each `..` against the directory actually reached; a `..` after a missing directory or after a link resolves differently on disk. Symbolic links have no targets in the model, so a link is never followed. `readdir` and `scandir` list `.`, `..`, then the children in one fixed order.
- `ksort` is modelled as shortlex order on keys. This is PHP's order on canonical decimal ids, which is what message files are named; other keys sort differently in PHP.
- Pretty-printing of `webhook.json` and the whitespace of JSON output: the file content is the encoded value.
- LegacyCore.SingleRangeMatch: a prefix with text after its number (`/24abc`) is divided as the number, but the mask loop then compares the float counter with the string, as text, which can differ from the number and can keep the loop running; the model compares with the number. A prefix in exponent notation (`/1e1`) is read by its leading digits here, where PHP's float reading gives 10.
- LegacyCore.LoopByte: `pow(2, $bits)` is a field of `Externals.Externals`, exact for whole `bits` up to 8 (`Externals.ExactPow`); the prefix and the loop counter are exact reals, where PHP rounds them to doubles, so prefixes with more digits than a double holds can read differently.
- LegacyCore.LegacyMaskOfWhole, LegacyCore.SingleRangeAgrees, LegacyCore.AnyRangeAgrees, LegacyCore.RangeMatchAgrees: stated for prefixes that are absent or whole numbers; on a fractional prefix the two codes differ, as `LegacyCore.FractionalPrefixMask` shows.
- `str_repeat` and `str_pad` of a huge prefix (`/99999999999`) exhaust PHP's memory in both codes; the model builds the mask regardless.
- Http.IsIpInRange: a prefix length written in exponent notation (`/1e1`) is read by its leading digits (1), where PHP's integer cast reads the whole number (10).
- LegacyBackend.LogLines and LegacyCore's `is_numeric`: exponent forms such as `1e2` are not recognised as numeric.
- LegacyBackend.ExitOutput: follows PHP before 8.4, where `exit` prints any non-integer argument; the `TypeError` PHP 8.4 raises for an array argument is not modelled.
- MailReceiver.SafeEmailDirOutcome: Python's `lower()` and `\s` are modelled on ASCII; Unicode case mapping and the Unicode and `\x1c`-`\x1f` whitespace are not.
- MailReceiver.ReplaceTemplateVariables: header values are taken as strings, and `str()` of other values is not modelled. The `except` branch is modelled for the one call that can raise on stored data, `json.dumps` of the attachment details: when it fails (`attachmentsJson` is `None`), `FillTemplate` returns the template unchanged.
- ApiController.SecretKey: the secret is cut at 255 characters, where PHP's `substr` cuts at 255 bytes, so a secret with multi-byte UTF-8 characters is stored longer here than PHP stores it. A byte cut inside a character leaves invalid UTF-8, on which `json_encode` fails; the failed save and the 500 replies of `jsonResponse` (src/Controllers/ApiController.php:471-477, src/Controllers/JsonController.php:127-135) are not modelled, because `Externals.jsonEncode` is total.
- LegacyBackend.ConfigJson: the same character-for-byte cut of `secret_key` as `ApiController.SecretKey`, and the same unmodelled `json_encode` failure when the cut splits a character.
- ApiController.PositiveIntOrDefaultReads: a numeric string in exponent notation (`lines=1e3`) is read by its leading digits (1), where PHP's `is_numeric` and `(int)` read the whole number (1000).
- ApiController.CheckConfigAccepts: `max_attempts` and `backoff_multiplier` in exponent notation (`2e1`, `5e-1`) are read by their leading digits (2, 5), where PHP's `(int)` and `(float)` read 20 and 0.5; such values can be accepted here and refused by PHP, or the other way round. `Text.PhpFloatval` reads a decimal as an exact real, where PHP rounds it to a double: `backoff_multiplier=5.00000000000000001` and `0.99999999999999999` round to 5.0 and 1.0 and are accepted by PHP, but are refused here, and the stored multiplier is the exact value rather than the rounded one.
- LegacyBackend.CheckFormAccepts: the same exponent forms, read by `intval` and `floatval`, are read by their leading digits here; and the same exact reading of decimals with more significant digits than a double holds makes values next to the bounds 1 and 5 refused here where PHP, rounding them, accepts them.
- LegacyCore.DelTree: PHP's `is_dir` follows a symbolic link, so the legacy `delTree` empties a directory that a link inside the tree points to, wherever it is; links have no targets here and are unlinked, so the model's "nothing outside the directory disappears" holds only for trees without links to directories. The new `Mailbox::deleteTree` tests `is_link` first and is not affected.
- `getDirForEmail` (src/Services/Mailbox.php:28-41, web/inc/core.php:5-19) keeps the base directory and its `realpath` in static variables from the first call on; the model resolves them again on every call, so a data directory created, moved or replaced by a link after the first call is seen here but not by PHP.
- Externals.ArrayValues: a `JObject` does not record the insertion order of its keys, so the values of an associative array are taken in key order rather than in PHP's insertion order.
- MailReceiver.Dumps: object members are written in key order rather than Python's insertion order, and floats through a `repr` parameter; the signed text and the posted body come from the same value, so neither changes which of them differ.
- MailReceiver.AttachmentIdIsPlain: assumes that the MD5 digest is written in hexadecimal digits, which the model cannot see.
- MailReceiver.DecodeBody: the strict JSON decoder used to state the escaping properties refuses `\u` escapes of surrogates.
- LegacyBackend.JsonShowsWhatNewShows: stated for ids other than `0`, which the legacy branch reads as false (see `LegacyBackend.FalsyIdLists`).

## Findings

| source | as written | input that shows it | evidently intended | confidence | as-written member | corrected member |
|---|---|---|---|---|---|---|
| python/mailserver3.py:247-257 | `json_escape` escapes only backslash, `"`, newline, carriage return and tab | a message body holding a form feed (U+000C): the filled template is not valid JSON, `json.loads` fails at lines 302-311, and no webhook is sent | every control character below U+0020 escaped, as section 7 of RFC 8259 requires, so any text can be placed inside a JSON string | not executed | MailReceiver.JsonEscapeLeavesControlChars | MailReceiver.StrictEscapeRoundTrip |
| python/mailserver3.py:321-333 | the `X-Webhook-Signature` is the HMAC of `json.dumps(payload, ensure_ascii=False)`, but the request is posted with `json=payload`, which the HTTP client serialises with `json.dumps`'s default `ensure_ascii=True` | a webhook whose subject is `é` with a secret set: the signed text holds `é`, the posted body `\u00e9`, so a receiver that checks the HMAC of the body it got rejects a genuine request | the signature computed over the exact bytes that are posted | not executed | MailReceiver.AsWrittenSignsOtherText | MailReceiver.SignedRequestVerifies |

The corrected escape writes the remaining control characters as `\u00XX`. The corrected webhook signs the posted body itself (`MailReceiver.WebhookRequestSigned`); for an all-ASCII payload it sends the same request as the original (`MailReceiver.SignedRequestVerifies`), and `MailReceiver.AsWrittenAccentedSubject` spells out both texts for `é`. `MailReceiver.StrictEscapeAgrees` shows it gives the same output as the original for every text the original already handles.

Two other differences are modelled, but they are not claimed as defects:

- The receiver and the web application name mailbox directories differently. The receiver turns every run of characters outside `[a-z0-9@._-]` into one `_`. The web side replaces only separators and NUL. So mail for `user+tag@example.com` is stored under `user_tag@example.com`, while the web side reads `user+tag@example.com` (`MailReceiver.ReceiverAndWebNamesDiffer`).
- An allow-list range written without `/` admits every address of its length (`Http.BareAddressAdmitsAll`).
