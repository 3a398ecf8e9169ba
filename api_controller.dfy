/** `ApiController`: the HTMX/API actions. Request values are resolved and
    validated before any storage is touched; mailbox actions go through
    `Mailbox`, webhook actions through `Webhook`. The clock (`time()`) and
    the mailbox directory's `filemtime` are inputs. */
module ApiController {
  import opened Wrappers
  import opened Text
  import opened FileSystem
  import opened Externals
  import opened Sandbox
  import opened Mailbox
  import opened Webhook
  import opened View

  /** What an action produces: a string body with its status code, the
      error heading of a message (whose text is `ErrorHtml`), one of the
      rendered pages (whose templates are not modelled), a JSON
      response, a `{success, message}` JSON reply, an attachment's content
      served under its name, or an escaping exception. */
  datatype Response =
    | Body(status: nat, text: string)
    | ErrorPage(message: string)
    | MailTable(email: string, rows: seq<Row>, isAdmin: bool, expiresAt: int)
    | MailPage(email: string, id: string, data: Json)
    | JsonBody(payload: Json)
    | Reply(success: bool, message: string)
    | FileBody(name: string, content: string)
    | Raised(error: Exception)

  /** `AbstractController::error`: the escaped message as a heading. The
      page is kept as its message in `ErrorPage`; this is its text. */
  function ErrorHtml(message: string): (r: string)
    ensures |r| >= 9 && r[..4] == "<h1>" && r[|r| - 5..] == "</h1>"
    ensures Unescape(r[4..|r| - 5]) == message
    ensures forall c :: c in r[4..|r| - 5] ==> c !in "\"'<>"
  {
    UnescapeEscape(message);
    var text := "<h1>" + Escape(message) + "</h1>";
    assert text[4..|text| - 5] == Escape(message);
    text
  }

  // ---------------------------------------------------------------------
  // Resolving and validating request values
  // ---------------------------------------------------------------------

  /** `$_REQUEST[$key] ?? ($vars[$key] ?? null)`, trimmed, with non-strings
      and the empty string read as null. */
  function ResolveParam(req: Request, vars: Request, key: string): (r: Option<string>)
    ensures r.Some? ==> r.value != "" && r.value[0] !in PhpTrimChars && r.value[|r.value| - 1] !in PhpTrimChars
    ensures key in req && req[key].Arr? ==> r == None
    ensures key !in req && key !in vars ==> r == None
    ensures key in req && req[key].Str? ==> r == TrimmedOrNull(req[key].s)
    ensures key !in req && key in vars && vars[key].Str? ==> r == TrimmedOrNull(vars[key].s)
  {
    var raw := if key in req then Some(req[key]) else if key in vars then Some(vars[key]) else None;
    if raw.None? || raw.value.Arr? then None else TrimmedOrNull(raw.value.s)
  }

  /** `trim($s)`, with the empty result read as null. */
  function TrimmedOrNull(s: string): (r: Option<string>)
    ensures r.Some? ==> r.value != "" && r.value[0] !in PhpTrimChars && r.value[|r.value| - 1] !in PhpTrimChars
    ensures r.None? <==> Trim(s, PhpTrimChars) == ""
    ensures r.Some? ==> r.value == Trim(s, PhpTrimChars)
  {
    var t := Trim(s, PhpTrimChars);
    if t == "" then None else Some(t)
  }

  /** `resolveEmail`. */
  function ResolveEmail(req: Request, vars: Request): Option<string> {
    ResolveParam(req, vars, "email")
  }

  /** `resolveId`. */
  function ResolveId(req: Request, vars: Request): Option<string> {
    ResolveParam(req, vars, "id")
  }

  /** PHP `basename` on a path with `/` separators: the part after the
      last separator, trailing separators ignored. */
  function BaseName(s: string): (r: string)
    ensures '/' !in r
    ensures '/' !in s ==> r == s
  {
    var t := TrimRight(s, {'/'});
    var parts := SplitOn(t, '/');
    if '/' !in s then
      assert t == s;
      SplitNoSeparator(s, '/');
      parts[|parts| - 1]
    else parts[|parts| - 1]
  }

  /** `resolveAttachment`: the first of the route's `attachment`, `file`,
      `filename` and the request's `attachment`; null unless a non-empty
      string; otherwise the base name of its URL-decoded form. */
  function ResolveAttachment(x: Externals, req: Request, vars: Request): (r: Option<string>)
    ensures r.Some? ==> '/' !in r.value
  {
    var raw :=
      if "attachment" in vars then Some(vars["attachment"])
      else if "file" in vars then Some(vars["file"])
      else if "filename" in vars then Some(vars["filename"])
      else if "attachment" in req then Some(req["attachment"])
      else None;
    if raw.None? || raw.value.Arr? || raw.value.s == "" then None
    else Some(BaseName(x.urlDecode(raw.value.s)))
  }

  /** `isValidEmail`. */
  predicate IsValidEmail(x: Externals, email: Option<string>) {
    email.Some? && email.value != "" && x.validEmail(email.value)
  }

  /** `isValidMailId`: a non-empty string of ASCII digits. */
  function IsValidMailId(id: Option<string>): (r: bool)
    ensures r <==> id.Some? && |id.value| > 0 && forall i :: 0 <= i < |id.value| ==> '0' <= id.value[i] <= '9'
  {
    id.Some? && id.value != "" && AllDigits(id.value)
  }

  /** A valid id names a file in the mailbox directory: it contains no
      separator and is none of `.`, `..` and the empty name. */
  lemma ValidIdIsPlainName(id: Option<string>)
    requires IsValidMailId(id)
    ensures '/' !in id.value + ".json" && Plain(id.value + ".json")
  {
    var f := id.value + ".json";
    assert f[|f| - 1] == 'n';
    assert forall i :: 0 <= i < |id.value| ==> f[i] == id.value[i] && IsDigit(f[i]);
    assert f[|f| - 5] == '.' && f[|f| - 4] == 'j' && f[|f| - 2] == 'o';
  }

  /** `positiveIntOrDefault` for a route value (a string, or null). */
  function PositiveIntOrDefault(value: Option<string>, default: int): (r: int)
    ensures r == default || r > 0
  {
    if value.Some? && AllDigits(value.value) && PhpIntval(value.value) > 0 then PhpIntval(value.value)
    else if value.Some? && PhpIsNumeric(value.value) && PhpIntval(value.value) > 0 then PhpIntval(value.value)
    else default
  }

  /** A positive decimal number is taken as it is, capped at PHP's largest
      integer; anything without a positive integer part gives the default. */
  lemma PositiveIntOrDefaultReads(value: Option<string>, default: int)
    ensures value.Some? && AllDigits(value.value) && DigitsValue(value.value) > 0 ==>
              PositiveIntOrDefault(value, default) == Saturate(DigitsValue(value.value))
    ensures value.None? ==> PositiveIntOrDefault(value, default) == default
    ensures value.Some? && PhpIntval(value.value) <= 0 ==> PositiveIntOrDefault(value, default) == default
  {
    if value.Some? && AllDigits(value.value) {
      var s := value.value;
      assert s[0] !in PhpNumericSpace;
      assert TrimLeft(s, PhpNumericSpace) == s;
      assert DigitPrefix(s) == s;
    }
  }

  /** The number of log lines shown: `lines` when a positive integer, 100
      otherwise. */
  const DefaultLogLines: int := 100

  function LogLines(vars: Request): (r: int)
    ensures r > 0
  {
    var v := if "lines" in vars && vars["lines"].Str? then Some(vars["lines"].s) else None;
    PositiveIntOrDefault(v, DefaultLogLines)
  }

  /** `canSeeAccountList` (flag `SHOW_ACCOUNT_LIST`) and `canSeeLogs` (flag
      `SHOW_LOGS`): off when the flag is empty, on for everybody when no
      admin password is set, otherwise only for an active session carrying
      the admin flag. */
  function CanSee(settings: Settings, flag: string, sessionActive: bool, sessionAdmin: bool): (r: bool)
    ensures r <==> PhpTruthy(Setting(settings, flag))
                   && (Setting(settings, "ADMIN_PASSWORD") == "" || (sessionActive && sessionAdmin))
  {
    if !PhpTruthy(Setting(settings, flag)) then false
    else if Setting(settings, "ADMIN_PASSWORD") == "" then true
    else sessionActive && sessionAdmin
  }

  function CanSeeAccountList(settings: Settings, sessionActive: bool, sessionAdmin: bool): bool {
    CanSee(settings, "SHOW_ACCOUNT_LIST", sessionActive, sessionAdmin)
  }

  function CanSeeLogs(settings: Settings, sessionActive: bool, sessionAdmin: bool): bool {
    CanSee(settings, "SHOW_LOGS", sessionActive, sessionAdmin)
  }

  // ---------------------------------------------------------------------
  // Reading and deleting mail
  // ---------------------------------------------------------------------

  datatype GuardError = InvalidEmail | InvalidId | NotFound

  function GuardMessage(e: GuardError): string {
    match e
    case InvalidEmail => "Invalid email address"
    case InvalidId => "Invalid id"
    case NotFound => "Email not found"
  }

  /** The three checks `deleteMail`, `readMail` and `getRawMail` make, in
      order: the address, the id, then that the message file exists. */
  function MailGuard(x: Externals, nodes: Nodes, root: Path, email: Option<string>, id: Option<string>): (r: Result<(string, string), GuardError>)
    ensures r.Ok? <==> IsValidEmail(x, email) && IsValidMailId(id) && EmailIdExists(nodes, root, email.value, id.value)
    ensures r.Ok? ==> r.value == (email.value, id.value)
  {
    if !IsValidEmail(x, email) then Err(InvalidEmail)
    else if !IsValidMailId(id) then Err(InvalidId)
    else if !EmailIdExists(nodes, root, email.value, id.value) then Err(NotFound)
    else Ok((email.value, id.value))
  }

  /** The address is checked first and the id second, and neither check
      looks at storage: for a bad address or id the verdict is the same
      whatever the filesystem holds. */
  lemma MailGuardOrder(x: Externals, nodes: Nodes, other: Nodes, root: Path, email: Option<string>, id: Option<string>)
    ensures !IsValidEmail(x, email) ==> MailGuard(x, nodes, root, email, id) == Err(InvalidEmail)
    ensures IsValidEmail(x, email) && !IsValidMailId(id) ==> MailGuard(x, nodes, root, email, id) == Err(InvalidId)
    ensures !(IsValidEmail(x, email) && IsValidMailId(id)) ==>
              MailGuard(x, nodes, root, email, id) == MailGuard(x, other, root, email, id)
  {
  }

  /** `$a[$k] = $v` on a PHP array: a list turns into an associative array
      keyed by the decimal positions. */
  function SetKey(j: Json, k: string, v: Json): (r: Json)
    requires IsArray(j)
    ensures r.JObject? && k in r.fields && r.fields[k] == v
    ensures j.JObject? ==> forall k' :: k' in j.fields && k' != k ==> k' in r.fields && r.fields[k'] == j.fields[k']
  {
    if j.JObject? then JObject(j.fields[k := v])
    else
      forall a: nat, b: nat | IntToString(a) == IntToString(b) ensures a == b {
        IntToStringInjective(a, b);
      }
      var m := map i: nat | i < |j.items| :: IntToString(i) := j.items[i];
      JObject(m[k := v])
  }

  /** What `readMail` hands to the template: `parsed` replaced by an empty
      array unless it is one, and `parsed.attachments` set to
      `parsed.attachments`, else the top-level `attachments`, when that is
      an array, else to an empty array. */
  function WithAttachmentList(data: Json): (r: Json)
    requires IsArray(data)
    ensures HasKey(r, "parsed") && IsArray(r.fields["parsed"])
    ensures HasKey(r.fields["parsed"], "attachments") && IsArray(r.fields["parsed"].fields["attachments"])
  {
    var p := Get(data, "parsed");
    var parsed := if p.Some? && IsArray(p.value) then p.value else JList([]);
    var fromParsed := Get(parsed, "attachments");
    var atts := if fromParsed.Some? then fromParsed.value else GetOr(data, "attachments", JList([]));
    SetKey(data, "parsed", SetKey(parsed, "attachments", if IsArray(atts) then atts else JList([])))
  }

  /** The template keeps every other entry of the message. */
  lemma WithAttachmentListKeepsOthers(data: Json, k: string)
    requires data.JObject? && k in data.fields && k != "parsed"
    ensures k in WithAttachmentList(data).fields && WithAttachmentList(data).fields[k] == data.fields[k]
  {
  }

  /** The attachments of a well-formed message are passed on unchanged. */
  lemma WithAttachmentListKeepsAttachments(data: Json, atts: Json)
    requires data.JObject? && Get(data, "parsed").Some? && IsArray(Get(data, "parsed").value)
    requires Get(Get(data, "parsed").value, "attachments") == Some(atts) && IsArray(atts)
    ensures WithAttachmentList(data).fields["parsed"].fields["attachments"] == atts
  {
  }

  /** `readMail`. */
  function ReadMail(x: Externals, nodes: Nodes, root: Path, email: Option<string>, id: Option<string>): (r: Response)
    ensures r.MailPage? ==> MailGuard(x, nodes, root, email, id).Ok? && r.email == email.value && r.id == id.value
  {
    match MailGuard(x, nodes, root, email, id)
    case Err(e) => ErrorPage(GuardMessage(e))
    case Ok((e, i)) =>
      var data := LoadEmailJson(x, nodes, root, e, i);
      if data.None? then ErrorPage("Email not found")
      else MailPage(e, i, WithAttachmentList(data.value))
  }

  /** A message stored as an encoded array is shown with its own entries. */
  lemma ReadMailShowsStoredMessage(x: Externals, nodes: Nodes, root: Path, email: string, id: string, v: Json)
    requires Lawful(x) && Encodable(v) && IsArray(v)
    requires IsValidEmail(x, Some(email)) && IsValidMailId(Some(id))
    requires IsFile(nodes, MessagePath(nodes, root, email, id))
    requires ReadFile(nodes, MessagePath(nodes, root, email, id)) == Some(x.jsonEncode(v))
    ensures ReadMail(x, nodes, root, Some(email), Some(id)) == MailPage(email, id, WithAttachmentList(v))
  {
    LoadStoredMessage(x, nodes, root, email, id, v);
  }

  /** `getRawMail`: the `htmlbody` of the parsed message as a string, or
      the raw source (`''` when it has none). */
  function GetRawMail(x: Externals, nodes: Nodes, root: Path, email: Option<string>, id: Option<string>, html: bool): (r: Response)
    ensures MailGuard(x, nodes, root, email, id).Err? ==> r == ErrorPage(GuardMessage(MailGuard(x, nodes, root, email, id).error))
    ensures MailGuard(x, nodes, root, email, id).Ok? && !html ==>
              r == Body(200, GetRawEmail(x, nodes, root, email.value, id.value).GetOr(""))
  {
    match MailGuard(x, nodes, root, email, id)
    case Err(e) => ErrorPage(GuardMessage(e))
    case Ok((e, i)) =>
      if html then
        var data := LoadEmailJson(x, nodes, root, e, i);
        if data.None? then ErrorPage("Email not found")
        else
          var p := Get(data.value, "parsed");
          var parsed := if p.Some? && IsArray(p.value) then p.value else JList([]);
          Body(200, Stringify(x, GetOr(parsed, "htmlbody", JStr(""))))
      else Body(200, GetRawEmail(x, nodes, root, e, i).GetOr(""))
  }

  /** The raw view of a stored message with a string `raw` is that string. */
  lemma RawMailIsStoredSource(x: Externals, nodes: Nodes, root: Path, email: string, id: string, raw: string)
    requires MailGuard(x, nodes, root, Some(email), Some(id)).Ok?
    requires LoadEmailJson(x, nodes, root, email, id).Some?
    requires HasKey(LoadEmailJson(x, nodes, root, email, id).value, "raw")
    requires LoadEmailJson(x, nodes, root, email, id).value.fields["raw"] == JStr(raw)
    ensures GetRawMail(x, nodes, root, Some(email), Some(id), false) == Body(200, raw)
  {
    GetRawEmailOfString(x, nodes, root, email, id, raw);
  }

  /** `getAttachment`: the content of `attachments/<name>` in the mailbox;
      a failed read is a 500. */
  function GetAttachment(x: Externals, nodes: Nodes, root: Path, email: Option<string>, attachment: Option<string>): (r: Response)
    ensures r.FileBody? <==>
              && IsValidEmail(x, email) && attachment.Some? && attachment.value != ""
              && AttachmentExists(nodes, root, email.value, attachment.value)
              && ReadFile(nodes, AttachmentPath(DirFor(nodes, root, email.value), attachment.value)).Some?
    ensures r.FileBody? ==>
              && r.name == attachment.value
              && ReadFile(nodes, AttachmentPath(DirFor(nodes, root, email.value), attachment.value)) == Some(r.content)
  {
    if !IsValidEmail(x, email) then ErrorPage("Invalid email address")
    else if attachment.None? || attachment.value == "" then ErrorPage("Attachment not found")
    else
      var file := AttachmentPath(DirFor(nodes, root, email.value), attachment.value);
      if !AttachmentExists(nodes, root, email.value, attachment.value) || !IsFile(nodes, file) then ErrorPage("Attachment not found")
      else
        var content := ReadFile(nodes, file);
        if content.None? then Body(500, "Failed to read attachment")
        else FileBody(attachment.value, content.value)
  }

  /** A resolved attachment name with no `.`/`..` meaning is served from
      the mailbox's own `attachments` directory. */
  lemma AttachmentServedFromMailbox(x: Externals, nodes: Nodes, root: Path, email: string, req: Request, vars: Request)
    requires ResolveAttachment(x, req, vars).Some? && Plain(ResolveAttachment(x, req, vars).value)
    ensures var name := ResolveAttachment(x, req, vars).value;
            Normalize(AttachmentPath(DirFor(nodes, root, email), name))
              == Normalize(DirFor(nodes, root, email)) + ["attachments", name]
  {
    AttachmentStaysInMailbox(DirFor(nodes, root, email), ResolveAttachment(x, req, vars).value);
  }

  /** The expiry the mailbox table shows: 15 minutes after the mailbox
      directory's modification time, or after now when it has none. */
  const ExpirySeconds: int := 15 * 60

  /** The alert `listAccount` shows for an address that does not validate. */
  function InvalidAddressAlert(e: string): Response {
    Body(200, "<div class=\"uk-alert uk-alert-danger\"><p>Invalid email address: " + Escape(e) + "</p></div>")
  }

  /** The mailbox table of `e` once its directory has been ensured: the
      listed messages (without bodies or attachments), the admin flag and
      the expiry time. */
  function MailboxTable(settings: Settings, nodes: Nodes, root: Path, e: string,
                        made: Option<Path>, listing: Result<seq<Row>, Exception>, now: int, mtime: Option<int>): Response
  {
    var dir := if made.Some? then made.value else DirFor(nodes, root, e);
    match listing
    case Err(ex) => Raised(ex)
    case Ok(rows) =>
      var createdAt := if IsDir(nodes, dir) && mtime.Some? then mtime.value else now;
      MailTable(e, rows, IsAdminInbox(settings, e), createdAt + ExpirySeconds)
  }

  /** `listAccount`: the trimmed address must validate; its mailbox
      directory is created when missing and its messages listed. */
  function ListAccountSpec(x: Externals, settings: Settings, nodes: Nodes, locked: set<Path>, root: Path,
                           email: Option<string>, now: int, mtime: Option<int>): (Nodes, Response)
  {
    var e := Trim(email.GetOr(""), PhpTrimChars);
    if !IsValidEmail(x, Some(e)) then (nodes, InvalidAddressAlert(e))
    else
      var (after, made) := EnsureMailboxDirSpec(nodes, locked, root, e);
      (after, MailboxTable(settings, after, root, e, made, GetEmailsOfEmailSpec(x, settings, after, root, e, false, false), now, mtime))
  }

  /** For an address that validates, `listAccount` is the table after the
      directory has been ensured. */
  lemma ListAccountOfValid(x: Externals, settings: Settings, nodes: Nodes, locked: set<Path>, root: Path,
                           email: Option<string>, now: int, mtime: Option<int>)
    requires IsValidEmail(x, Some(Trim(email.GetOr(""), PhpTrimChars)))
    ensures var e := Trim(email.GetOr(""), PhpTrimChars);
            var r := EnsureMailboxDirSpec(nodes, locked, root, e);
            ListAccountSpec(x, settings, nodes, locked, root, email, now, mtime)
              == (r.0, MailboxTable(settings, r.0, root, e, r.1, GetEmailsOfEmailSpec(x, settings, r.0, root, e, false, false), now, mtime))
  {
  }

  /** `listAccount`. */
  method ListAccount(fs: Fs, x: Externals, settings: Settings, root: Path, email: Option<string>, now: int, mtime: Option<int>)
    returns (resp: Response)
    requires fs.Valid()
    modifies fs
    ensures fs.Valid()
    ensures (fs.nodes, resp) == ListAccountSpec(x, settings, old(fs.nodes), fs.locked, root, email, now, mtime)
  {
    var e := Trim(email.GetOr(""), PhpTrimChars);
    if !IsValidEmail(x, Some(e)) {
      return InvalidAddressAlert(e);
    }
    var made := EnsureMailboxDir(fs, root, e);
    var rows := GetEmailsOfEmail(x, settings, fs.nodes, root, e, false, false);
    resp := MailboxTable(settings, fs.nodes, root, e, made, rows, now, mtime);
    ListAccountOfValid(x, settings, old(fs.nodes), fs.locked, root, email, now, mtime);
  }

  /** A mailbox whose directory exists shows its listing, with the expiry
      counted from the directory's modification time when there is one. */
  lemma MailboxTableOfDir(settings: Settings, nodes: Nodes, root: Path, email: string, dir: Path,
                          rows: seq<Row>, now: int, mtime: Option<int>)
    requires IsDir(nodes, dir)
    ensures MailboxTable(settings, nodes, root, email, Some(dir), Ok(rows), now, mtime)
            == MailTable(email, rows, IsAdminInbox(settings, email), (if mtime.Some? then mtime.value else now) + 900)
  {
  }

  /** The table of a valid address lists its own messages, flags the admin
      inbox, and expires 15 minutes after the mailbox was made (or now). */
  lemma ListAccountShowsMailbox(x: Externals, settings: Settings, nodes: Nodes, locked: set<Path>, root: Path,
                                email: string, now: int, mtime: Option<int>, rows: seq<Row>)
    requires IsValidEmail(x, Some(email)) && Trim(email, PhpTrimChars) == email
    requires IsDir(nodes, DirFor(nodes, root, email))
    requires GetEmailsOfEmailSpec(x, settings, nodes, root, email, false, false) == Ok(rows)
    ensures ListAccountSpec(x, settings, nodes, locked, root, Some(email), now, mtime)
            == (nodes, MailTable(email, rows, IsAdminInbox(settings, email), (if mtime.Some? then mtime.value else now) + 900))
  {
    var dir := DirFor(nodes, root, email);
    assert Trim(Some(email).GetOr(""), PhpTrimChars) == email;
    EnsureExistingMailboxDir(nodes, locked, root, email);
    ListAccountOfValid(x, settings, nodes, locked, root, Some(email), now, mtime);
    MailboxTableOfDir(settings, nodes, root, email, dir, rows, now, mtime);
  }

  /** `deleteMail`: after the three checks, the message is deleted and the
      mailbox table shown again. */
  function DeleteMailSpec(x: Externals, settings: Settings, nodes: Nodes, locked: set<Path>, root: Path,
                          email: Option<string>, id: Option<string>, now: int, mtime: Option<int>): (Nodes, Response)
  {
    match MailGuard(x, nodes, root, email, id)
    case Err(e) => (nodes, ErrorPage(GuardMessage(e)))
    case Ok((e, i)) =>
      var (after, _) := DeleteEmailSpec(x, nodes, locked, root, e, i);
      ListAccountSpec(x, settings, after, locked, root, Some(e), now, mtime)
  }

  /** `deleteMail`. */
  method DeleteMail(fs: Fs, x: Externals, settings: Settings, root: Path, email: Option<string>, id: Option<string>,
                    now: int, mtime: Option<int>) returns (resp: Response)
    requires fs.Valid()
    modifies fs
    ensures fs.Valid()
    ensures (fs.nodes, resp) == DeleteMailSpec(x, settings, old(fs.nodes), fs.locked, root, email, id, now, mtime)
  {
    var guard := MailGuard(x, fs.nodes, root, email, id);
    if guard.Err? {
      return ErrorPage(GuardMessage(guard.error));
    }
    var _ := DeleteEmail(fs, x, root, email.value, id.value);
    resp := ListAccount(fs, x, settings, root, email, now, mtime);
  }

  /** A request that fails a check leaves storage as it was. */
  lemma DeleteMailGuarded(x: Externals, settings: Settings, nodes: Nodes, locked: set<Path>, root: Path,
                          email: Option<string>, id: Option<string>, now: int, mtime: Option<int>)
    requires !(IsValidEmail(x, email) && IsValidMailId(id) && EmailIdExists(nodes, root, email.value, id.value))
    ensures DeleteMailSpec(x, settings, nodes, locked, root, email, id, now, mtime).0 == nodes
    ensures DeleteMailSpec(x, settings, nodes, locked, root, email, id, now, mtime).1
            == ErrorPage(GuardMessage(MailGuard(x, nodes, root, email, id).error))
  {
  }

  /** `deleteAccount`: for a valid address whose mailbox is a directory,
      the tree is deleted with `deleteTree`; the answer is always `''`.
      Only the mailbox's tree can disappear, and it is gone afterwards
      exactly when nothing in it was locked or unlistable. */
  method DeleteAccount(fs: Fs, x: Externals, root: Path, email: Option<string>) returns (resp: Response)
    requires fs.Valid()
    modifies fs
    ensures fs.Valid()
    ensures !IsValidEmail(x, email) ==> resp == ErrorPage("Invalid email address") && fs.nodes == old(fs.nodes)
    ensures IsValidEmail(x, email) ==> resp == Body(200, "")
    ensures OnlyRemoved(old(fs.nodes), fs.nodes)
    ensures IsValidEmail(x, email) ==>
              var d := DirFor(old(fs.nodes), root, email.value);
              var q := Normalize(d);
              && KeptOutside(old(fs.nodes), fs.nodes, q)
              && RemovedRemovable(old(fs.nodes), fs.nodes, fs.locked)
              && (!IsDir(old(fs.nodes), d) ==> fs.nodes == old(fs.nodes))
              && (IsDir(old(fs.nodes), d) ==>
                    (Gone(fs.nodes, q) <==> q != [] && Removable(old(fs.nodes), fs.locked, q)))
  {
    if !IsValidEmail(x, email) {
      return ErrorPage("Invalid email address");
    }
    var path := DirFor(fs.nodes, root, email.value);
    if IsDir(fs.nodes, path) {
      var _ := DeleteTree(fs, path);
    }
    return Body(200, "");
  }

  /** With lawful validation, the tree `deleteAccount` may remove is one
      direct child of the data directory. */
  lemma DeleteAccountStaysInDataDir(x: Externals, nodes: Nodes, root: Path, email: string)
    requires Lawful(x) && IsValidEmail(x, Some(email))
    ensures Normalize(DirFor(nodes, root, email)) == Normalize(DataDir(root)) + [Sanitize(email)]
  {
    ValidEmailStaysInBase(x, nodes, DataDir(root), email);
  }

  // ---------------------------------------------------------------------
  // Webhook configuration
  // ---------------------------------------------------------------------

  const BlockedHosts: seq<string> := ["localhost", "127.0.0.1", "0.0.0.0", "[::1]", "host.docker.internal"]

  const DefaultPayloadTemplate: string :=
    "{\"email\":\"{{to}}\",\"from\":\"{{from}}\",\"subject\":\"{{subject}}\",\"body\":\"{{body}}\"}"

  const InvalidUrlMessage: string := "Invalid webhook URL"
  const InternalHostMessage: string := "Webhook URL cannot point to internal services"
  const PrivateIpMessage: string := "Webhook URL cannot point to private IP addresses"
  const InvalidTemplateMessage: string := "Invalid JSON in payload template"
  const AttemptsMessage: string := "Max attempts must be between 1 and 10"
  const BackoffMessage: string := "Backoff multiplier must be between 1 and 5"

  /** The lower-cased scheme and host `parse_url` finds, `''` for a part it
      does not find. */
  function UrlScheme(x: Externals, url: string): string {
    Lower(x.parseUrl(url).scheme.GetOr(""))
  }

  function UrlHost(x: Externals, url: string): string {
    Lower(x.parseUrl(url).host.GetOr(""))
  }

  /** The URL checks in order; None when they all pass. An empty URL is not
      checked. */
  function UrlFailure(x: Externals, url: string): (r: Option<string>)
    ensures url == "" ==> r.None?
    ensures url != "" && !x.validUrl(url) ==> r == Some(InvalidUrlMessage)
    ensures r.Some? ==> r.value in {InvalidUrlMessage, InternalHostMessage, PrivateIpMessage}
  {
    if url == "" then None
    else if !x.validUrl(url) then Some(InvalidUrlMessage)
    else
      var scheme := UrlScheme(x, url);
      var host := UrlHost(x, url);
      if (scheme != "http" && scheme != "https") || host == "" then Some(InvalidUrlMessage)
      else if host in BlockedHosts then Some(InternalHostMessage)
      else if x.validIp(host) && !x.publicIp(host) then Some(PrivateIpMessage)
      else None
  }

  /** A URL the checks let through. */
  predicate AcceptableUrl(x: Externals, url: string) {
    url == "" ||
    (&& x.validUrl(url)
     && UrlScheme(x, url) in {"http", "https"}
     && UrlHost(x, url) != ""
     && UrlHost(x, url) !in BlockedHosts
     && (x.validIp(UrlHost(x, url)) ==> x.publicIp(UrlHost(x, url))))
  }

  /** The substitutions the template check applies, in order: the six
      text placeholders become `test` and `{{attachments}}` becomes `[]`. */
  const TestSubstitutions: seq<(string, string)> := [
    ("{{to}}", "test"), ("{{from}}", "test"), ("{{subject}}", "test"), ("{{body}}", "test"),
    ("{{htmlbody}}", "test"), ("{{sender_ip}}", "test"), ("{{attachments}}", "[]")]

  /** Each substitution applied to the result of the ones before it. */
  function ReplaceEach(s: string, subs: seq<(string, string)>): string
    requires forall i :: 0 <= i < |subs| ==> subs[i].0 != ""
    decreases |subs|
  {
    if subs == [] then s else ReplaceEach(ReplaceAll(s, subs[0].0, subs[0].1), subs[1..])
  }

  /** The template with the placeholders replaced by test values. */
  function TestPayload(template: string): string {
    ReplaceEach(template, TestSubstitutions)
  }

  /** The template check: the substituted template must decode. */
  predicate TemplateParses(x: Externals, template: string) {
    x.jsonDecode(TestPayload(template)).Some?
  }

  /** The values `saveWebhook` reads from the request. */
  function WebhookUrl(data: Request): string {
    Trim(if "webhook_url" in data then ParamString(data["webhook_url"]) else "", PhpTrimChars)
  }

  function PayloadTemplate(data: Request): string {
    if "payload_template" in data then ParamString(data["payload_template"]) else DefaultPayloadTemplate
  }

  function MaxAttempts(data: Request): int {
    if "max_attempts" in data then ParamInt(data["max_attempts"]) else 3
  }

  function BackoffMultiplier(data: Request): real {
    if "backoff_multiplier" in data then ParamFloat(data["backoff_multiplier"]) else 2.0
  }

  /** `filter_var(.., FILTER_VALIDATE_BOOLEAN, FILTER_NULL_ON_FAILURE) ?? false`:
      true only for `1`, `true`, `on` and `yes`, in any case, around
      spaces, tabs and line breaks (a NUL is not stripped). */
  function Enabled(data: Request): bool {
    "enabled" in data && data["enabled"].Str?
    && Lower(Trim(data["enabled"].s, FilterTrimChars)) in {"1", "true", "on", "yes"}
  }

  /** `substr($s, 0, 255)` of the posted secret: its first 255 characters,
      all of it when shorter, and empty when none is posted. */
  function SecretKey(data: Request): (r: string)
    ensures |r| <= 255
    ensures "secret_key" in data ==>
              var s := ParamString(data["secret_key"]);
              r <= s && |r| == (if |s| <= 255 then |s| else 255)
    ensures "secret_key" !in data ==> r == ""
  {
    if "secret_key" in data then
      var s := ParamString(data["secret_key"]);
      if |s| <= 255 then s else s[..255]
    else ""
  }

  /** The values `saveWebhook` stores for an address. */
  datatype HookConfig = HookConfig(enabled: bool, url: string, template: string,
                                   maxAttempts: int, backoff: real, secret: string)

  /** The values read from the request, before they are checked. */
  function FormConfig(data: Request): HookConfig {
    HookConfig(Enabled(data), WebhookUrl(data), PayloadTemplate(data),
               MaxAttempts(data), BackoffMultiplier(data), SecretKey(data))
  }

  /** The `retry_config` object. */
  function RetryJson(c: HookConfig): Json {
    JObject(map["max_attempts" := JInt(c.maxAttempts), "backoff_multiplier" := JFloat(c.backoff)])
  }

  /** The array written to `webhook.json`. */
  function ConfigJson(c: HookConfig): (r: Json)
    ensures r.JObject? && r.fields.Keys == {"enabled", "webhook_url", "payload_template", "retry_config", "secret_key"}
    ensures r.fields["retry_config"].JObject?
            && r.fields["retry_config"].fields.Keys == {"max_attempts", "backoff_multiplier"}
  {
    JObject(map[
      "enabled" := JBool(c.enabled),
      "webhook_url" := JStr(c.url),
      "payload_template" := JStr(c.template),
      "retry_config" := RetryJson(c),
      "secret_key" := JStr(c.secret)])
  }

  /** The configuration a reader of `webhook.json` finds in an array: each
      of the five keys with a value of the type written. */
  function ConfigOf(j: Json): Option<HookConfig> {
    if !j.JObject? then None
    else
      var f := j.fields;
      if && "enabled" in f && f["enabled"].JBool?
         && "webhook_url" in f && f["webhook_url"].JStr?
         && "payload_template" in f && f["payload_template"].JStr?
         && "retry_config" in f && f["retry_config"].JObject?
         && "max_attempts" in f["retry_config"].fields && f["retry_config"].fields["max_attempts"].JInt?
         && "backoff_multiplier" in f["retry_config"].fields && f["retry_config"].fields["backoff_multiplier"].JFloat?
         && "secret_key" in f && f["secret_key"].JStr?
      then Some(HookConfig(f["enabled"].b, f["webhook_url"].s, f["payload_template"].s,
                           f["retry_config"].fields["max_attempts"].i,
                           f["retry_config"].fields["backoff_multiplier"].f, f["secret_key"].s))
      else None
  }

  /** Every stored value can be read back from the array. */
  lemma ConfigJsonRoundTrip(c: HookConfig)
    ensures ConfigOf(ConfigJson(c)) == Some(c)
  {
    assert ConfigJson(c).fields["retry_config"] == RetryJson(c);
  }

  /** The stored array survives JSON encoding and is not empty. */
  lemma ConfigJsonEncodable(c: HookConfig)
    ensures Encodable(ConfigJson(c)) && IsArray(ConfigJson(c))
    ensures !Empty(ConfigJson(c))
  {
    var retry := RetryJson(c).fields;
    assert "max_attempts" in retry;
    forall k | k in retry ensures Encodable(retry[k]) {
    }
    var m := ConfigJson(c).fields;
    assert "enabled" in m;
    forall k | k in m ensures Encodable(m[k]) {
    }
  }

  /** The validation chain of `saveWebhook` after the address check, on
      the values read from the request: URL, then template, then attempts,
      then backoff; the first failure's message, or the configuration to
      store. Reading the values has no effect, so reading them all first
      changes nothing. */
  function CheckConfig(x: Externals, c: HookConfig): (r: Result<HookConfig, string>)
    ensures r.Ok? ==> && r.value == c && UrlFailure(x, c.url).None? && TemplateParses(x, c.template)
                      && 1 <= c.maxAttempts <= 10 && 1.0 <= c.backoff <= 5.0
    ensures r.Err? ==> r.error in {InvalidUrlMessage, InternalHostMessage, PrivateIpMessage,
                                   InvalidTemplateMessage, AttemptsMessage, BackoffMessage}
  {
    var urlFailure := UrlFailure(x, c.url);
    if urlFailure.Some? then Err(urlFailure.value)
    else if !TemplateParses(x, c.template) then Err(InvalidTemplateMessage)
    else if c.maxAttempts < 1 || c.maxAttempts > 10 then Err(AttemptsMessage)
    else if c.backoff < 1.0 || c.backoff > 5.0 then Err(BackoffMessage)
    else Ok(c)
  }

  /** The URL checks fail exactly for URLs that are not acceptable. */
  lemma UrlFailureIffUnacceptable(x: Externals, url: string)
    ensures UrlFailure(x, url).None? <==> AcceptableUrl(x, url)
  {
  }

  /** The chain accepts exactly the values that are all in range, and then
      stores them unchanged. */
  lemma CheckConfigAccepts(x: Externals, c: HookConfig)
    ensures CheckConfig(x, c).Ok? <==>
              && AcceptableUrl(x, c.url)
              && TemplateParses(x, c.template)
              && 1 <= c.maxAttempts <= 10
              && 1.0 <= c.backoff <= 5.0
    ensures CheckConfig(x, c).Ok? ==> CheckConfig(x, c).value == c
  {
    UrlFailureIffUnacceptable(x, c.url);
  }

  /** The first failing check decides the message: a bad URL is reported
      whatever the other values are, a bad template only with a good URL,
      and so on. */
  lemma CheckConfigFirstFailure(x: Externals, c: HookConfig)
    ensures !AcceptableUrl(x, c.url) ==>
              CheckConfig(x, c).Err?
              && CheckConfig(x, c).error in {InvalidUrlMessage, InternalHostMessage, PrivateIpMessage}
    ensures AcceptableUrl(x, c.url) && !TemplateParses(x, c.template) ==>
              CheckConfig(x, c) == Err(InvalidTemplateMessage)
    ensures (AcceptableUrl(x, c.url) && TemplateParses(x, c.template) && !(1 <= c.maxAttempts <= 10)) ==>
              CheckConfig(x, c) == Err(AttemptsMessage)
    ensures (AcceptableUrl(x, c.url) && TemplateParses(x, c.template) && 1 <= c.maxAttempts <= 10
             && !(1.0 <= c.backoff <= 5.0)) ==> CheckConfig(x, c) == Err(BackoffMessage)
  {
    UrlFailureIffUnacceptable(x, c.url);
  }

  /** A blocked host, or a private or reserved literal IP, never passes. */
  lemma InternalTargetsRejected(x: Externals, c: HookConfig)
    requires c.url != ""
    requires UrlHost(x, c.url) in BlockedHosts
             || (x.validIp(UrlHost(x, c.url)) && !x.publicIp(UrlHost(x, c.url)))
    ensures CheckConfig(x, c).Err?
  {
    UrlFailureIffUnacceptable(x, c.url);
  }

  /** `saveWebhook`, on the values read from the request (`FormConfig`). */
  function SaveWebhookSpec(x: Externals, nodes: Nodes, locked: set<Path>, root: Path, email: string, form: HookConfig): (Nodes, Response) {
    if !IsValidEmail(x, Some(email)) then (nodes, ErrorPage("Invalid email address"))
    else
      var checked := CheckConfig(x, form);
      if checked.Err? then (nodes, Reply(false, checked.error))
      else StoreWebhook(x, nodes, locked, root, email, checked.value)
  }

  /** The save at the end of `saveWebhook` and its reply. */
  function StoreWebhook(x: Externals, nodes: Nodes, locked: set<Path>, root: Path, email: string, config: HookConfig): (Nodes, Response) {
    var saved := SaveConfigSpec(x, nodes, locked, root, email, ConfigJson(config));
    (saved.0, if saved.1 then Reply(true, "Webhook configuration saved")
              else Reply(false, "Failed to save webhook configuration"))
  }

  /** `saveWebhook`. */
  method SaveWebhook(fs: Fs, x: Externals, root: Path, email: string, form: HookConfig) returns (resp: Response)
    requires fs.Valid()
    modifies fs
    ensures fs.Valid()
    ensures (fs.nodes, resp) == SaveWebhookSpec(x, old(fs.nodes), fs.locked, root, email, form)
  {
    if !IsValidEmail(x, Some(email)) {
      return ErrorPage("Invalid email address");
    }
    var checked := CheckConfig(x, form);
    if checked.Err? {
      return Reply(false, checked.error);
    }
    ConfigJsonEncodable(checked.value);
    var ok := SaveConfig(fs, x, root, email, ConfigJson(checked.value));
    resp := if ok then Reply(true, "Webhook configuration saved") else Reply(false, "Failed to save webhook configuration");
  }

  /** `getWebhook`: the stored configuration, or `{'enabled': false}` when
      there is none (or it is an empty array). */
  function GetWebhook(x: Externals, nodes: Nodes, root: Path, email: string): (r: Response)
    ensures !IsValidEmail(x, Some(email)) ==> r == ErrorPage("Invalid email address")
    ensures IsValidEmail(x, Some(email)) ==> r.JsonBody? && IsArray(r.payload) && !Empty(r.payload)
    ensures var config := GetConfig(x, nodes, root, email);
            IsValidEmail(x, Some(email)) && config.Some? && !Empty(config.value) ==> r == JsonBody(config.value)
  {
    if !IsValidEmail(x, Some(email)) then ErrorPage("Invalid email address")
    else
      var config := GetConfig(x, nodes, root, email);
      if config.Some? && !Empty(config.value) then JsonBody(config.value)
      else
        var disabled := map["enabled" := JBool(false)];
        assert "enabled" in disabled;
        JsonBody(JObject(disabled))
  }

  /** For a valid address and accepted values, `saveWebhook` stores the
      values read from the request. */
  lemma SaveWebhookOfAccepted(x: Externals, nodes: Nodes, locked: set<Path>, root: Path, email: string, form: HookConfig)
    requires IsValidEmail(x, Some(email)) && CheckConfig(x, form).Ok?
    ensures SaveWebhookSpec(x, nodes, locked, root, email, form) == StoreWebhook(x, nodes, locked, root, email, form)
  {
    CheckConfigAccepts(x, form);
  }

  /** A request that fails a check stores nothing and is answered with
      the first failure. */
  lemma SaveWebhookRejected(x: Externals, nodes: Nodes, locked: set<Path>, root: Path, email: string, form: HookConfig)
    requires !IsValidEmail(x, Some(email)) || CheckConfig(x, form).Err?
    ensures SaveWebhookSpec(x, nodes, locked, root, email, form).0 == nodes
    ensures !(SaveWebhookSpec(x, nodes, locked, root, email, form).1.Reply?
              && SaveWebhookSpec(x, nodes, locked, root, email, form).1.success)
  {
  }

  /** After a successful save, reading the webhook gives the configuration
      just built. */
  lemma SaveWebhookThenGet(x: Externals, nodes: Nodes, locked: set<Path>, root: Path, email: string, form: HookConfig)
    requires Lawful(x)
    requires SaveWebhookSpec(x, nodes, locked, root, email, form).1 == Reply(true, "Webhook configuration saved")
    ensures GetWebhook(x, SaveWebhookSpec(x, nodes, locked, root, email, form).0, root, email)
            == JsonBody(ConfigJson(form))
  {
    if IsValidEmail(x, Some(email)) && CheckConfig(x, form).Ok? {
      var config := ConfigJson(form);
      SaveWebhookOfAccepted(x, nodes, locked, root, email, form);
      ConfigJsonEncodable(form);
      if SaveConfigSpec(x, nodes, locked, root, email, config).1 {
        Webhook.SaveThenGet(x, nodes, locked, root, email, config);
      }
    }
  }

  /** `deleteWebhook`. */
  function DeleteWebhookSpec(x: Externals, nodes: Nodes, locked: set<Path>, root: Path, email: string): (Nodes, Response) {
    if !IsValidEmail(x, Some(email)) then (nodes, ErrorPage("Invalid email address"))
    else
      var (after, ok) := DeleteConfigSpec(nodes, locked, root, email);
      (after, if ok then Reply(true, "Webhook configuration deleted") else Reply(false, "Failed to delete webhook configuration"))
  }

  method DeleteWebhook(fs: Fs, x: Externals, root: Path, email: string) returns (resp: Response)
    requires fs.Valid()
    modifies fs
    ensures fs.Valid()
    ensures (fs.nodes, resp) == DeleteWebhookSpec(x, old(fs.nodes), fs.locked, root, email)
  {
    if !IsValidEmail(x, Some(email)) {
      return ErrorPage("Invalid email address");
    }
    var ok := DeleteConfig(fs, root, email);
    resp := if ok then Reply(true, "Webhook configuration deleted") else Reply(false, "Failed to delete webhook configuration");
  }

  /** `handleWebhook`: the address must resolve; the route's `action`
      picks get, save (with the request values) or delete. */
  function HandleWebhookSpec(x: Externals, nodes: Nodes, locked: set<Path>, root: Path, req: Request, vars: Request): (Nodes, Response) {
    var action := if "action" in vars then Some(ParamString(vars["action"])) else None;
    var email := ResolveEmail(req, vars);
    if email.None? then (nodes, Body(400, "400 Bad Request: missing email"))
    else WebhookAction(x, nodes, locked, root, action, email.value, FormConfig(req))
  }

  /** The `action` switch of `handleWebhook` for a resolved address. */
  function WebhookAction(x: Externals, nodes: Nodes, locked: set<Path>, root: Path, action: Option<string>,
                         email: string, form: HookConfig): (Nodes, Response) {
    if action == Some("get") then (nodes, GetWebhook(x, nodes, root, email))
    else if action == Some("save") then SaveWebhookSpec(x, nodes, locked, root, email, form)
    else if action == Some("delete") then DeleteWebhookSpec(x, nodes, locked, root, email)
    else (nodes, Body(404, "404 Not Found"))
  }

  method HandleWebhook(fs: Fs, x: Externals, root: Path, req: Request, vars: Request) returns (resp: Response)
    requires fs.Valid()
    modifies fs
    ensures fs.Valid()
    ensures (fs.nodes, resp) == HandleWebhookSpec(x, old(fs.nodes), fs.locked, root, req, vars)
  {
    var action := if "action" in vars then Some(ParamString(vars["action"])) else None;
    var email := ResolveEmail(req, vars);
    if email.None? {
      return Body(400, "400 Bad Request: missing email");
    }
    if action == Some("get") {
      return GetWebhook(x, fs.nodes, root, email.value);
    } else if action == Some("save") {
      resp := SaveWebhook(fs, x, root, email.value, FormConfig(req));
    } else if action == Some("delete") {
      resp := DeleteWebhook(fs, x, root, email.value);
    } else {
      return Body(404, "404 Not Found");
    }
  }

  /** Only `save` and `delete` can change storage, and only for a resolved
      address. */
  lemma OnlySaveAndDeleteWrite(x: Externals, nodes: Nodes, locked: set<Path>, root: Path, req: Request, vars: Request)
    requires ResolveEmail(req, vars).None?
             || !("action" in vars && ParamString(vars["action"]) in {"save", "delete"})
    ensures HandleWebhookSpec(x, nodes, locked, root, req, vars).0 == nodes
  {
    var email := ResolveEmail(req, vars);
    if email.Some? {
      var action := if "action" in vars then Some(ParamString(vars["action"])) else None;
      ResolvedReadOnly(x, nodes, locked, root, req, vars, email.value, action);
    }
  }

  lemma ResolvedReadOnly(x: Externals, nodes: Nodes, locked: set<Path>, root: Path, req: Request, vars: Request,
                         email: string, action: Option<string>)
    requires ResolveEmail(req, vars) == Some(email)
    requires action == if "action" in vars then Some(ParamString(vars["action"])) else None
    requires action != Some("save") && action != Some("delete")
    ensures HandleWebhookSpec(x, nodes, locked, root, req, vars).0 == nodes
  {
    ReadOnlyActions(x, nodes, locked, root, action, email, FormConfig(req));
  }

  /** Every action but `save` and `delete` leaves storage as it is. */
  lemma ReadOnlyActions(x: Externals, nodes: Nodes, locked: set<Path>, root: Path, action: Option<string>,
                        email: string, form: HookConfig)
    requires action != Some("save") && action != Some("delete")
    ensures WebhookAction(x, nodes, locked, root, action, email, form).0 == nodes
  {
  }
}
