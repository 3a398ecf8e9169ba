/** The legacy web backend `OpenTrashmailBackend` (`web/inc`): the access
    gates of its `run` dispatcher, the checks in front of reading and
    deleting mail, the JSON branch, deleting a mailbox and the webhook
    handlers with their validation chain. Storage goes through the legacy
    helpers of `LegacyCore`; responses use the `Response` values of the
    new controller, whose pages and messages the legacy code shares. */
module LegacyBackend {
  import opened Wrappers
  import opened Text
  import opened FileSystem
  import opened Externals
  import LegacyCore
  import A = ApiController
  import JsonController
  import Webhook
  import Mailbox
  import Sandbox

  // ---------------------------------------------------------------------
  // Request values and the gates of `run`
  // ---------------------------------------------------------------------

  /** `($_REQUEST[$k] ?? null) ?: ($this->url[$i] ?? null)`: a truthy request
      value wins, otherwise the route segment. A request array is truthy
      and reads as no string (`None`): every check below refuses it. */
  function RequestOrRoute(request: Option<Param>, route: Option<string>): (r: Option<string>)
    ensures request.Some? && request.value.Str? && PhpTruthy(request.value.s) ==> r == Some(request.value.s)
    ensures request == Some(Arr) ==> r == None
    ensures (request.None? || (request.value.Str? && !PhpTruthy(request.value.s))) ==> r == route
  {
    match request
    case Some(Arr) => None
    case Some(Str(s)) => if PhpTruthy(s) then Some(s) else route
    case None => route
  }

  /** `filter_var($email, FILTER_VALIDATE_EMAIL)` on a value that may be
      null (or an array, which fails). */
  predicate ValidEmail(x: Externals, email: Option<string>) {
    email.Some? && x.validEmail(email.value)
  }

  /** The gate on the `listaccounts` and `logs` pages: the flag, and then
      either an admin password together with an admin session, or no admin
      password at all, where PHP's `!` also counts `0` as none. */
  function CanSee(settings: Settings, flag: string, sessionAdmin: bool): (r: bool)
    ensures r <==> PhpTruthy(Setting(settings, flag))
                   && (sessionAdmin || !PhpTruthy(Setting(settings, "ADMIN_PASSWORD")))
  {
    var password := Setting(settings, "ADMIN_PASSWORD");
    PhpTruthy(Setting(settings, flag)) && ((password != "" && sessionAdmin) || !PhpTruthy(password))
  }

  /** The legacy gate is the new one for an active session, except that an
      admin password of `0` opens the page to everybody, where the new gate
      asks for an admin session. */
  lemma GateMatchesNewExceptZeroPassword(settings: Settings, flag: string, sessionAdmin: bool)
    ensures Setting(settings, "ADMIN_PASSWORD") != "0" ==>
              (CanSee(settings, flag, sessionAdmin) <==> A.CanSee(settings, flag, true, sessionAdmin))
    ensures Setting(settings, "ADMIN_PASSWORD") == "0" ==>
              && (CanSee(settings, flag, false) <==> PhpTruthy(Setting(settings, flag)))
              && !A.CanSee(settings, flag, true, false)
  {
  }

  /** The `lines` value of the logs page: the route segment when it is a
      numeric string greater than zero, otherwise 100. The string itself
      is passed on, fraction and surrounding blanks included. */
  function LogLines(linesParam: Option<string>): (r: string)
    ensures r == "100" || (linesParam == Some(r) && PhpIsNumeric(r) && PhpFloatval(r) > 0.0)
    ensures linesParam.None? ==> r == "100"
  {
    if linesParam.Some? && PhpIsNumeric(linesParam.value) && PhpFloatval(linesParam.value) > 0.0 then linesParam.value
    else "100"
  }

  /** On a positive run of digits the legacy and the new log pages ask for
      the same number of lines, which the new page caps at PHP's largest
      integer; a positive number below one, such as
      `0.5`, is passed on by the legacy page where the new page falls back
      to 100. */
  lemma LogLinesAgree(linesParam: Option<string>)
    ensures linesParam.Some? && AllDigits(linesParam.value) && DigitsValue(linesParam.value) > 0 ==>
              && LogLines(linesParam) == linesParam.value
              && A.PositiveIntOrDefault(linesParam, 100) == Saturate(DigitsValue(linesParam.value))
    ensures linesParam.Some? && PhpIsNumeric(linesParam.value) && PhpFloatval(linesParam.value) > 0.0
            && PhpIntval(linesParam.value) <= 0 ==>
              && LogLines(linesParam) == linesParam.value
              && A.PositiveIntOrDefault(linesParam, 100) == 100
  {
    A.PositiveIntOrDefaultReads(linesParam, 100);
    if linesParam.Some? && AllDigits(linesParam.value) && DigitsValue(linesParam.value) > 0 {
      DigitsAreNumeric(linesParam.value);
    }
  }

  /** A run of digits is a numeric string whose value is its decimal value. */
  lemma DigitsAreNumeric(s: string)
    requires AllDigits(s)
    ensures PhpIsNumeric(s) && PhpFloatval(s) == DigitsValue(s) as real
  {
    LegacyCore.DecimalIsNumeric(s, |s|);
    FloatvalOfDigits(s);
  }

  lemma FloatvalOfDigits(s: string)
    requires AllDigits(s)
    ensures PhpFloatval(s) == DigitsValue(s) as real
  {
    assert s[0] !in PhpNumericSpace;
    assert TrimLeft(s, PhpNumericSpace) == s;
    var whole := DigitPrefix(s);
    assert |whole| == |s|;
    assert whole == s;
    assert s[|whole|..] == [];
  }

  /** The gate on `/json/listaccounts`: the flag, and then either a request
      `password` loosely equal to the admin password, or no admin password.
      A missing or array-valued password never compares equal to a set
      password. */
  function CanListAccountsJson(settings: Settings, password: Option<Param>): (r: bool)
    ensures r <==> PhpTruthy(Setting(settings, "SHOW_ACCOUNT_LIST"))
                   && (!PhpTruthy(Setting(settings, "ADMIN_PASSWORD"))
                       || (password.Some? && password.value.Str?
                           && PhpLooseEquals(password.value.s, Setting(settings, "ADMIN_PASSWORD"))))
  {
    var adminPassword := Setting(settings, "ADMIN_PASSWORD");
    PhpTruthy(Setting(settings, "SHOW_ACCOUNT_LIST"))
    && ((adminPassword != "" && password.Some? && password.value.Str? && PhpLooseEquals(password.value.s, adminPassword))
        || !PhpTruthy(adminPassword))
  }

  /** Whatever the new JSON gate lets through, the legacy gate does too;
      the loose comparison also lets another spelling of a numeric
      password through: with `1` set, the request password `1.0` lists the
      accounts in the legacy code only. */
  lemma JsonGateWidensNew(settings: Settings, password: Option<Param>)
    ensures JsonController.CanShowAccountList(settings, password) ==> CanListAccountsJson(settings, password)
    ensures var s := map["SHOW_ACCOUNT_LIST" := "1", "ADMIN_PASSWORD" := "1"];
            CanListAccountsJson(s, Some(Str("1.0"))) && !JsonController.CanShowAccountList(s, Some(Str("1.0")))
  {
    if JsonController.CanShowAccountList(settings, password) && PhpTruthy(Setting(settings, "ADMIN_PASSWORD")) {
      LooseEqualsReflexive(password.value.s);
    }
    var s := map["SHOW_ACCOUNT_LIST" := "1", "ADMIN_PASSWORD" := "1"];
    assert Setting(s, "ADMIN_PASSWORD") == "1" && Setting(s, "SHOW_ACCOUNT_LIST") == "1";
    LegacyCore.NumericOne();
    LegacyCore.NumericOnePointZero();
  }

  lemma LooseEqualsReflexive(s: string)
    ensures PhpLooseEquals(s, s)
  {
  }

  // ---------------------------------------------------------------------
  // Reading and deleting mail
  // ---------------------------------------------------------------------

  /** The three checks of `deleteMail`, `readMail` and `getRawMail`, in
      order: the address, then `is_numeric` on the id, then that anything
      exists under `<id>.json`. */
  function MailGuard(x: Externals, nodes: Nodes, root: Path, email: Option<string>, id: Option<string>)
    : (r: Result<(string, string), A.GuardError>)
    ensures r.Ok? <==> ValidEmail(x, email) && id.Some? && PhpIsNumeric(id.value)
                       && LegacyCore.EmailIdExists(nodes, root, email.value, id.value)
    ensures r.Ok? ==> r.value == (email.value, id.value)
    ensures !ValidEmail(x, email) ==> r == Err(A.InvalidEmail)
    ensures ValidEmail(x, email) && !(id.Some? && PhpIsNumeric(id.value)) ==> r == Err(A.InvalidId)
  {
    if !ValidEmail(x, email) then Err(A.InvalidEmail)
    else if id.None? || !PhpIsNumeric(id.value) then Err(A.InvalidId)
    else if !LegacyCore.EmailIdExists(nodes, root, email.value, id.value) then Err(A.NotFound)
    else Ok((email.value, id.value))
  }

  /** Every request the new checks let through passes the legacy checks on
      the same mailbox; the legacy checks also let through numeric ids that
      are not runs of digits, such as `1.0`. */
  lemma MailGuardWidensNew(x: Externals, nodes: Nodes, root: Path, email: Option<string>, id: Option<string>)
    ensures A.MailGuard(x, nodes, root + [".."], email, id).Ok? ==> MailGuard(x, nodes, root, email, id).Ok?
    ensures PhpIsNumeric("1.0") && !A.IsValidMailId(Some("1.0"))
  {
    if A.MailGuard(x, nodes, root + [".."], email, id).Ok? {
      DigitsAreNumeric(id.value);
      LegacyCore.NewMessagesExist(nodes, root, email.value, id.value);
    }
    LegacyCore.NumericOnePointZero();
    assert !IsDigit("1.0"[1]);
  }

  /** `deleteMail`: after the checks, the legacy `deleteEmail`, whose
      result is ignored; the answer is the empty string unless it throws. */
  function DeleteMailSpec(x: Externals, nodes: Nodes, locked: set<Path>, root: Path,
                          email: Option<string>, id: Option<string>): (Nodes, A.Response)
  {
    match MailGuard(x, nodes, root, email, id)
    case Err(e) => (nodes, A.ErrorPage(A.GuardMessage(e)))
    case Ok((e, i)) =>
      var (after, r) := LegacyCore.DeleteEmailSpec(x, nodes, locked, root, e, i);
      (after, if r.Err? then A.Raised(r.error) else A.Body(200, ""))
  }

  method DeleteMail(fs: Fs, x: Externals, root: Path, email: Option<string>, id: Option<string>) returns (resp: A.Response)
    requires fs.Valid()
    modifies fs
    ensures fs.Valid()
    ensures (fs.nodes, resp) == DeleteMailSpec(x, old(fs.nodes), fs.locked, root, email, id)
  {
    var guard := MailGuard(x, fs.nodes, root, email, id);
    if guard.Err? {
      return A.ErrorPage(A.GuardMessage(guard.error));
    }
    var r := LegacyCore.DeleteEmail(fs, x, root, email.value, id.value);
    resp := if r.Err? then A.Raised(r.error) else A.Body(200, "");
  }

  /** A request the checks refuse changes nothing and gets the first
      failing check's message; a request that passes them removes what the
      new `deleteEmail` removes, or nothing when listing the attachments
      throws. */
  lemma DeleteMailEffect(x: Externals, nodes: Nodes, locked: set<Path>, root: Path,
                         email: Option<string>, id: Option<string>)
    requires Lawful(x)
    ensures var (after, resp) := DeleteMailSpec(x, nodes, locked, root, email, id);
            && (MailGuard(x, nodes, root, email, id).Err? ==>
                  after == nodes && resp == A.ErrorPage(A.GuardMessage(MailGuard(x, nodes, root, email, id).error)))
            && (MailGuard(x, nodes, root, email, id).Ok? ==>
                  && (resp == A.Body(200, "") || resp == A.Raised(TypeError))
                  && (resp.Raised? ==> after == nodes)
                  && (resp.Body? ==> after == Mailbox.DeleteEmailSpec(x, nodes, locked, root + [".."], email.value, id.value).0))
  {
    if MailGuard(x, nodes, root, email, id).Ok? {
      LegacyCore.DeleteEmailAgrees(x, nodes, locked, root, email.value, id.value);
      DeleteEmailRaisesTypeError(x, nodes, locked, root, email.value, id.value);
    }
  }

  /** The only exception the legacy `deleteEmail` throws is a `TypeError`. */
  lemma DeleteEmailRaisesTypeError(x: Externals, nodes: Nodes, locked: set<Path>, root: Path, email: string, id: string)
    ensures var r := LegacyCore.DeleteEmailSpec(x, nodes, locked, root, email, id).1;
            r.Err? ==> r.error == TypeError
  {
  }

  /** `readMail`: after the checks, the message page with whatever the
      document decodes to. */
  function ReadMail(x: Externals, nodes: Nodes, root: Path, email: Option<string>, id: Option<string>): (r: A.Response)
    ensures r.ErrorPage? || r.MailPage?
    ensures r.MailPage? <==> MailGuard(x, nodes, root, email, id).Ok?
  {
    match MailGuard(x, nodes, root, email, id)
    case Err(e) => A.ErrorPage(A.GuardMessage(e))
    case Ok((e, i)) => A.MailPage(e, i, LegacyCore.GetEmail(x, nodes, root, e, i))
  }

  /** A message the new code loads is shown as the same document. */
  lemma ReadMailShowsStoredMessage(x: Externals, nodes: Nodes, root: Path, email: string, id: string, v: Json)
    requires x.validEmail(email) && PhpIsNumeric(id)
    requires Mailbox.LoadEmailJson(x, nodes, root + [".."], email, id) == Some(v)
    ensures ReadMail(x, nodes, root, Some(email), Some(id)) == A.MailPage(email, id, v)
  {
    LegacyCore.LegacyReadsWhatNewLoads(x, nodes, root, email, id, v);
  }

  /** What `exit($v)` prints (before PHP 8.4): an integer is the exit
      status and prints nothing; anything else prints as a string. */
  function ExitOutput(x: Externals, v: Json): (r: string)
    ensures v.JStr? ==> r == v.s
    ensures v.JInt? || v.JNull? ==> r == ""
  {
    if v.JInt? then "" else Stringify(x, v)
  }

  /** `getRawMail`: after the checks, `parsed.htmlbody` through `exit`
      for the HTML view, else the `raw` entry echoed as a string; reading
      a key of a string throws. */
  function GetRawMail(x: Externals, nodes: Nodes, root: Path, email: Option<string>, id: Option<string>, html: bool): A.Response {
    match MailGuard(x, nodes, root, email, id)
    case Err(e) => A.ErrorPage(A.GuardMessage(e))
    case Ok((e, i)) =>
      var data := LegacyCore.GetEmail(x, nodes, root, e, i);
      if html then
        match Offset2(data, "parsed", "htmlbody")
        case Err(err) => A.Raised(err)
        case Ok(v) => A.Body(200, ExitOutput(x, v))
      else
        match LegacyCore.Offset(data, "raw")
        case Err(err) => A.Raised(err)
        case Ok(v) => A.Body(200, Stringify(x, v))
  }

  /** `$j[$k1][$k2]`. */
  function Offset2(j: Json, k1: string, k2: string): (r: Result<Json, Exception>)
    ensures r.Err? <==> j.JStr? || LegacyCore.At(j, k1).JStr?
  {
    match LegacyCore.Offset(j, k1)
    case Err(e) => Err(e)
    case Ok(v) => LegacyCore.Offset(v, k2)
  }

  /** The raw view of a message the new code loads shows its stored source
      text, and the HTML view its stored HTML body. */
  lemma RawMailIsStoredSource(x: Externals, nodes: Nodes, root: Path, email: string, id: string, v: Json)
    requires x.validEmail(email) && PhpIsNumeric(id)
    requires Mailbox.LoadEmailJson(x, nodes, root + [".."], email, id) == Some(v)
    requires v.JObject? && "raw" in v.fields && v.fields["raw"].JStr?
    ensures GetRawMail(x, nodes, root, Some(email), Some(id), false) == A.Body(200, v.fields["raw"].s)
    ensures "parsed" in v.fields && v.fields["parsed"].JObject? && "htmlbody" in v.fields["parsed"].fields
            && v.fields["parsed"].fields["htmlbody"].JStr? ==>
              GetRawMail(x, nodes, root, Some(email), Some(id), true) == A.Body(200, v.fields["parsed"].fields["htmlbody"].s)
  {
    LegacyCore.LegacyReadsWhatNewLoads(x, nodes, root, email, id, v);
  }

  // ---------------------------------------------------------------------
  // The JSON branch of `run`
  // ---------------------------------------------------------------------

  /** What the JSON branch prints: the address list, one decoded document,
      the listing rows, or `{"error": message}`. */
  datatype JsonPayload =
    | AddressList(addresses: seq<string>)
    | Document(document: Json)
    | ListingRows(rows: seq<LegacyCore.LegacyRow>)
    | ErrorObject(error: string)

  /** The status code with the body, or an exception that escapes. */
  datatype JsonReply =
    | JsonReply(status: nat, payload: JsonPayload)
    | JsonRaised(exception: Exception)

  /** The `json` branch on the segments after `json`: `listaccounts`
      behind its gate (refused with status 200), else an address that must
      be truthy and valid (404), then for a truthy id: existence (404)
      before `is_numeric` (400) before the document; without one, the
      listing with bodies and attachments. */
  function HandleJson(x: Externals, settings: Settings, nodes: Nodes, root: Path,
                      action: Option<string>, idSegment: Option<string>, password: Option<Param>): JsonReply
  {
    if action == Some("listaccounts") then
      if CanListAccountsJson(settings, password) then JsonReply(200, AddressList(LegacyCore.ListEmailAddressesSpec(x, nodes, root)))
      else JsonReply(200, ErrorObject("403 Forbidden"))
    else if action.None? || !PhpTruthy(action.value) || !x.validEmail(action.value) then
      JsonReply(404, ErrorObject("Email not found"))
    else
      var email := action.value;
      if idSegment.Some? && PhpTruthy(idSegment.value) then IdReply(x, nodes, root, email, idSegment.value)
      else
        match LegacyCore.Listing(x, settings, nodes, root, email, true, true)
        case Err(e) => JsonRaised(e)
        case Ok(rows) => JsonReply(200, ListingRows(rows))
  }

  /** One message by id: existence (404) before `is_numeric` (400). */
  function IdReply(x: Externals, nodes: Nodes, root: Path, email: string, id: string): JsonReply {
    if !LegacyCore.EmailIdExists(nodes, root, email, id) then JsonReply(404, ErrorObject("Email ID not found"))
    else if !PhpIsNumeric(id) then JsonReply(400, ErrorObject("Invalid ID"))
    else JsonReply(200, Document(LegacyCore.GetEmail(x, nodes, root, email, id)))
  }

  /** The refused account list is answered with status 200, where the new
      controller answers 403; the body is the same error object. */
  lemma ForbiddenListIsStatus200(x: Externals, settings: Settings, nodes: Nodes, root: Path, req: Request,
                                 idSegment: Option<string>)
    requires !CanListAccountsJson(settings, if "password" in req then Some(req["password"]) else None)
    ensures var password := if "password" in req then Some(req["password"]) else None;
            HandleJson(x, settings, nodes, root, Some("listaccounts"), idSegment, password)
              == JsonReply(200, ErrorObject("403 Forbidden"))
    ensures JsonController.ListAccounts(x, settings, nodes, root + [".."], req) == JsonController.JsonError(403, "403 Forbidden")
  {
    var password := if "password" in req then Some(req["password"]) else None;
    JsonGateWidensNew(settings, password);
  }

  /** With a truthy id, the message file is probed before the id is
      checked: an id that is not numeric gets 400 exactly when something
      exists under `<id>.json`, and 404 otherwise. */
  lemma JsonExistenceBeforeNumeric(x: Externals, settings: Settings, nodes: Nodes, root: Path,
                                   email: string, id: string, password: Option<Param>)
    requires email != "listaccounts" && PhpTruthy(email) && x.validEmail(email)
    requires PhpTruthy(id)
    ensures var r := HandleJson(x, settings, nodes, root, Some(email), Some(id), password);
            && r.JsonReply?
            && (!LegacyCore.EmailIdExists(nodes, root, email, id) ==> r == JsonReply(404, ErrorObject("Email ID not found")))
            && (LegacyCore.EmailIdExists(nodes, root, email, id) && !PhpIsNumeric(id) ==>
                  r == JsonReply(400, ErrorObject("Invalid ID")))
            && (r.status == 200 <==> LegacyCore.EmailIdExists(nodes, root, email, id) && PhpIsNumeric(id))
  {
  }

  /** Where the new JSON controller shows a stored message, the legacy
      branch shows the same document, except for the id `0`, which PHP
      reads as false (see `FalsyIdLists`). */
  lemma JsonShowsWhatNewShows(x: Externals, settings: Settings, nodes: Nodes, root: Path,
                              email: string, id: string, password: Option<Param>, v: Json)
    requires email != "listaccounts" && PhpTruthy(email) && x.validEmail(email)
    requires AllDigits(id) && id != "0"
    requires Mailbox.LoadEmailJson(x, nodes, root + [".."], email, id) == Some(v)
    ensures HandleJson(x, settings, nodes, root, Some(email), Some(id), password) == JsonReply(200, Document(v))
  {
    assert PhpTruthy(id);
    TruthyIdAsksById(x, settings, nodes, root, email, id, password);
    DigitsAreNumeric(id);
    LegacyCore.LegacyReadsWhatNewLoads(x, nodes, root, email, id, v);
  }

  lemma TruthyIdAsksById(x: Externals, settings: Settings, nodes: Nodes, root: Path,
                         email: string, id: string, password: Option<Param>)
    requires email != "listaccounts" && PhpTruthy(email) && x.validEmail(email) && PhpTruthy(id)
    ensures HandleJson(x, settings, nodes, root, Some(email), Some(id), password) == IdReply(x, nodes, root, email, id)
  {
  }

  /** An id of `0` (or none) is falsy and asks for the listing of the
      address, where the new controller looks up message `0`. */
  lemma FalsyIdLists(x: Externals, settings: Settings, nodes: Nodes, root: Path,
                     email: string, idSegment: Option<string>, password: Option<Param>)
    requires email != "listaccounts" && PhpTruthy(email) && x.validEmail(email)
    requires idSegment.None? || !PhpTruthy(idSegment.value)
    ensures var listing := LegacyCore.Listing(x, settings, nodes, root, email, true, true);
            var r := HandleJson(x, settings, nodes, root, Some(email), idSegment, password);
            && (listing.Err? ==> r == JsonRaised(listing.error))
            && (listing.Ok? ==> r == JsonReply(200, ListingRows(listing.value)))
  {
  }

  // ---------------------------------------------------------------------
  // Deleting a mailbox
  // ---------------------------------------------------------------------

  /** `deleteAccount`: for a valid address whose directory exists, the
      legacy `delTree`; the answer is empty unless that throws. Only the
      mailbox's tree can disappear, and it is gone afterwards exactly when
      nothing in it was locked or unlistable. */
  method DeleteAccount(fs: Fs, x: Externals, root: Path, email: Option<string>) returns (resp: A.Response)
    requires fs.Valid()
    modifies fs
    ensures fs.Valid()
    ensures !ValidEmail(x, email) ==> resp == A.ErrorPage("Invalid email address") && fs.nodes == old(fs.nodes)
    ensures OnlyRemoved(old(fs.nodes), fs.nodes)
    ensures ValidEmail(x, email) ==>
              var d := LegacyCore.DirFor(old(fs.nodes), root, email.value);
              var q := Normalize(d);
              && (resp == A.Body(200, "") || resp == A.Raised(TypeError))
              && KeptOutside(old(fs.nodes), fs.nodes, q)
              && RemovedRemovable(old(fs.nodes), fs.nodes, fs.locked)
              && (!IsDir(old(fs.nodes), d) ==> fs.nodes == old(fs.nodes) && resp == A.Body(200, ""))
              && (IsDir(old(fs.nodes), d) && Listable(old(fs.nodes), q) ==> resp == A.Body(200, ""))
              && (IsDir(old(fs.nodes), d) ==>
                    (Gone(fs.nodes, q) <==> q != [] && Removable(old(fs.nodes), fs.locked, q)))
  {
    if !ValidEmail(x, email) {
      return A.ErrorPage("Invalid email address");
    }
    resp := DeleteDirectory(fs, LegacyCore.DirFor(fs.nodes, root, email.value));
  }

  /** `if(is_dir($path)) delTree($path);`: only `TypeError` from an
      unlistable directory below changes the empty answer. */
  method DeleteDirectory(fs: Fs, path: Path) returns (resp: A.Response)
    requires fs.Valid()
    modifies fs
    ensures fs.Valid()
    ensures resp == A.Body(200, "") || resp == A.Raised(TypeError)
    ensures !IsDir(old(fs.nodes), path) ==> fs.nodes == old(fs.nodes) && resp == A.Body(200, "")
    ensures IsDir(old(fs.nodes), path) && Listable(old(fs.nodes), Normalize(path)) ==> resp == A.Body(200, "")
    ensures OnlyRemoved(old(fs.nodes), fs.nodes)
    ensures KeptOutside(old(fs.nodes), fs.nodes, Normalize(path))
    ensures RemovedRemovable(old(fs.nodes), fs.nodes, fs.locked)
    ensures IsDir(old(fs.nodes), path) ==>
              (Gone(fs.nodes, Normalize(path)) <==>
                 Normalize(path) != [] && Removable(old(fs.nodes), fs.locked, Normalize(path)))
  {
    if IsDir(fs.nodes, path) {
      var r := LegacyCore.DelTree(fs, path);
      if r.Err? {
        return A.Raised(r.error);
      }
    }
    return A.Body(200, "");
  }

  /** With lawful validation, the tree `deleteAccount` may remove is one
      direct child of the data directory, the one the new code removes. */
  lemma DeleteAccountStaysInDataDir(x: Externals, nodes: Nodes, root: Path, email: string)
    requires Lawful(x) && x.validEmail(email)
    ensures Normalize(LegacyCore.DirFor(nodes, root, email))
            == Normalize(Mailbox.DataDir(root + [".."])) + [Sandbox.Sanitize(email)]
  {
    LegacyCore.DirForIsNewLayout(nodes, root, email);
    A.DeleteAccountStaysInDataDir(x, nodes, root + [".."], email);
  }

  // ---------------------------------------------------------------------
  // Webhook handlers
  // ---------------------------------------------------------------------

  /** `getWebhook`: the stored value when PHP finds it truthy, otherwise
      `{'enabled': false}`. */
  function GetWebhook(x: Externals, nodes: Nodes, root: Path, email: Option<string>): (r: A.Response)
    ensures !ValidEmail(x, email) <==> r == A.ErrorPage("Invalid email address")
    ensures ValidEmail(x, email) ==> r.JsonBody? && !Empty(r.payload)
  {
    if !ValidEmail(x, email) then A.ErrorPage("Invalid email address")
    else
      var config := LegacyCore.GetWebhookConfig(x, nodes, root, email.value);
      if config.Some? && !Empty(config.value) then A.JsonBody(config.value)
      else
        var off := JObject(map["enabled" := JBool(false)]);
        assert "enabled" in off.fields;
        A.JsonBody(off)
  }

  /** Where the stored configuration is an array in a regular file, or
      there is none, the legacy and new handlers answer alike; a truthy
      value that is not an array is served by the legacy handler only. */
  lemma GetWebhookAgrees(x: Externals, nodes: Nodes, root: Path, email: string)
    requires Lawful(x) && x.validEmail(email)
    ensures var legacy := LegacyCore.GetWebhookConfig(x, nodes, root, email);
            (legacy.None? || (IsArray(legacy.value) && IsFile(nodes, LegacyCore.ConfigPath(nodes, root, email)))) ==>
              GetWebhook(x, nodes, root, Some(email)) == A.GetWebhook(x, nodes, root + [".."], email)
    ensures var legacy := LegacyCore.GetWebhookConfig(x, nodes, root, email);
            legacy.Some? && !IsArray(legacy.value) && !Empty(legacy.value) ==>
              && GetWebhook(x, nodes, root, Some(email)) == A.JsonBody(legacy.value)
              && A.GetWebhook(x, nodes, root + [".."], email) == A.JsonBody(JObject(map["enabled" := JBool(false)]))
  {
    LegacyCore.GetWebhookConfigNarrowed(x, nodes, root, email);
  }

  /** The values `saveWebhook` reads from the request: the URL after
      `FILTER_SANITIZE_URL` (`None` for PHP's `false`, which an array
      gives), the template as posted, the attempts as `intval`, the backoff
      as `floatval` (`None` when absent: the integer default 2), the
      enabled flag and the secret as posted. */
  datatype HookForm = HookForm(url: Option<string>, template: Param, maxAttempts: int,
                               backoff: Option<real>, enabled: bool, secret: Param)

  function ReadForm(x: Externals, data: Request): HookForm {
    HookForm(
      if "webhook_url" !in data then Some("")
      else if data["webhook_url"].Str? then Some(x.sanitizeUrl(data["webhook_url"].s)) else None,
      if "payload_template" in data then data["payload_template"] else Str(A.DefaultPayloadTemplate),
      A.MaxAttempts(data),
      if "backoff_multiplier" in data then Some(ParamFloat(data["backoff_multiplier"])) else None,
      A.Enabled(data),
      if "secret_key" in data then data["secret_key"] else Str(""))
  }

  /** The raw host `parse_url` finds, `''` without one. */
  function RawHost(x: Externals, url: string): string {
    x.parseUrl(url).host.GetOr("")
  }

  /** The URL checks, for a truthy URL only: it must validate, its
      lower-cased host must not be blocked, and a host that is a literal IP
      must be public. There is no scheme check. */
  function UrlFailure(x: Externals, url: Option<string>): Option<string> {
    if url.None? || !PhpTruthy(url.value) then None
    else if !x.validUrl(url.value) then Some(A.InvalidUrlMessage)
    else
      var host := RawHost(x, url.value);
      if Lower(host) in A.BlockedHosts then Some(A.InternalHostMessage)
      else if x.validIp(host) && !x.publicIp(host) then Some(A.PrivateIpMessage)
      else None
  }

  /** A URL the legacy checks let through. */
  predicate AcceptableUrl(x: Externals, url: Option<string>) {
    url.None? || !PhpTruthy(url.value) ||
    (&& x.validUrl(url.value)
     && Lower(RawHost(x, url.value)) !in A.BlockedHosts
     && (x.validIp(RawHost(x, url.value)) ==> x.publicIp(RawHost(x, url.value))))
  }

  lemma UrlFailureIffUnacceptable(x: Externals, url: Option<string>)
    ensures UrlFailure(x, url).None? <==> AcceptableUrl(x, url)
  {
  }

  /** Every URL the new checks accept, the legacy checks accept too, when
      its host has no upper-case letters; a valid URL with another scheme
      than `http` or `https` and an ordinary host name is accepted by the
      legacy checks only. */
  lemma UrlChecksWidenNew(x: Externals, url: string)
    ensures A.AcceptableUrl(x, url) && Lower(RawHost(x, url)) == RawHost(x, url) ==> AcceptableUrl(x, Some(url))
    ensures PhpTruthy(url) && x.validUrl(url) && A.UrlScheme(x, url) !in {"http", "https"}
            && Lower(RawHost(x, url)) !in A.BlockedHosts && !x.validIp(RawHost(x, url)) ==>
              AcceptableUrl(x, Some(url)) && A.UrlFailure(x, url) == Some(A.InvalidUrlMessage)
    ensures AcceptableUrl(x, Some("0"))
  {
    A.UrlFailureIffUnacceptable(x, url);
  }

  /** The validation chain of `saveWebhook` after the address check: the
      URL, the template (a posted array makes `json_decode` throw), the
      attempts, the backoff, then the secret (a posted array makes `substr`
      throw); the first failure's answer, or the form to store. */
  function CheckForm(x: Externals, f: HookForm): (r: Result<HookForm, A.Response>)
    ensures r.Ok? ==> r.value == f && f.template.Str? && f.secret.Str?
  {
    var urlFailure := UrlFailure(x, f.url);
    if urlFailure.Some? then Err(A.Reply(false, urlFailure.value))
    else if f.template.Arr? then Err(A.Raised(TypeError))
    else if !A.TemplateParses(x, f.template.s) then Err(A.Reply(false, A.InvalidTemplateMessage))
    else if f.maxAttempts < 1 || f.maxAttempts > 10 then Err(A.Reply(false, A.AttemptsMessage))
    else if f.backoff.GetOr(2.0) < 1.0 || f.backoff.GetOr(2.0) > 5.0 then Err(A.Reply(false, A.BackoffMessage))
    else if f.secret.Arr? then Err(A.Raised(TypeError))
    else Ok(f)
  }

  /** The chain accepts exactly the forms whose values are all in range,
      and then stores them as read. */
  lemma CheckFormAccepts(x: Externals, f: HookForm)
    ensures CheckForm(x, f).Ok? <==>
              && AcceptableUrl(x, f.url)
              && f.template.Str? && A.TemplateParses(x, f.template.s)
              && 1 <= f.maxAttempts <= 10
              && 1.0 <= f.backoff.GetOr(2.0) <= 5.0
              && f.secret.Str?
    ensures CheckForm(x, f).Ok? ==> CheckForm(x, f).value == f
  {
    UrlFailureIffUnacceptable(x, f.url);
  }

  /** The first failing check decides the answer. */
  lemma CheckFormFirstFailure(x: Externals, f: HookForm)
    ensures !AcceptableUrl(x, f.url) ==>
              CheckForm(x, f).Err? && CheckForm(x, f).error.Reply?
              && CheckForm(x, f).error.message in {A.InvalidUrlMessage, A.InternalHostMessage, A.PrivateIpMessage}
    ensures AcceptableUrl(x, f.url) && f.template.Arr? ==> CheckForm(x, f) == Err(A.Raised(TypeError))
    ensures AcceptableUrl(x, f.url) && f.template.Str? && !A.TemplateParses(x, f.template.s) ==>
              CheckForm(x, f) == Err(A.Reply(false, A.InvalidTemplateMessage))
    ensures AcceptableUrl(x, f.url) && f.template.Str? && A.TemplateParses(x, f.template.s)
            && !(1 <= f.maxAttempts <= 10)
            ==> CheckForm(x, f) == Err(A.Reply(false, A.AttemptsMessage))
    ensures AcceptableUrl(x, f.url) && f.template.Str? && A.TemplateParses(x, f.template.s)
            && 1 <= f.maxAttempts <= 10 && !(1.0 <= f.backoff.GetOr(2.0) <= 5.0)
            ==>
              CheckForm(x, f) == Err(A.Reply(false, A.BackoffMessage))
  {
    UrlFailureIffUnacceptable(x, f.url);
  }

  /** A template whose test payload decodes to JSON `null` is not an
      error: only a failed decode is. */
  lemma NullTemplatePasses(x: Externals, f: HookForm)
    requires AcceptableUrl(x, f.url) && f.template.Str?
    requires x.jsonDecode(A.TestPayload(f.template.s)) == Some(JNull)
    ensures CheckForm(x, f) != Err(A.Reply(false, A.InvalidTemplateMessage))
  {
    UrlFailureIffUnacceptable(x, f.url);
  }

  /** The array written to `webhook.json`: the URL (`false` when sanitizing
      failed), the template, the retry values (the absent backoff as the
      integer 2) and the secret cut to 255 characters. */
  function ConfigJson(f: HookForm): (j: Json)
    requires f.template.Str? && f.secret.Str?
    ensures j.JObject? && "secret_key" in j.fields && j.fields["secret_key"].JStr?
    ensures |j.fields["secret_key"].s| <= 255 && j.fields["secret_key"].s <= f.secret.s
    ensures |f.secret.s| <= 255 ==> j.fields["secret_key"].s == f.secret.s
    ensures |f.secret.s| > 255 ==> |j.fields["secret_key"].s| == 255
  {
    JObject(map[
      "enabled" := JBool(f.enabled),
      "webhook_url" := if f.url.Some? then JStr(f.url.value) else JBool(false),
      "payload_template" := JStr(f.template.s),
      "retry_config" := RetryJson(f),
      "secret_key" := JStr(LegacyCore.Head(f.secret.s, 255))])
  }

  function RetryJson(f: HookForm): Json {
    JObject(map["max_attempts" := JInt(f.maxAttempts),
                "backoff_multiplier" := if f.backoff.Some? then JFloat(f.backoff.value) else JInt(2)])
  }

  /** The stored array survives JSON encoding and is not empty. */
  lemma ConfigJsonEncodable(f: HookForm)
    requires f.template.Str? && f.secret.Str?
    ensures Encodable(ConfigJson(f)) && !Empty(ConfigJson(f))
  {
    var retry := RetryJson(f).fields;
    assert "max_attempts" in retry;
    forall k | k in retry ensures Encodable(retry[k]) {
    }
    var m := ConfigJson(f).fields;
    assert "enabled" in m;
    forall k | k in m ensures Encodable(m[k]) {
    }
  }

  /** A form that also passes the new checks and carries a URL, a posted
      backoff and a short secret is stored as the same array the new
      controller stores. */
  lemma ConfigJsonMatchesNew(f: HookForm)
    requires f.url.Some? && f.backoff.Some? && f.template.Str? && f.secret.Str? && |f.secret.s| <= 255
    ensures ConfigJson(f) == A.ConfigJson(A.HookConfig(f.enabled, f.url.value, f.template.s,
                                                       f.maxAttempts, f.backoff.value, f.secret.s))
  {
    var c := A.HookConfig(f.enabled, f.url.value, f.template.s, f.maxAttempts, f.backoff.value, f.secret.s);
    assert RetryJson(f) == A.RetryJson(c);
  }

  /** `saveWebhook`, on the values read from the request (`ReadForm`). */
  function SaveWebhookSpec(x: Externals, nodes: Nodes, locked: set<Path>, root: Path,
                           email: Option<string>, form: HookForm): (Nodes, A.Response)
  {
    if !ValidEmail(x, email) then (nodes, A.ErrorPage("Invalid email address"))
    else
      var checked := CheckForm(x, form);
      if checked.Err? then (nodes, checked.error)
      else StoreForm(x, nodes, locked, root, email.value, checked.value)
  }

  /** The save at the end of `saveWebhook` and its reply. */
  function StoreForm(x: Externals, nodes: Nodes, locked: set<Path>, root: Path, email: string, f: HookForm): (Nodes, A.Response)
    requires f.template.Str? && f.secret.Str?
  {
    var saved := Webhook.SaveConfigSpec(x, nodes, locked, root + [".."], email, ConfigJson(f));
    (saved.0, if saved.1 then A.Reply(true, "Webhook configuration saved")
              else A.Reply(false, "Failed to save webhook configuration"))
  }

  method SaveWebhook(fs: Fs, x: Externals, root: Path, email: Option<string>, form: HookForm) returns (resp: A.Response)
    requires fs.Valid()
    modifies fs
    ensures fs.Valid()
    ensures (fs.nodes, resp) == SaveWebhookSpec(x, old(fs.nodes), fs.locked, root, email, form)
  {
    if !ValidEmail(x, email) {
      return A.ErrorPage("Invalid email address");
    }
    var checked := CheckForm(x, form);
    if checked.Err? {
      return checked.error;
    }
    resp := StoreFormIn(fs, x, root, email.value, checked.value);
  }

  method StoreFormIn(fs: Fs, x: Externals, root: Path, email: string, f: HookForm) returns (resp: A.Response)
    requires fs.Valid() && f.template.Str? && f.secret.Str?
    modifies fs
    ensures fs.Valid()
    ensures (fs.nodes, resp) == StoreForm(x, old(fs.nodes), fs.locked, root, email, f)
  {
    var ok := LegacyCore.SaveWebhookConfig(fs, x, root, email, ConfigJson(f));
    resp := if ok then A.Reply(true, "Webhook configuration saved") else A.Reply(false, "Failed to save webhook configuration");
  }

  /** A refused form stores nothing. */
  lemma SaveWebhookRejected(x: Externals, nodes: Nodes, locked: set<Path>, root: Path,
                            email: Option<string>, form: HookForm)
    requires !ValidEmail(x, email) || CheckForm(x, form).Err?
    ensures SaveWebhookSpec(x, nodes, locked, root, email, form).0 == nodes
    ensures SaveWebhookSpec(x, nodes, locked, root, email, form).1 != A.Reply(true, "Webhook configuration saved")
  {
    if ValidEmail(x, email) {
      CheckFormNeverSaved(x, form);
    }
  }

  /** No failure of the chain reads as a successful save. */
  lemma CheckFormNeverSaved(x: Externals, form: HookForm)
    requires CheckForm(x, form).Err?
    ensures CheckForm(x, form).error != A.Reply(true, "Webhook configuration saved")
  {
  }

  /** After a successful save, `getWebhook` answers with the array just
      built from the form. */
  lemma SaveWebhookThenGet(x: Externals, nodes: Nodes, locked: set<Path>, root: Path, email: Option<string>, form: HookForm)
    requires Lawful(x)
    requires SaveWebhookSpec(x, nodes, locked, root, email, form).1 == A.Reply(true, "Webhook configuration saved")
    ensures form.template.Str? && form.secret.Str?
    ensures GetWebhook(x, SaveWebhookSpec(x, nodes, locked, root, email, form).0, root, email) == A.JsonBody(ConfigJson(form))
  {
    if !ValidEmail(x, email) || CheckForm(x, form).Err? {
      SaveWebhookRejected(x, nodes, locked, root, email, form);
    }
    CheckFormAccepts(x, form);
    ConfigJsonEncodable(form);
    LegacyCore.SaveThenGetWebhook(x, nodes, locked, root, email.value, ConfigJson(form));
  }

  /** `deleteWebhook`. */
  function DeleteWebhookSpec(x: Externals, nodes: Nodes, locked: set<Path>, root: Path, email: Option<string>): (Nodes, A.Response) {
    if !ValidEmail(x, email) then (nodes, A.ErrorPage("Invalid email address"))
    else
      var (after, ok) := LegacyCore.DeleteWebhookConfigSpec(nodes, locked, root, email.value);
      (after, if ok then A.Reply(true, "Webhook configuration deleted") else A.Reply(false, "Failed to delete webhook configuration"))
  }

  method DeleteWebhook(fs: Fs, x: Externals, root: Path, email: Option<string>) returns (resp: A.Response)
    requires fs.Valid()
    modifies fs
    ensures fs.Valid()
    ensures (fs.nodes, resp) == DeleteWebhookSpec(x, old(fs.nodes), fs.locked, root, email)
  {
    if !ValidEmail(x, email) {
      return A.ErrorPage("Invalid email address");
    }
    var ok := LegacyCore.DeleteWebhookConfig(fs, root, email.value);
    resp := if ok then A.Reply(true, "Webhook configuration deleted") else A.Reply(false, "Failed to delete webhook configuration");
  }

  /** On a regular file or on nothing, the legacy and new handlers do the
      same. */
  lemma DeleteWebhookAgrees(x: Externals, nodes: Nodes, locked: set<Path>, root: Path, email: string)
    requires Lawful(x) && x.validEmail(email)
    requires !FileExists(nodes, LegacyCore.ConfigPath(nodes, root, email)) || IsFile(nodes, LegacyCore.ConfigPath(nodes, root, email))
    ensures DeleteWebhookSpec(x, nodes, locked, root, Some(email)) == A.DeleteWebhookSpec(x, nodes, locked, root + [".."], email)
  {
    LegacyCore.DeleteWebhookConfigAgrees(nodes, locked, root, email);
  }
}
