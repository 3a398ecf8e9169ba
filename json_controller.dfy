/** `JsonController`: the JSON API. The account list is behind its own gate
    (the request password rather than the session), and a message is looked
    up by address and id. Request values are resolved exactly as the HTML
    API resolves them (`ApiController.ResolveEmail`, `ApiController.ResolveId`). */
module JsonController {
  import opened Wrappers
  import opened Text
  import opened FileSystem
  import opened Externals
  import opened Mailbox
  import ApiController

  /** What the JSON body holds: the address list, one message (`null` when
      it cannot be loaded), the listing rows, or `{"error": message}`. */
  datatype Payload =
    | Addresses(addresses: seq<string>)
    | Message(message: Option<Json>)
    | Rows(rows: seq<Row>)
    | ErrorObject(error: string)

  /** The status code with the body, or an exception that escapes. */
  datatype Reply =
    | Reply(status: nat, payload: Payload)
    | Raised(exception: Exception)

  /** `jsonError`. */
  function JsonError(status: nat, message: string): Reply {
    Reply(status, ErrorObject(message))
  }

  /** `jsonOk`. */
  function JsonOk(payload: Payload): Reply {
    Reply(200, payload)
  }

  // ---------------------------------------------------------------------
  // The account list
  // ---------------------------------------------------------------------

  /** `canShowAccountList`: off while `SHOW_ACCOUNT_LIST` is empty, open to
      everybody when no admin password is set, and otherwise only for a
      request password that is a string equal to it. */
  function CanShowAccountList(settings: Settings, password: Option<Param>): (r: bool)
    ensures !PhpTruthy(Setting(settings, "SHOW_ACCOUNT_LIST")) ==> !r
    ensures PhpTruthy(Setting(settings, "SHOW_ACCOUNT_LIST")) && Setting(settings, "ADMIN_PASSWORD") == "" ==> r
    ensures Setting(settings, "ADMIN_PASSWORD") != "" ==>
              (r <==> PhpTruthy(Setting(settings, "SHOW_ACCOUNT_LIST"))
                      && password == Some(Str(Setting(settings, "ADMIN_PASSWORD"))))
  {
    if !PhpTruthy(Setting(settings, "SHOW_ACCOUNT_LIST")) then false
    else
      var adminPassword := Setting(settings, "ADMIN_PASSWORD");
      if adminPassword == "" then true
      else password.Some? && password.value.Str? && password.value.s == adminPassword
  }

  /** The JSON gate and the HTML gate on the account list read the same
      flag and are both open when no admin password is set; with a password
      set, the JSON gate asks for the password in the request where the
      HTML gate asks for an admin session. */
  lemma AccountListGatesAgree(settings: Settings, password: Option<Param>, sessionActive: bool, sessionAdmin: bool)
    ensures Setting(settings, "ADMIN_PASSWORD") == "" ==>
              CanShowAccountList(settings, password) == ApiController.CanSeeAccountList(settings, sessionActive, sessionAdmin)
    ensures !PhpTruthy(Setting(settings, "SHOW_ACCOUNT_LIST")) ==>
              !CanShowAccountList(settings, password) && !ApiController.CanSeeAccountList(settings, sessionActive, sessionAdmin)
  {
  }

  /** `listAccounts`: 403 behind the gate, otherwise the mailbox addresses. */
  function ListAccounts(x: Externals, settings: Settings, nodes: Nodes, root: Path, req: Request): (r: Reply)
    ensures r.Reply? && (r.status == 200 || r.status == 403)
    ensures r.status == 200 <==> CanShowAccountList(settings, if "password" in req then Some(req["password"]) else None)
    ensures r.status == 200 ==> r.payload == Addresses(ListEmailAddressesSpec(x, nodes, root))
  {
    var password := if "password" in req then Some(req["password"]) else None;
    if !CanShowAccountList(settings, password) then JsonError(403, "403 Forbidden")
    else JsonOk(Addresses(ListEmailAddressesSpec(x, nodes, root)))
  }

  // ---------------------------------------------------------------------
  // One address
  // ---------------------------------------------------------------------

  /** `handleEmailRequest`: the address must resolve and validate (404
      otherwise); with an id, the message file must exist (404) and only
      then must the id be all digits (400); without an id, the listing
      with bodies and attachments. */
  function HandleEmailRequest(x: Externals, settings: Settings, nodes: Nodes, root: Path, req: Request, vars: Request): (r: Reply)
    ensures var email := ApiController.ResolveEmail(req, vars);
            email.None? || !x.validEmail(email.value) ==> r == JsonError(404, "Email not found")
    ensures r.Raised? ==> ApiController.ResolveId(req, vars).None?
    ensures var email := ApiController.ResolveEmail(req, vars);
            var id := ApiController.ResolveId(req, vars);
            r.Reply? && r.status == 400 ==>
              email.Some? && id.Some? && EmailIdExists(nodes, root, email.value, id.value) && !AllDigits(id.value)
    ensures var email := ApiController.ResolveEmail(req, vars);
            var id := ApiController.ResolveId(req, vars);
            r.Reply? && r.status == 200 && id.Some? ==>
              email.Some? && EmailIdExists(nodes, root, email.value, id.value) && AllDigits(id.value)
  {
    var email := ApiController.ResolveEmail(req, vars);
    if email.None? || !x.validEmail(email.value) then JsonError(404, "Email not found")
    else
      var id := ApiController.ResolveId(req, vars);
      if id.Some? then
        if !EmailIdExists(nodes, root, email.value, id.value) then JsonError(404, "Email ID not found")
        else if !AllDigits(id.value) then JsonError(400, "Invalid ID")
        else JsonOk(Message(LoadEmailJson(x, nodes, root, email.value, id.value)))
      else
        match GetEmailsOfEmailSpec(x, settings, nodes, root, email.value, true, true)
        case Err(e) => Raised(e)
        case Ok(rows) => JsonOk(Rows(rows))
  }

  /** A missing or invalid address is answered with 404 before storage is
      read: the reply is the same whatever the filesystem holds. */
  lemma InvalidEmailNotFound(x: Externals, settings: Settings, nodes: Nodes, root: Path, req: Request, vars: Request)
    requires var email := ApiController.ResolveEmail(req, vars);
             email.None? || !x.validEmail(email.value)
    ensures HandleEmailRequest(x, settings, nodes, root, req, vars) == JsonError(404, "Email not found")
  {
  }

  /** With an id, the message file is probed before the id is checked: an
      id that is not all digits gets 400 exactly when `<id>.json` exists in
      the mailbox directory and 404 otherwise, whereas the HTML API rejects
      such an id before it reads anything. */
  lemma ExistenceCheckedBeforeDigits(x: Externals, settings: Settings, nodes: Nodes, root: Path, req: Request, vars: Request)
    requires ApiController.ResolveEmail(req, vars).Some?
    requires x.validEmail(ApiController.ResolveEmail(req, vars).value)
    requires ApiController.ResolveId(req, vars).Some?
    requires !AllDigits(ApiController.ResolveId(req, vars).value)
    ensures var email := ApiController.ResolveEmail(req, vars).value;
            var id := ApiController.ResolveId(req, vars).value;
            var r := HandleEmailRequest(x, settings, nodes, root, req, vars);
            && r.Reply? && (r.status == 400 || r.status == 404)
            && (r.status == 400 <==> EmailIdExists(nodes, root, email, id))
            && ApiController.MailGuard(x, nodes, root, Some(email), Some(id)) == Err(ApiController.InvalidId)
  {
    var email := ApiController.ResolveEmail(req, vars).value;
    var id := ApiController.ResolveId(req, vars).value;
    NonDigitIdProbed(x, settings, nodes, root, req, vars, email, id);
    assert !ApiController.IsValidMailId(Some(id));
    ApiController.MailGuardOrder(x, nodes, nodes, root, Some(email), Some(id));
  }

  lemma NonDigitIdProbed(x: Externals, settings: Settings, nodes: Nodes, root: Path, req: Request, vars: Request,
                         email: string, id: string)
    requires ApiController.ResolveEmail(req, vars) == Some(email) && x.validEmail(email)
    requires ApiController.ResolveId(req, vars) == Some(id) && !AllDigits(id)
    ensures HandleEmailRequest(x, settings, nodes, root, req, vars)
            == if EmailIdExists(nodes, root, email, id) then JsonError(400, "Invalid ID") else JsonError(404, "Email ID not found")
  {
  }

  /** A digit id that exists answers with the stored message. */
  lemma ExistingIdShowsMessage(x: Externals, settings: Settings, nodes: Nodes, root: Path, req: Request, vars: Request, v: Json)
    requires ApiController.ResolveEmail(req, vars).Some?
    requires x.validEmail(ApiController.ResolveEmail(req, vars).value)
    requires ApiController.ResolveId(req, vars).Some?
    requires AllDigits(ApiController.ResolveId(req, vars).value)
    requires LoadEmailJson(x, nodes, root, ApiController.ResolveEmail(req, vars).value, ApiController.ResolveId(req, vars).value) == Some(v)
    ensures HandleEmailRequest(x, settings, nodes, root, req, vars) == JsonOk(Message(Some(v)))
  {
    LoadedMessageExists(x, nodes, root, ApiController.ResolveEmail(req, vars).value, ApiController.ResolveId(req, vars).value);
  }

  /** Without an id, the reply is the address's listing, every row with its
      body. */
  lemma NoIdListsWithBodies(x: Externals, settings: Settings, nodes: Nodes, root: Path, req: Request, vars: Request)
    requires ApiController.ResolveEmail(req, vars).Some?
    requires x.validEmail(ApiController.ResolveEmail(req, vars).value)
    requires ApiController.ResolveId(req, vars).None?
    ensures var email := ApiController.ResolveEmail(req, vars).value;
            var listing := GetEmailsOfEmailSpec(x, settings, nodes, root, email, true, true);
            var r := HandleEmailRequest(x, settings, nodes, root, req, vars);
            && (listing.Err? ==> r == Raised(listing.error))
            && (listing.Ok? ==> r == JsonOk(Rows(listing.value))
                                && forall i :: 0 <= i < |listing.value| ==> listing.value[i].body.Some?)
  {
    var email := ApiController.ResolveEmail(req, vars).value;
    if GetEmailsOfEmailSpec(x, settings, nodes, root, email, true, true).Ok? {
      ListingBodiesAsAsked(x, settings, nodes, a => DirFor(nodes, root, a), ListEmailAddressesSpec(x, nodes, root),
                           email, true, true);
    }
  }

  /** `handle`: the two JSON routes; anything else is 404. */
  function Handle(x: Externals, settings: Settings, nodes: Nodes, root: Path, route: string, req: Request, vars: Request): (r: Reply)
    ensures route != "json_listaccounts" && route != "json_email" ==> r == JsonError(404, "Not Found")
  {
    if route == "json_listaccounts" then ListAccounts(x, settings, nodes, root, req)
    else if route == "json_email" then HandleEmailRequest(x, settings, nodes, root, req, vars)
    else JsonError(404, "Not Found")
  }
}
