/** `LegacyCore`: the function library of the older front end. It keeps
    the mail store in the layout `Mailbox` uses, reached from the `web`
    directory as `ROOT/../data`, and differs from the newer code in the
    details its lemmas spell out: loose comparisons, no skipping of
    unreadable entries, `file_exists` where the newer code asks `is_file`,
    and unvalidated header values. */
module LegacyCore {
  import opened Wrappers
  import opened Text
  import opened Ordering
  import opened FileSystem
  import opened Externals
  import opened Sandbox
  import Mailbox
  import Http
  import Webhook

  // ---------------------------------------------------------------------
  // The data directory
  // ---------------------------------------------------------------------

  /** `ROOT . DS . '..' . DS . 'data'`; here `ROOT` is the `web` directory. */
  function DataDir(root: Path): Path {
    root + ["..", "data"]
  }

  /** The legacy `getDirForEmail`: the sanitising and canonical-prefix rule
      of `Sandbox.GetDirForEmail` over the legacy base. */
  function DirFor(nodes: Nodes, root: Path, email: string): Path {
    GetDirForEmail(nodes, DataDir(root), email)
  }

  /** The legacy mailbox of an address under `ROOT` is the new mailbox of
      that address under `ROOT/..`. */
  lemma DirForIsNewLayout(nodes: Nodes, root: Path, email: string)
    ensures DirFor(nodes, root, email) == Mailbox.DirFor(nodes, root + [".."], email)
  {
    assert DataDir(root) == Mailbox.DataDir(root + [".."]);
  }

  /** With the legacy `ROOT` at `<repo>/web` and the new one at
      `<repo>/public/..`, both front ends store mail in `<repo>/data`. */
  lemma SharedDataDirectory(repo: Path)
    ensures Normalize(DataDir(repo + ["web"])) == Normalize(repo) + ["data"]
    ensures Normalize(Mailbox.DataDir(repo + ["public", ".."])) == Normalize(repo) + ["data"]
  {
    UpFromChild(repo, "web");
    assert DataDir(repo + ["web"]) == (repo + ["web"] + [".."]) + ["data"];
    NormalizeChild(repo + ["web"] + [".."], "data");
    UpFromChild(repo, "public");
    assert Mailbox.DataDir(repo + ["public", ".."]) == (repo + ["public"] + [".."]) + ["data"];
    NormalizeChild(repo + ["public"] + [".."], "data");
  }

  /** Going down into a name and back up again leads where it started. */
  lemma UpFromChild(p: Path, name: string)
    requires Plain(name)
    ensures Normalize(p + [name] + [".."]) == Normalize(p)
  {
    NormalizeChild(p, name);
    NormalizeAppend(p + [name], "..");
    assert (Normalize(p) + [name])[..|Normalize(p)|] == Normalize(p);
  }


  // ---------------------------------------------------------------------
  // startsWith / endsWith
  // ---------------------------------------------------------------------

  /** `substr($s, 0, $n)` for `n >= 0`: the first `n` bytes, or all of a
      shorter string. */
  function Head(s: string, n: nat): string {
    if n <= |s| then s[..n] else s
  }

  /** `substr($s, -$n)` for `n > 0`: the last `n` bytes, or all of a
      shorter string. */
  function Tail(s: string, n: nat): string {
    if n <= |s| then s[|s| - n..] else s
  }

  /** `startsWith`. */
  predicate StartsWith(haystack: string, needle: string) {
    Head(haystack, |needle|) == needle
  }

  /** `endsWith`: an empty needle matches everything. */
  predicate EndsWith(haystack: string, needle: string) {
    |needle| == 0 || Tail(haystack, |needle|) == needle
  }

  /** `startsWith` holds exactly when the haystack is the needle followed
      by something. */
  lemma StartsWithMeansPrefix(haystack: string, needle: string)
    ensures StartsWith(haystack, needle) <==> exists rest :: haystack == needle + rest
  {
    if StartsWith(haystack, needle) {
      assert haystack == needle + haystack[|needle|..];
    }
    if exists rest :: haystack == needle + rest {
      var rest :| haystack == needle + rest;
      assert haystack[..|needle|] == needle;
    }
  }

  /** The legacy `endsWith` is the suffix test of `Mailbox.EndsWith`. */
  lemma EndsWithAgrees(haystack: string, needle: string)
    ensures EndsWith(haystack, needle) <==> Mailbox.EndsWith(haystack, needle)
  {
  }

  // ---------------------------------------------------------------------
  // Reading one message
  // ---------------------------------------------------------------------

  /** `getDirForEmail($email).DS.$id.'.json'`. */
  function MessagePath(nodes: Nodes, root: Path, email: string, id: string): Path {
    Mailbox.Join(DirFor(nodes, root, email), id + ".json")
  }

  /** `json_decode(file_get_contents($p), true)`: a missing or unreadable
      file reads as `""`, and `JNull` stands for PHP's null, including every
      decoding failure. */
  function ReadJson(x: Externals, nodes: Nodes, p: Path): Json {
    x.jsonDecode(ReadFile(nodes, p).GetOr("")).GetOr(JNull)
  }

  /** `$j[$k]` for a key that is not a number, on a value that is not a
      string: the entry of an associative array, and null for a missing
      entry or a value that is not an array. */
  function At(j: Json, k: string): Json {
    if j.JObject? && k in j.fields then j.fields[k] else JNull
  }

  /** `$j[$k]` for a key that is not a number: a string, whose offsets are
      numbers, throws a `TypeError`. */
  function Offset(j: Json, k: string): Result<Json, Exception> {
    if j.JStr? then Err(TypeError) else Ok(At(j, k))
  }

  /** The legacy `getEmail`. */
  function GetEmail(x: Externals, nodes: Nodes, root: Path, email: string, id: string): (r: Json)
    ensures Lawful(x) && ReadFile(nodes, MessagePath(nodes, root, email, id)).None? ==> r == JNull
  {
    ReadJson(x, nodes, MessagePath(nodes, root, email, id))
  }

  /** The legacy `getRawEmail`: `$data['raw']`. */
  function GetRawEmail(x: Externals, nodes: Nodes, root: Path, email: string, id: string): (r: Result<Json, Exception>)
    ensures r.Err? <==> GetEmail(x, nodes, root, email, id).JStr?
    ensures r.Err? ==> r.error == TypeError
    ensures var j := GetEmail(x, nodes, root, email, id);
            r.Ok? ==> (r.value != JNull <==> j.JObject? && "raw" in j.fields && j.fields["raw"] != JNull)
  {
    Offset(GetEmail(x, nodes, root, email, id), "raw")
  }

  /** `emailIDExists`: anything at all at the message path. */
  predicate EmailIdExists(nodes: Nodes, root: Path, email: string, id: string) {
    FileExists(nodes, MessagePath(nodes, root, email, id))
  }

  lemma MessagePathIsNewLayout(nodes: Nodes, root: Path, email: string, id: string)
    ensures MessagePath(nodes, root, email, id) == Mailbox.MessagePath(nodes, root + [".."], email, id)
  {
    DirForIsNewLayout(nodes, root, email);
  }

  /** Where the new `loadEmailJson` finds a message, the legacy code reads
      the same document and its `raw` entry, and reports it as existing. */
  lemma LegacyReadsWhatNewLoads(x: Externals, nodes: Nodes, root: Path, email: string, id: string, v: Json)
    requires Mailbox.LoadEmailJson(x, nodes, root + [".."], email, id) == Some(v)
    ensures GetEmail(x, nodes, root, email, id) == v
    ensures EmailIdExists(nodes, root, email, id)
    ensures GetRawEmail(x, nodes, root, email, id) == Ok(if HasKey(v, "raw") then v.fields["raw"] else JNull)
  {
    MessagePathIsNewLayout(nodes, root, email, id);
  }

  /** A missing message reads as null and its raw text as null: nothing
      is thrown. */
  lemma MissingMessageReadsNull(x: Externals, nodes: Nodes, root: Path, email: string, id: string)
    requires Lawful(x)
    requires !EmailIdExists(nodes, root, email, id)
    ensures GetEmail(x, nodes, root, email, id) == JNull
    ensures GetRawEmail(x, nodes, root, email, id) == Ok(JNull)
  {
  }

  /** A message whose document is a JSON string makes `getRawEmail` throw,
      where the new `getRawEmail` answers null. */
  lemma StringMessageRaises(x: Externals, nodes: Nodes, root: Path, email: string, id: string)
    requires GetEmail(x, nodes, root, email, id).JStr?
    ensures GetRawEmail(x, nodes, root, email, id) == Err(TypeError)
    ensures Mailbox.GetRawEmail(x, nodes, root + [".."], email, id).None?
  {
    MessagePathIsNewLayout(nodes, root, email, id);
  }

  /** A directory named `<id>.json` passes the legacy existence test but
      not the new one, which asks for a regular file. */
  lemma DirectoryCountsAsMessage(nodes: Nodes, root: Path, email: string, id: string)
    requires IsDir(nodes, MessagePath(nodes, root, email, id))
    ensures EmailIdExists(nodes, root, email, id)
    ensures !Mailbox.EmailIdExists(nodes, root + [".."], email, id)
  {
    MessagePathIsNewLayout(nodes, root, email, id);
  }

  /** Every message the new code sees exists for the legacy code too. */
  lemma NewMessagesExist(nodes: Nodes, root: Path, email: string, id: string)
    requires Mailbox.EmailIdExists(nodes, root + [".."], email, id)
    ensures EmailIdExists(nodes, root, email, id)
  {
    MessagePathIsNewLayout(nodes, root, email, id);
  }

  // ---------------------------------------------------------------------
  // Attachments and deleting a message
  // ---------------------------------------------------------------------

  /** `attachmentExists($email, $id, $attachment)`: anything at
      `attachments/<id>`, or at `attachments/<id>-<attachment>` when a
      truthy attachment name is given. */
  predicate AttachmentExists(nodes: Nodes, root: Path, email: string, id: string, attachment: Option<string>) {
    var name := if attachment.Some? && PhpTruthy(attachment.value) then id + "-" + attachment.value else id;
    FileExists(nodes, Mailbox.AttachmentPath(DirFor(nodes, root, email), name))
  }

  /** Without a second name the test is on `attachments/<id>` alone, and
      it accepts whatever the new `attachmentExists` accepts. */
  lemma AttachmentExistsWidensNew(nodes: Nodes, root: Path, email: string, name: string)
    requires Mailbox.AttachmentExists(nodes, root + [".."], email, name)
    ensures AttachmentExists(nodes, root, email, name, None)
    ensures AttachmentExists(nodes, root, email, name, Some("0")) == AttachmentExists(nodes, root, email, name, None)
  {
    DirForIsNewLayout(nodes, root, email);
  }

  /** A truthy second name is appended after a dash. */
  lemma AttachmentWithName(nodes: Nodes, root: Path, email: string, id: string, attachment: string)
    requires PhpTruthy(attachment)
    ensures AttachmentExists(nodes, root, email, id, Some(attachment))
            <==> FileExists(nodes, Mailbox.AttachmentPath(DirFor(nodes, root, email), id + "-" + attachment))
  {
  }

  /** `listAttachmentsOfMailID`: the values of `parsed.attachments` when
      that is an array, otherwise none; reading a key of a string throws. */
  function ListAttachmentsOfMailId(x: Externals, nodes: Nodes, root: Path, email: string, id: string): Result<seq<Json>, Exception> {
    var data := GetEmail(x, nodes, root, email, id);
    match Offset(data, "parsed")
    case Err(e) => Err(e)
    case Ok(parsed) =>
      match Offset(parsed, "attachments")
      case Err(e) => Err(e)
      case Ok(atts) => Ok(if IsArray(atts) then ArrayValues(atts) else [])
  }

  /** Where the legacy list does not throw, it is the new list. */
  lemma ListAttachmentsAgree(x: Externals, nodes: Nodes, root: Path, email: string, id: string)
    requires Lawful(x)
    requires ListAttachmentsOfMailId(x, nodes, root, email, id).Ok?
    ensures ListAttachmentsOfMailId(x, nodes, root, email, id).value
            == Mailbox.ListAttachmentsOfMailId(x, nodes, root + [".."], email, id)
  {
    MessagePathIsNewLayout(nodes, root, email, id);
    var file := MessagePath(nodes, root, email, id);
    var content := ReadFile(nodes, file);
    var data := GetEmail(x, nodes, root, email, id);
    if content.Some? && x.jsonDecode(content.value).Some? {
      assert IsFile(nodes, file) && data == x.jsonDecode(content.value).value;
      AttachmentsOfDecoded(data);
    } else {
      assert data == JNull;
      assert ListAttachmentsOfMailId(x, nodes, root, email, id).value == [];
    }
  }

  /** On a decoded message, the legacy offsets and the new `??` reads find
      the same attachment values wherever the legacy ones do not throw. */
  lemma AttachmentsOfDecoded(data: Json)
    requires Offset(data, "parsed").Ok? && Offset(Offset(data, "parsed").value, "attachments").Ok?
    ensures var atts := Offset(Offset(data, "parsed").value, "attachments").value;
            var parsed := Get(data, "parsed");
            var atts' := if parsed.Some? then Get(parsed.value, "attachments") else None;
            (if IsArray(atts) then ArrayValues(atts) else [])
              == (if atts'.Some? && IsArray(atts'.value) then ArrayValues(atts'.value) else [])
  {
  }

  /** The legacy `deleteEmail`: unlink each listed attachment, ignoring
      failures, then return the result of unlinking the message file. An
      exception while listing leaves everything as it was. */
  function DeleteEmailSpec(x: Externals, nodes: Nodes, locked: set<Path>, root: Path, email: string, id: string)
    : (Nodes, Result<bool, Exception>)
  {
    var dir := DirFor(nodes, root, email);
    match ListAttachmentsOfMailId(x, nodes, root, email, id)
    case Err(e) => (nodes, Err(e))
    case Ok(atts) =>
      var afterAtts := Mailbox.UnlinkEach(nodes, locked, Mailbox.AttachmentPaths(x, dir, atts));
      var (after, ok) := UnlinkSpec(afterAtts, locked, Mailbox.Join(dir, id + ".json"));
      (after, Ok(ok))
  }

  /** Unless listing the attachments throws, the legacy delete does exactly
      what the new `deleteEmail` does, so it removes only the message file
      and the files its attachment names reach. */
  lemma DeleteEmailAgrees(x: Externals, nodes: Nodes, locked: set<Path>, root: Path, email: string, id: string)
    requires Lawful(x)
    ensures var (after, r) := DeleteEmailSpec(x, nodes, locked, root, email, id);
            var (after', ok') := Mailbox.DeleteEmailSpec(x, nodes, locked, root + [".."], email, id);
            && (r.Err? ==> after == nodes)
            && (r.Ok? ==> after == after' && r.value == ok')
  {
    if ListAttachmentsOfMailId(x, nodes, root, email, id).Ok? {
      ListAttachmentsAgree(x, nodes, root, email, id);
      DirForIsNewLayout(nodes, root, email);
    }
  }

  /** The legacy `deleteEmail`. */
  method DeleteEmail(fs: Fs, x: Externals, root: Path, email: string, id: string) returns (r: Result<bool, Exception>)
    requires fs.Valid()
    modifies fs
    ensures fs.Valid()
    ensures (fs.nodes, r) == DeleteEmailSpec(x, old(fs.nodes), fs.locked, root, email, id)
  {
    var dir := DirFor(fs.nodes, root, email);
    var atts := ListAttachmentsOfMailId(x, fs.nodes, root, email, id);
    if atts.Err? {
      return Err(atts.error);
    }
    Mailbox.UnlinkAll(fs, Mailbox.AttachmentPaths(x, dir, atts.value));
    var ok := fs.Unlink(Mailbox.Join(dir, id + ".json"));
    r := Ok(ok);
  }

  // ---------------------------------------------------------------------
  // Counting
  // ---------------------------------------------------------------------

  /** `countEmailsOfAddress`: the entries ending in `.json` of the legacy
      mailbox directory, which is the new count over the same data
      directory. */
  method CountEmailsOfAddress(nodes: Nodes, root: Path, email: string) returns (count: nat)
    ensures count == Mailbox.CountEmailsSpec(nodes, root + [".."], email)
  {
    DirForIsNewLayout(nodes, root, email);
    var entries := Entries(nodes, DirFor(nodes, root, email));
    if entries.Some? {
      count := Mailbox.CountJsonEntries(entries.value);
    } else {
      count := 0;
    }
  }

  // ---------------------------------------------------------------------
  // The listing
  // ---------------------------------------------------------------------

  /** One row of the legacy listing: every field as read, without
      defaults. `body` is there when bodies are asked for, and
      `attachments` (whatever `parsed.attachments` holds, its values turned
      into URLs when it is an array) when attachments are asked for. */
  datatype LegacyRow = LegacyRow(
    email: string,
    id: string,
    from: Json,
    subject: Json,
    md5: string,
    maillen: nat,
    body: Option<Json>,
    attachments: Option<Json>)

  /** `$settings['URL'].'/api/attachment/'.$address.'/'.$v`. */
  function AttachmentUrl(x: Externals, settings: Settings, address: string, v: Json): string {
    Setting(settings, "URL") + "/api/attachment/" + address + "/" + Stringify(x, v)
  }

  /** The `foreach` that turns every value of an array into its URL; on a
      value that is not an array PHP only warns and the value stays. */
  function WithUrls(x: Externals, settings: Settings, address: string, atts: Json): Json {
    match atts
    case JList(items) =>
      JList(seq(|items|, i requires 0 <= i < |items| => JStr(AttachmentUrl(x, settings, address, items[i]))))
    case JObject(f) =>
      JObject(map k | k in f :: JStr(AttachmentUrl(x, settings, address, f[k])))
    case _ => atts
  }

  /** Reading a message document throws: the document or its `parsed`
      entry is a string, or `raw` is an array, which `strlen` refuses. */
  predicate Raises(json: Json) {
    json.JStr? || At(json, "parsed").JStr? || IsArray(At(json, "raw"))
  }

  /** What one `readdir` entry contributes: nothing unless its name ends in
      `.json`; otherwise a row, whatever the file holds, or the exception
      reading it throws. */
  function EntryRow(x: Externals, settings: Settings, nodes: Nodes, dir: Path, address: string,
                    entry: string, includeBody: bool, includeAttachments: bool): (r: Result<Option<LegacyRow>, Exception>)
    ensures !EndsWith(entry, ".json") ==> r == Ok(None)
    ensures EndsWith(entry, ".json") ==>
              && (r.Err? <==> Raises(ReadJson(x, nodes, dir + [entry])))
              && (r.Ok? ==> r.value.Some?)
    ensures r.Ok? && r.value.Some? ==>
              && r.value.value.id + ".json" == entry
              && r.value.value.email == address
              && r.value.value.maillen == Utf8Length(Stringify(x, At(ReadJson(x, nodes, dir + [entry]), "raw")))
              && (r.value.value.body.Some? <==> includeBody)
              && (r.value.value.attachments.Some? <==> includeAttachments)
  {
    if !EndsWith(entry, ".json") then Ok(None)
    else
      var time := entry[..|entry| - 5];
      assert time + ".json" == entry;
      var json := ReadJson(x, nodes, dir + [entry]);
      if Raises(json) then Err(TypeError)
      else
        var parsed := At(json, "parsed");
        var raw := Stringify(x, At(json, "raw"));
        Ok(Some(LegacyRow(
          address, time,
          At(parsed, "from"),
          At(parsed, "subject"),
          x.md5(time + raw),
          Utf8Length(raw),
          if includeBody then Some(At(parsed, "body")) else None,
          if includeAttachments then Some(WithUrls(x, settings, address, At(parsed, "attachments"))) else None)))
  }

  /** Step of the listing loop: `$o[$time] = array(...)`. */
  function AddEntry(acc: Result<map<string, LegacyRow>, Exception>, row: Result<Option<LegacyRow>, Exception>)
    : Result<map<string, LegacyRow>, Exception>
  {
    match acc
    case Err(e) => Err(e)
    case Ok(m) =>
      match row
      case Err(e) => Err(e)
      case Ok(None) => Ok(m)
      case Ok(Some(r)) => Ok(m[r.id := r])
  }

  /** The `readdir` loop over one mailbox, entry by entry. */
  function ScanEntries(x: Externals, settings: Settings, nodes: Nodes, dir: Path, address: string,
                       entries: seq<string>, includeBody: bool, includeAttachments: bool,
                       acc: map<string, LegacyRow>): Result<map<string, LegacyRow>, Exception>
    decreases |entries|
  {
    if entries == [] then Ok(acc)
    else AddEntry(ScanEntries(x, settings, nodes, dir, address, entries[..|entries| - 1], includeBody, includeAttachments, acc),
                  EntryRow(x, settings, nodes, dir, address, entries[|entries| - 1], includeBody, includeAttachments))
  }

  /** One mailbox: skipped when `opendir` fails. */
  function ScanMailbox(x: Externals, settings: Settings, nodes: Nodes, root: Path, address: string,
                       includeBody: bool, includeAttachments: bool, acc: map<string, LegacyRow>)
    : Result<map<string, LegacyRow>, Exception>
  {
    var dir := DirFor(nodes, root, address);
    var entries := Entries(nodes, dir);
    if entries.None? then Ok(acc)
    else ScanEntries(x, settings, nodes, dir, address, entries.value, includeBody, includeAttachments, acc)
  }

  /** The `foreach` over the mailboxes. */
  function ScanAll(x: Externals, settings: Settings, nodes: Nodes, root: Path, addresses: seq<string>,
                   includeBody: bool, includeAttachments: bool): Result<map<string, LegacyRow>, Exception>
    decreases |addresses|
  {
    if addresses == [] then Ok(map[])
    else
      var prev := ScanAll(x, settings, nodes, root, addresses[..|addresses| - 1], includeBody, includeAttachments);
      if prev.Err? then prev
      else ScanMailbox(x, settings, nodes, root, addresses[|addresses| - 1], includeBody, includeAttachments, prev.value)
  }

  /** `ksort($o)`: the rows in increasing key order. */
  function SortedRows(m: map<string, LegacyRow>): seq<LegacyRow> {
    var ks := SortedElements(m.Keys);
    seq(|ks|, i requires 0 <= i < |ks| => m[ks[i]])
  }

  /** `listEmailAdresses`: the entries of `ROOT/../data/` that validate as
      addresses. */
  function ListEmailAddressesSpec(x: Externals, nodes: Nodes, root: Path): seq<string> {
    var entries := Entries(nodes, DataDir(root) + [""]);
    if entries.None? then [] else Mailbox.ValidEntries(x, entries.value)
  }

  /** The legacy address list is the new one over the same data directory. */
  lemma AddressListIsNewLayout(x: Externals, nodes: Nodes, root: Path)
    ensures ListEmailAddressesSpec(x, nodes, root) == Mailbox.ListEmailAddressesSpec(x, nodes, root + [".."])
  {
    assert DataDir(root) + [""] == Mailbox.DataDir(root + [".."]) + [""];
  }

  /** `$settings['ADMIN'] && $settings['ADMIN']==$email`: PHP's loose
      comparison, numeric when both sides are numeric strings. */
  predicate IsAdmin(settings: Settings, email: string) {
    PhpTruthy(Setting(settings, "ADMIN")) && PhpLooseEquals(Setting(settings, "ADMIN"), email)
  }

  /** The legacy `getEmailsOfEmail`: every listed mailbox for the admin
      address, otherwise the requested one (even an empty address); rows
      keyed by id, then sorted by key. */
  function Listing(x: Externals, settings: Settings, nodes: Nodes, root: Path, email: string,
                   includeBody: bool, includeAttachments: bool): Result<seq<LegacyRow>, Exception>
  {
    var addresses := if IsAdmin(settings, email) then ListEmailAddressesSpec(x, nodes, root) else [email];
    match ScanAll(x, settings, nodes, root, addresses, includeBody, includeAttachments)
    case Err(e) => Err(e)
    case Ok(m) => Ok(SortedRows(m))
  }

  /** Whoever the new code treats as admin, the legacy code does too. */
  lemma StrictAdminIsLooseAdmin(settings: Settings, email: string)
    requires Mailbox.IsAdminInbox(settings, email)
    ensures IsAdmin(settings, email)
  {
  }

  /** The loose comparison also admits another spelling of a numeric
      admin setting: with `ADMIN` set to `1`, the address `1.0` gets the
      admin view from the legacy code and not from the new code. */
  lemma LooseAdminAcceptsNumericSpelling()
    ensures IsAdmin(map["ADMIN" := "1"], "1.0")
    ensures !Mailbox.IsAdminInbox(map["ADMIN" := "1"], "1.0")
  {
    var settings := map["ADMIN" := "1"];
    assert Setting(settings, "ADMIN") == "1";
    NumericOne();
    NumericOnePointZero();
  }

  /** A decimal without sign or surrounding whitespace is numeric. */
  lemma DecimalIsNumeric(s: string, k: int)
    requires DecimalSplit(s, k) && s != [] && IsDigit(s[0]) && IsDigit(s[|s| - 1])
    ensures PhpIsNumeric(s)
  {
    TrimKeeps(s, PhpNumericSpace);
    assert Trim(s, PhpNumericSpace) == s;
    assert s[0] != '-' && s[0] != '+';
    assert IsDecimalBody(s);
  }

  lemma TrimKeeps(s: string, cs: set<char>)
    requires s != [] && s[0] !in cs && s[|s| - 1] !in cs
    ensures Trim(s, cs) == s
  {
    assert TrimLeft(s, cs) == s;
    assert TrimRight(s, cs) == s;
  }

  lemma NumericOne()
    ensures PhpIsNumeric("1") && PhpFloatval("1") == 1.0
  {
    var s := "1";
    DecimalIsNumeric(s, 1);
    assert TrimLeft(s, PhpNumericSpace) == s;
    assert DigitPrefix(s) == s by {
      assert DigitPrefix(s[1..]) == [];
    }
    assert DigitsValue(s) == 1 by {
      assert s[..0] == [];
    }
  }

  lemma NumericOnePointZero()
    ensures PhpIsNumeric("1.0") && PhpFloatval("1.0") == 1.0
  {
    DecimalIsNumeric("1.0", 1);
    OnePointZeroValue();
  }

  lemma OnePointZeroValue()
    ensures PhpFloatval("1.0") == 1.0
  {
    var s := "1.0";
    assert s[0] !in PhpNumericSpace;
    assert TrimLeft(s, PhpNumericSpace) == s;
    var whole := DigitPrefix(s);
    assert |whole| == 1 by {
      assert IsDigit(s[0]) && !IsDigit(s[1]);
    }
    assert whole == "1";
    assert DigitsValue(whole) == 1 by {
      assert whole[..0] == [];
    }
    var rest := s[1..];
    assert rest[0] == '.';
    var frac := DigitPrefix(rest[1..]);
    assert |frac| == 1 by {
      assert rest[1..] == "0";
    }
    assert frac == "0";
    assert FractionValue(frac) == 0.0 by {
      assert frac[1..] == [];
    }
  }

  // ---- what the listing promises ----

  /** The ids the `.json` entries among `entries` stand for. */
  ghost function JsonIds(entries: seq<string>): set<string> {
    set e | e in entries && |e| >= 5 && EndsWith(e, ".json") :: e[..|e| - 5]
  }

  /** A name that ends in `.json` is its id followed by `.json`. */
  lemma JsonName(e: string)
    requires EndsWith(e, ".json")
    ensures |e| >= 5 && e == e[..|e| - 5] + ".json"
  {
  }

  lemma JsonIdsStep(entries: seq<string>)
    requires entries != []
    ensures var init := entries[..|entries| - 1];
            var last := entries[|entries| - 1];
            JsonIds(entries) == JsonIds(init) + (if EndsWith(last, ".json") then {last[..|last| - 5]} else {})
  {
    var init := entries[..|entries| - 1];
    var last := entries[|entries| - 1];
    assert entries == init + [last];
    if EndsWith(last, ".json") {
      JsonName(last);
    }
  }

  /** The keys a scan adds are exactly the ids of the `.json` entries. */
  lemma {:induction false} ScanEntriesKeys(x: Externals, settings: Settings, nodes: Nodes, dir: Path, address: string,
                                           entries: seq<string>, includeBody: bool, includeAttachments: bool,
                                           acc: map<string, LegacyRow>)
    requires ScanEntries(x, settings, nodes, dir, address, entries, includeBody, includeAttachments, acc).Ok?
    ensures ScanEntries(x, settings, nodes, dir, address, entries, includeBody, includeAttachments, acc).value.Keys
            == acc.Keys + JsonIds(entries)
    decreases |entries|
  {
    if entries != [] {
      var init := entries[..|entries| - 1];
      var last := entries[|entries| - 1];
      var prev := ScanEntries(x, settings, nodes, dir, address, init, includeBody, includeAttachments, acc);
      var row := EntryRow(x, settings, nodes, dir, address, last, includeBody, includeAttachments);
      assert ScanEntries(x, settings, nodes, dir, address, entries, includeBody, includeAttachments, acc)
             == AddEntry(prev, row);
      AddEntryKeys(prev, row, last);
      ScanEntriesKeys(x, settings, nodes, dir, address, init, includeBody, includeAttachments, acc);
      JsonIdsStep(entries);
      var added: set<string> := if EndsWith(last, ".json") then {last[..|last| - 5]} else {};
      UnionAssoc(acc.Keys, JsonIds(init), added);
    }
  }

  lemma UnionAssoc(a: set<string>, b: set<string>, c: set<string>)
    ensures (a + b) + c == a + (b + c)
  {
  }

  /** One step of the scan adds the id of a `.json` entry and nothing else. */
  lemma AddEntryKeys(prev: Result<map<string, LegacyRow>, Exception>, row: Result<Option<LegacyRow>, Exception>,
                     last: string)
    requires AddEntry(prev, row).Ok?
    requires !EndsWith(last, ".json") ==> row == Ok(None)
    requires row.Ok? && row.value.Some? ==> row.value.value.id + ".json" == last
    requires EndsWith(last, ".json") && row.Ok? ==> row.value.Some?
    ensures prev.Ok?
    ensures AddEntry(prev, row).value.Keys
            == prev.value.Keys + (if EndsWith(last, ".json") then {last[..|last| - 5]} else {})
  {
    if EndsWith(last, ".json") {
      JsonName(last);
      var id := row.value.value.id;
      assert id + ".json" == last;
      assert last[..|last| - 5] == (id + ".json")[..|id|] == id;
    }
  }

  /** No `.json` entry repeats an earlier entry. */
  predicate JsonEntriesDistinct(entries: seq<string>) {
    forall i, j :: 0 <= i < j < |entries| && EndsWith(entries[j], ".json") ==> entries[i] != entries[j]
  }

  /** Distinct `.json` names stand for distinct ids, so there are as many
      ids as counted entries. */
  lemma {:induction false} JsonIdsCounted(entries: seq<string>)
    requires JsonEntriesDistinct(entries)
    ensures |JsonIds(entries)| == Mailbox.CountJson(entries)
    decreases |entries|
  {
    if entries != [] {
      var init := entries[..|entries| - 1];
      var last := entries[|entries| - 1];
      assert JsonEntriesDistinct(init);
      JsonIdsCounted(init);
      JsonIdsStep(entries);
      EndsWithAgrees(last, ".json");
      if EndsWith(last, ".json") {
        assert forall i :: 0 <= i < |init| ==> init[i] == entries[i];
        FreshId(init, last);
      }
    }
  }

  /** A `.json` name not among earlier entries adds an id not seen yet. */
  lemma FreshId(init: seq<string>, last: string)
    requires EndsWith(last, ".json")
    requires forall i :: 0 <= i < |init| ==> init[i] != last
    ensures last[..|last| - 5] !in JsonIds(init)
  {
    JsonName(last);
    forall e | e in init && |e| >= 5 && EndsWith(e, ".json")
      ensures e[..|e| - 5] != last[..|last| - 5]
    {
      JsonName(e);
    }
  }

  /** A directory listing names no `.json` entry twice. */
  lemma ListingDistinct(nodes: Nodes, dir: Path)
    requires Entries(nodes, dir).Some?
    ensures JsonEntriesDistinct(Entries(nodes, dir).value)
  {
    var es := Entries(nodes, dir).value;
    var sorted := SortedElements(ChildNames(nodes, Normalize(dir)));
    assert es == [".", ".."] + sorted;
    forall i, j | 0 <= i < j < |es| && EndsWith(es[j], ".json")
      ensures es[i] != es[j]
    {
      JsonName(es[j]);
      if i >= 2 {
        assert es[i] == sorted[i - 2] && es[j] == sorted[j - 2];
        LexIrreflexive(es[i]);
      }
    }
  }

  /** Scanning a single mailbox from nothing. */
  lemma SingleMailboxScan(x: Externals, settings: Settings, nodes: Nodes, root: Path, email: string,
                          includeBody: bool, includeAttachments: bool)
    ensures ScanAll(x, settings, nodes, root, [email], includeBody, includeAttachments)
            == ScanMailbox(x, settings, nodes, root, email, includeBody, includeAttachments, map[])
  {
    assert [email][..0] == [];
  }

  /** For an address other than the admin address, a listing that succeeds
      has exactly as many rows as the mailbox count gives: every `.json`
      entry becomes one row. */
  lemma ListingMatchesCount(x: Externals, settings: Settings, nodes: Nodes, root: Path, email: string,
                            includeBody: bool, includeAttachments: bool)
    requires !IsAdmin(settings, email)
    requires Listing(x, settings, nodes, root, email, includeBody, includeAttachments).Ok?
    ensures |Listing(x, settings, nodes, root, email, includeBody, includeAttachments).value|
            == Mailbox.CountEmailsSpec(nodes, root + [".."], email)
  {
    SingleMailboxScan(x, settings, nodes, root, email, includeBody, includeAttachments);
    DirForIsNewLayout(nodes, root, email);
    var dir := DirFor(nodes, root, email);
    var m := ScanAll(x, settings, nodes, root, [email], includeBody, includeAttachments).value;
    var entries := Entries(nodes, dir);
    if entries.Some? {
      ScanEntriesKeys(x, settings, nodes, dir, email, entries.value, includeBody, includeAttachments, map[]);
      ListingDistinct(nodes, dir);
      JsonIdsCounted(entries.value);
    }
    assert |m.Keys| == |m|;
  }

  /** Every row is stored under its own id and comes from one of the
      scanned addresses. */
  ghost predicate KeyedRows(m: map<string, LegacyRow>, addresses: seq<string>) {
    forall k :: k in m ==> m[k].id == k && m[k].email in addresses
  }

  lemma {:induction false} ScanEntriesKeyed(x: Externals, settings: Settings, nodes: Nodes, dir: Path, address: string,
                                            entries: seq<string>, includeBody: bool, includeAttachments: bool,
                                            acc: map<string, LegacyRow>, addresses: seq<string>)
    requires KeyedRows(acc, addresses) && address in addresses
    requires ScanEntries(x, settings, nodes, dir, address, entries, includeBody, includeAttachments, acc).Ok?
    ensures KeyedRows(ScanEntries(x, settings, nodes, dir, address, entries, includeBody, includeAttachments, acc).value, addresses)
    decreases |entries|
  {
    if entries != [] {
      ScanEntriesKeyed(x, settings, nodes, dir, address, entries[..|entries| - 1], includeBody, includeAttachments, acc, addresses);
    }
  }

  lemma {:induction false} ScanAllKeyed(x: Externals, settings: Settings, nodes: Nodes, root: Path,
                                        addresses: seq<string>, includeBody: bool, includeAttachments: bool)
    requires ScanAll(x, settings, nodes, root, addresses, includeBody, includeAttachments).Ok?
    ensures KeyedRows(ScanAll(x, settings, nodes, root, addresses, includeBody, includeAttachments).value, addresses)
    decreases |addresses|
  {
    if addresses != [] {
      var init := addresses[..|addresses| - 1];
      var a := addresses[|addresses| - 1];
      ScanAllKeyed(x, settings, nodes, root, init, includeBody, includeAttachments);
      var m := ScanAll(x, settings, nodes, root, init, includeBody, includeAttachments).value;
      assert KeyedRows(m, addresses) by {
        forall k | k in m
          ensures m[k].email in addresses
        {
          var j :| 0 <= j < |init| && init[j] == m[k].email;
          assert addresses[j] == init[j];
        }
      }
      var dir := DirFor(nodes, root, a);
      var entries := Entries(nodes, dir);
      if entries.Some? {
        ScanEntriesKeyed(x, settings, nodes, dir, a, entries.value, includeBody, includeAttachments, m, addresses);
      }
    }
  }

  /** `ksort` of rows stored under their ids: ids strictly increase. */
  lemma SortedRowsById(m: map<string, LegacyRow>, addresses: seq<string>)
    requires KeyedRows(m, addresses)
    ensures var rows := SortedRows(m);
            && (forall i, j :: 0 <= i < j < |rows| ==> Less(rows[i].id, rows[j].id))
            && (forall i :: 0 <= i < |rows| ==> rows[i].email in addresses)
  {
    var ks := SortedElements(m.Keys);
    var rows := SortedRows(m);
    forall i | 0 <= i < |rows|
      ensures rows[i].id == ks[i] && rows[i].email in addresses
    {
      assert ks[i] in m;
    }
  }

  /** The listing is sorted by id with no id twice, and every row belongs to
      a scanned mailbox: the listed addresses for the admin, the requested
      address otherwise. */
  lemma ListingSortedByUniqueId(x: Externals, settings: Settings, nodes: Nodes, root: Path, email: string,
                                includeBody: bool, includeAttachments: bool)
    requires Listing(x, settings, nodes, root, email, includeBody, includeAttachments).Ok?
    ensures var rows := Listing(x, settings, nodes, root, email, includeBody, includeAttachments).value;
            && (forall i, j :: 0 <= i < j < |rows| ==> Less(rows[i].id, rows[j].id))
            && (forall i :: 0 <= i < |rows| ==>
                  if IsAdmin(settings, email) then rows[i].email in ListEmailAddressesSpec(x, nodes, root)
                  else rows[i].email == email)
  {
    var addresses := if IsAdmin(settings, email) then ListEmailAddressesSpec(x, nodes, root) else [email];
    ScanAllKeyed(x, settings, nodes, root, addresses, includeBody, includeAttachments);
    SortedRowsById(ScanAll(x, settings, nodes, root, addresses, includeBody, includeAttachments).value, addresses);
  }

  /** A webhook configuration stored as `webhook.json` is listed as a
      message with id `webhook`, no sender and length 0: the legacy loop
      takes every `.json` entry, where the new one skips entries without a
      `parsed` part. */
  lemma WebhookConfigListed(x: Externals, settings: Settings, nodes: Nodes, dir: Path, address: string,
                            includeBody: bool, includeAttachments: bool)
    requires ReadJson(x, nodes, dir + ["webhook.json"]).JObject?
    requires "parsed" !in ReadJson(x, nodes, dir + ["webhook.json"]).fields
    requires "raw" !in ReadJson(x, nodes, dir + ["webhook.json"]).fields
    ensures var r := EntryRow(x, settings, nodes, dir, address, "webhook.json", includeBody, includeAttachments);
            && r.Ok? && r.value.Some?
            && r.value.value.id == "webhook"
            && r.value.value.from == JNull
            && r.value.value.maillen == 0
  {
    assert Tail("webhook.json", 5) == ".json";
    assert "webhook.json"[..7] == "webhook";
  }

  // ---- the listing, step by step ----

  /** An error in a prefix of a mailbox's entries is the error of the whole
      mailbox. */
  lemma {:induction false} ScanEntriesErrSticks(x: Externals, settings: Settings, nodes: Nodes, dir: Path, address: string,
                                                entries: seq<string>, n: nat, includeBody: bool, includeAttachments: bool,
                                                acc: map<string, LegacyRow>)
    requires n <= |entries|
    requires ScanEntries(x, settings, nodes, dir, address, entries[..n], includeBody, includeAttachments, acc).Err?
    ensures ScanEntries(x, settings, nodes, dir, address, entries, includeBody, includeAttachments, acc)
            == ScanEntries(x, settings, nodes, dir, address, entries[..n], includeBody, includeAttachments, acc)
    decreases |entries| - n
  {
    if n < |entries| {
      assert entries[..n + 1][..n] == entries[..n];
      ScanEntriesErrSticks(x, settings, nodes, dir, address, entries, n + 1, includeBody, includeAttachments, acc);
    } else {
      assert entries[..n] == entries;
    }
  }

  lemma {:induction false} ScanAllErrSticks(x: Externals, settings: Settings, nodes: Nodes, root: Path,
                                            addresses: seq<string>, n: nat, includeBody: bool, includeAttachments: bool)
    requires n <= |addresses|
    requires ScanAll(x, settings, nodes, root, addresses[..n], includeBody, includeAttachments).Err?
    ensures ScanAll(x, settings, nodes, root, addresses, includeBody, includeAttachments)
            == ScanAll(x, settings, nodes, root, addresses[..n], includeBody, includeAttachments)
    decreases |addresses| - n
  {
    if n < |addresses| {
      assert addresses[..n + 1][..n] == addresses[..n];
      ScanAllErrSticks(x, settings, nodes, root, addresses, n + 1, includeBody, includeAttachments);
    } else {
      assert addresses[..n] == addresses;
    }
  }

  /** The `readdir` loop over one opened mailbox; an exception ends it. */
  method ScanDirectory(x: Externals, settings: Settings, nodes: Nodes, dir: Path, address: string,
                       entries: seq<string>, includeBody: bool, includeAttachments: bool,
                       start: map<string, LegacyRow>) returns (r: Result<map<string, LegacyRow>, Exception>)
    ensures r == ScanEntries(x, settings, nodes, dir, address, entries, includeBody, includeAttachments, start)
  {
    var result := start;
    var j := 0;
    while j < |entries|
      invariant 0 <= j <= |entries|
      invariant ScanEntries(x, settings, nodes, dir, address, entries[..j], includeBody, includeAttachments, start) == Ok(result)
    {
      assert entries[..j + 1][..j] == entries[..j];
      var row := EntryRow(x, settings, nodes, dir, address, entries[j], includeBody, includeAttachments);
      match row {
        case Err(e) =>
          ScanEntriesErrSticks(x, settings, nodes, dir, address, entries, j + 1, includeBody, includeAttachments, start);
          return Err(e);
        case Ok(None) =>
        case Ok(Some(rw)) =>
          result := result[rw.id := rw];
      }
      j := j + 1;
    }
    assert entries[..|entries|] == entries;
    r := Ok(result);
  }

  lemma ScanAllStep(x: Externals, settings: Settings, nodes: Nodes, root: Path, addresses: seq<string>, i: nat,
                    includeBody: bool, includeAttachments: bool, acc: map<string, LegacyRow>)
    requires i < |addresses|
    requires ScanAll(x, settings, nodes, root, addresses[..i], includeBody, includeAttachments) == Ok(acc)
    ensures ScanAll(x, settings, nodes, root, addresses[..i + 1], includeBody, includeAttachments)
            == ScanMailbox(x, settings, nodes, root, addresses[i], includeBody, includeAttachments, acc)
  {
    assert addresses[..i + 1][..i] == addresses[..i];
  }

  /** One pass of the `foreach`: a mailbox that cannot be opened is
      skipped. */
  method ScanOneMailbox(x: Externals, settings: Settings, nodes: Nodes, root: Path, address: string,
                        includeBody: bool, includeAttachments: bool, acc: map<string, LegacyRow>)
    returns (r: Result<map<string, LegacyRow>, Exception>)
    ensures r == ScanMailbox(x, settings, nodes, root, address, includeBody, includeAttachments, acc)
  {
    var dir := DirFor(nodes, root, address);
    var entries := Entries(nodes, dir);
    if entries.Some? {
      r := ScanDirectory(x, settings, nodes, dir, address, entries.value, includeBody, includeAttachments, acc);
    } else {
      r := Ok(acc);
    }
  }

  /** The `foreach` over the mailboxes; an exception leaves it. */
  method ScanAddresses(x: Externals, settings: Settings, nodes: Nodes, root: Path, addresses: seq<string>,
                       includeBody: bool, includeAttachments: bool) returns (r: Result<map<string, LegacyRow>, Exception>)
    ensures r == ScanAll(x, settings, nodes, root, addresses, includeBody, includeAttachments)
  {
    var result: map<string, LegacyRow> := map[];
    var i := 0;
    while i < |addresses|
      invariant 0 <= i <= |addresses|
      invariant ScanAll(x, settings, nodes, root, addresses[..i], includeBody, includeAttachments) == Ok(result)
    {
      ScanAllStep(x, settings, nodes, root, addresses, i, includeBody, includeAttachments, result);
      var scanned := ScanOneMailbox(x, settings, nodes, root, addresses[i], includeBody, includeAttachments, result);
      if scanned.Err? {
        ScanAllErrSticks(x, settings, nodes, root, addresses, i + 1, includeBody, includeAttachments);
        return Err(scanned.error);
      }
      result := scanned.value;
      i := i + 1;
    }
    assert addresses[..|addresses|] == addresses;
    r := Ok(result);
  }

  /** The legacy `getEmailsOfEmail`. */
  method GetEmailsOfEmail(x: Externals, settings: Settings, nodes: Nodes, root: Path, email: string,
                          includeBody: bool, includeAttachments: bool) returns (r: Result<seq<LegacyRow>, Exception>)
    ensures r == Listing(x, settings, nodes, root, email, includeBody, includeAttachments)
  {
    var addresses: seq<string>;
    if IsAdmin(settings, email) {
      addresses := Mailbox.ListEmailAddresses(x, nodes, root + [".."]);
      AddressListIsNewLayout(x, nodes, root);
    } else {
      addresses := [email];
    }
    var scanned := ScanAddresses(x, settings, nodes, root, addresses, includeBody, includeAttachments);
    if scanned.Err? {
      return Err(scanned.error);
    }
    r := Ok(SortedRows(scanned.value));
  }

  // ---------------------------------------------------------------------
  // The client address
  // ---------------------------------------------------------------------

  /** The legacy `getUserIP`: a non-empty `CF-Connecting-IP` is taken as it
      stands; otherwise `X-Forwarded-For` (only its first element, trimmed,
      when it holds a comma; the whole value, untrimmed, otherwise) if it
      validates, else `Client-IP` if it validates, else `REMOTE_ADDR`
      unchecked. */
  function UserIp(x: Externals, server: Http.Server): string {
    var cf := Http.ServerValue(server, "HTTP_CF_CONNECTING_IP");
    if PhpTruthy(cf) then cf
    else
      var client := Http.ServerValue(server, "HTTP_CLIENT_IP");
      var forward0 := Http.ServerValue(server, "HTTP_X_FORWARDED_FOR");
      var remote := Http.ServerValue(server, "REMOTE_ADDR");
      var forward := if ',' in forward0 then Trim(SplitOn(forward0, ',')[0], PhpTrimChars) else forward0;
      if x.validIp(forward) then forward
      else if x.validIp(client) then client
      else remote
  }

  /** The chosen address is the Cloudflare header, a value that validates,
      or the unchecked `REMOTE_ADDR`; it is never a later element of a
      forwarded list. */
  lemma UserIpOrigin(x: Externals, server: Http.Server)
    ensures var ip := UserIp(x, server);
            var cf := Http.ServerValue(server, "HTTP_CF_CONNECTING_IP");
            && (PhpTruthy(cf) ==> ip == cf)
            && (!PhpTruthy(cf) ==> x.validIp(ip) || ip == Http.ServerValue(server, "REMOTE_ADDR"))
            && (!PhpTruthy(cf) && ',' in Http.ServerValue(server, "HTTP_X_FORWARDED_FOR") ==>
                  || ip == Trim(SplitOn(Http.ServerValue(server, "HTTP_X_FORWARDED_FOR"), ',')[0], PhpTrimChars)
                  || ip == Http.ServerValue(server, "HTTP_CLIENT_IP")
                  || ip == Http.ServerValue(server, "REMOTE_ADDR"))
  {
  }

  /** A Cloudflare header that does not validate is still returned by the
      legacy code, and never by the new code, which only ever returns an
      empty or valid address. */
  lemma UnvalidatedCloudflareHeader(x: Externals, server: Http.Server)
    requires Lawful(x)
    requires PhpTruthy(Http.ServerValue(server, "HTTP_CF_CONNECTING_IP"))
    requires !x.validIp(Http.ServerValue(server, "HTTP_CF_CONNECTING_IP"))
    ensures UserIp(x, server) == Http.ServerValue(server, "HTTP_CF_CONNECTING_IP")
    ensures !x.validIp(UserIp(x, server))
    ensures UserIp(x, server) != Http.UserIpSpec(x, server)
  {
    Http.UserIpIsValidHeaderValue(x, server);
  }

  /** Without proxy headers the two agree, as long as `REMOTE_ADDR` is
      missing or valid. */
  lemma UserIpAgreesWithoutProxies(x: Externals, server: Http.Server)
    requires Lawful(x)
    requires Http.ServerValue(server, "HTTP_CF_CONNECTING_IP") == ""
    requires Http.ServerValue(server, "HTTP_X_FORWARDED_FOR") == ""
    requires Http.ServerValue(server, "REMOTE_ADDR") == "" || x.validIp(Http.ServerValue(server, "REMOTE_ADDR"))
    ensures UserIp(x, server) == Http.UserIpSpec(x, server)
  {
  }

  // ---------------------------------------------------------------------
  // The range test
  // ---------------------------------------------------------------------

  /** A string PHP 8 accepts as an operand of `/`: after leading
      whitespace and an optional sign it starts with a digit, or with a
      point and a digit. Any other string, the empty one included, makes the
      division throw `TypeError`. */
  predicate LeadingNumeric(s: string) {
    var t := TrimLeft(s, PhpNumericSpace);
    var u := if t != [] && (t[0] == '-' || t[0] == '+') then t[1..] else t;
    (u != [] && IsDigit(u[0])) || (|u| >= 2 && u[0] == '.' && IsDigit(u[1]))
  }

  /** The prefix as the legacy code divides it: with no `/` the
      destructured element is missing, reads as null and divides as 0;
      otherwise PHP's number at the start of the text after the first `/`,
      which must have one. The code never casts it to an integer. */
  function PrefixValue(range: string): Result<real, Exception> {
    var parts := SplitOn(range, '/');
    if |parts| == 1 then Ok(0.0)
    else if LeadingNumeric(parts[1]) then Ok(PhpFloatval(parts[1]))
    else Err(TypeError)
  }

  /** PHP's conversion of a float to an integer: toward zero. */
  function Trunc(r: real): int {
    if r >= 0.0 then r.Floor else -((-r).Floor)
  }

  /** The byte the legacy loop appends when `bits` bits remain:
      `chr((pow(2, bits) - 1) << (8 - bits))`, where `<<` truncates both
      float operands to integers. */
  function LoopByte(x: Externals, bits: real): Byte
    requires 0.0 < bits <= 8.0
  {
    Http.Chr(Trunc(x.pow2(bits) - 1.0) * Pow2((8.0 - bits).Floor))
  }

  /** The legacy mask for a prefix value `v`: `floor(v / 8)` bytes
      `chr(255)` (a `ValueError` from `str_repeat` when that is negative),
      then one loop byte for the `v - 8 * floor(v / 8)` bits left over, if
      any, then zero padding to `size`. The left-over is below 8, so the
      loop's `max(0, min(8, ..))` leaves it alone and the loop runs at most
      once. */
  function LegacyMask(x: Externals, v: real, size: nat): Result<seq<Byte>, Exception> {
    var solid := (v / 8.0).Floor;
    if solid < 0 then Err(ValueError)
    else
      var left := v - (8 * solid) as real;
      var tail := if left > 0.0 then [LoopByte(x, left)] else [];
      Ok(Http.StrPad(Http.StrRepeat(Http.Chr(255), solid) + tail, size, Http.Chr(0)))
  }

  /** The legacy `isIPInRange` for a range without a comma: the addresses
      are converted first (`InvalidArgumentException`), then the prefix is
      divided (`TypeError` when it is not numeric), then the mask is built
      (`ValueError` when it is negative) and the masked strings compared. */
  function SingleRangeMatch(x: Externals, ip: string, range: string): Result<bool, Exception> {
    var ipBin := x.inetPton(ip);
    var netBin := x.inetPton(Http.NetPart(range));
    if ipBin.None? || netBin.None? then Err(InvalidArgument)
    else
      match PrefixValue(range)
      case Err(e) => Err(e)
      case Ok(v) =>
        match LegacyMask(x, v, Http.Width(ip))
        case Err(e) => Err(e)
        case Ok(mask) => Ok(Http.StrAnd(ipBin.value, mask) == Http.StrAnd(netBin.value, mask))
  }

  /** The `foreach` over the sub-ranges: the first match answers true, an
      exception escapes, and false needs every sub-range to say false. */
  function AnyRange(x: Externals, ip: string, ranges: seq<string>): Result<bool, Exception> {
    if ranges == [] then Ok(false)
    else
      var first := SingleRangeMatch(x, ip, ranges[0]);
      if first.Err? || first.value then first else AnyRange(x, ip, ranges[1..])
  }

  /** The legacy `isIPInRange`. */
  function RangeMatch(x: Externals, ip: string, range: string): Result<bool, Exception> {
    if ',' in range then AnyRange(x, ip, Http.TrimmedPieces(range)) else SingleRangeMatch(x, ip, range)
  }

  /** A prefix the legacy code can divide by 8. */
  predicate DivisiblePrefix(range: string) {
    |SplitOn(range, '/')| == 1 || LeadingNumeric(SplitOn(range, '/')[1])
  }

  /** A prefix the legacy code reads as a whole number within PHP's integer
      range: absent, or written with no fraction digit other than 0. These
      are the prefixes on which the legacy division and the new `(int)` cast
      can agree. */
  predicate IntegralPrefix(range: string) {
    var parts := SplitOn(range, '/');
    |parts| == 1 || WholeDecimal(parts[1])
  }

  /** For a whole prefix length the legacy float mask is the new one. */
  lemma LegacyMaskOfWhole(x: Externals, m: nat, size: nat)
    requires ExactPow(x)
    ensures LegacyMask(x, m as real, size) == Ok(Http.Mask(m, size))
  {
    WholeDivision(m);
    var left := (m % 8) as real;
    LegacyMaskOfParts(x, m as real, size, m / 8, left);
    if m % 8 > 0 {
      LoopByteOfWhole(x, m % 8);
      WholeMask(m, size, [LoopByte(x, left)]);
    } else {
      WholeMask(m, size, []);
    }
  }

  /** The legacy mask once `floor(v / 8)` and the bits left over are known. */
  lemma LegacyMaskOfParts(x: Externals, v: real, size: nat, solid: nat, left: real)
    requires (v / 8.0).Floor == solid && v - (8 * solid) as real == left
    ensures 0.0 <= left < 8.0
    ensures LegacyMask(x, v, size)
         == Ok(Http.StrPad(Http.StrRepeat(Http.Chr(255), solid) + (if left > 0.0 then [LoopByte(x, left)] else []), size, Http.Chr(0)))
  {
  }

  /** `floor(m / 8)` bytes `chr(255)`, then the byte with the remaining
      `m % 8` top bits set if any remain, padded with `chr(0)`, is the mask
      of the first `m` bits. */
  lemma WholeMask(m: nat, size: nat, tail: seq<Byte>)
    requires tail == if m % 8 > 0 then [Http.Chr((Pow2(m % 8) - 1) * Pow2(8 - m % 8))] else []
    ensures Http.StrPad(Http.StrRepeat(Http.Chr(255), m / 8) + tail, size, Http.Chr(0)) == Http.Mask(m, size)
  {
    var solid := Http.StrRepeat(Http.Chr(255), m / 8);
    if m % 8 > 0 {
      PartialByteMask(m, solid, tail);
    } else {
      assert solid + tail == solid;
      SolidOnlyMask(m, solid);
    }
    Http.PaddedMask(solid + tail, m, size);
  }

  /** The solid bytes and the partial byte cover the bits below `m`. */
  lemma PartialByteMask(m: nat, solid: seq<Byte>, tail: seq<Byte>)
    requires m % 8 > 0 && solid == Http.StrRepeat(Http.Chr(255), m / 8)
    requires tail == [Http.Chr((Pow2(m % 8) - 1) * Pow2(8 - m % 8))]
    ensures |solid + tail| == (m + 7) / 8 && Http.MaskBitsBelow(solid + tail, m)
  {
    Http.SolidMask(m);
    Http.MaskStep(solid, m, m % 8);
  }

  /** With no bits left over, the solid bytes alone cover the bits below `m`. */
  lemma SolidOnlyMask(m: nat, solid: seq<Byte>)
    requires m % 8 == 0 && solid == Http.StrRepeat(Http.Chr(255), m / 8)
    ensures |solid| == (m + 7) / 8 && Http.MaskBitsBelow(solid, m)
  {
    Http.SolidMask(m);
  }

  /** `floor(m / 8)` of a whole `m` is its integer quotient, and what is
      left over is its remainder. */
  lemma WholeDivision(m: nat)
    ensures (m as real / 8.0).Floor == m / 8
    ensures m as real - (8 * (m / 8)) as real == (m % 8) as real
  {
    var q := m / 8;
    assert q as real <= m as real / 8.0 < (q + 1) as real;
  }

  /** With a whole number of bits left, the loop byte is the new code's. */
  lemma LoopByteOfWhole(x: Externals, bits: nat)
    requires ExactPow(x) && 0 < bits <= 8
    ensures LoopByte(x, bits as real) == Http.Chr((Pow2(bits) - 1) * Pow2(8 - bits))
  {
    var b := bits as real;
    PowOfWhole(x, bits);
    LoopByteOf(x.pow2(b), b, Pow2(bits), bits);
    var high, low := Trunc(x.pow2(b) - 1.0), (8.0 - b).Floor;
    assert high == Pow2(bits) - 1 && low == 8 - bits;
    assert LoopByte(x, b) == Http.Chr(high * Pow2(low));
  }

  /** `pow(2, b)` of a whole `b` up to 8 is exact. */
  lemma PowOfWhole(x: Externals, bits: nat)
    requires ExactPow(x) && bits <= 8
    ensures x.pow2(bits as real) == Pow2(bits) as real
  {
    assert (bits as real).Floor == bits;
  }

  /** The loop byte's two operands, once `pow(2, b)` is the whole `p`. */
  lemma LoopByteOf(pow: real, b: real, p: nat, bits: nat)
    requires b == bits as real && 0 < bits <= 8 && pow == p as real && p >= 1
    ensures Trunc(pow - 1.0) == p - 1
    ensures (8.0 - b).Floor == 8 - bits
  {
  }

  /** The legacy mask fails, with `ValueError`, exactly for a negative
      prefix value. */
  lemma LegacyMaskFails(x: Externals, v: real, size: nat)
    ensures LegacyMask(x, v, size).Err? <==> v < 0.0
    ensures LegacyMask(x, v, size).Err? ==> LegacyMask(x, v, size).error == ValueError
  {
  }

  /** A prefix the legacy code divides and reads as a whole number is the
      number the new code's `(int)` cast reads. */
  lemma IntegralPrefixReads(range: string)
    requires IntegralPrefix(range) && DivisiblePrefix(range)
    ensures PrefixValue(range) == Ok(Http.PrefixLength(range) as real)
  {
    var parts := SplitOn(range, '/');
    if |parts| > 1 {
      WholeDecimalReads(parts[1]);
    }
  }

  /** For one range the legacy test is the new one when the prefix is a
      whole number, except that a prefix that is not numeric throws
      `TypeError` where the new code reads 0. */
  lemma SingleRangeAgrees(x: Externals, ip: string, range: string)
    requires ExactPow(x)
    ensures IntegralPrefix(range) ==>
              SingleRangeMatch(x, ip, range)
              == if x.inetPton(ip).Some? && x.inetPton(Http.NetPart(range)).Some? && !DivisiblePrefix(range)
                 then Err(TypeError)
                 else Http.SingleRangeMatch(x, ip, range)
  {
    if IntegralPrefix(range) && DivisiblePrefix(range) {
      IntegralPrefixReads(range);
      var m := Http.PrefixLength(range);
      LegacyMaskFails(x, m as real, Http.Width(ip));
      if m >= 0 {
        LegacyMaskOfWhole(x, m, Http.Width(ip));
      }
    }
  }

  /** Once the addresses parse and the prefix divides, the legacy test
      throws `ValueError` exactly when the prefix is negative, fractions
      such as `-0.5` included, which the new code's `(int)` reads as 0. */
  lemma NegativePrefixRaises(x: Externals, ip: string, range: string)
    requires x.inetPton(ip).Some? && x.inetPton(Http.NetPart(range)).Some? && PrefixValue(range).Ok?
    ensures SingleRangeMatch(x, ip, range) == Err(ValueError) <==> PrefixValue(range).value < 0.0
  {
    LegacyMaskFails(x, PrefixValue(range).value, Http.Width(ip));
  }

  /** A fractional prefix is not cut to a whole number: with `/23.5` the
      legacy loop appends `chr(180)`, since `pow(2, 7.5)` is 181.02, where
      the new code's `/23` has `chr(254)`. The third bytes of `10.0.2.0`
      and `10.0.0.0` agree under the first and differ under the second, so
      `10.0.2.0` is inside `10.0.0.0/23.5` for the legacy code and outside
      for the new one. */
  lemma FractionalPrefixMask(x: Externals)
    requires 181.0 <= x.pow2(7.5) < 182.0
    ensures LegacyMask(x, 23.5, 4) == Ok([Http.Chr(255), Http.Chr(255), Http.Chr(180), Http.Chr(0)])
    ensures Http.Mask(23, 4)[2] == Http.Chr(254)
    ensures Http.AndByte(Http.Chr(2), Http.Chr(180)) == Http.AndByte(Http.Chr(0), Http.Chr(180))
    ensures Http.AndByte(Http.Chr(2), Http.Chr(254)) != Http.AndByte(Http.Chr(0), Http.Chr(254))
  {
    LegacyMaskOfFraction(x);
    ThirdByteOfMask23();
    ThirdBytes();
  }

  lemma LegacyMaskOfFraction(x: Externals)
    requires 181.0 <= x.pow2(7.5) < 182.0
    ensures LegacyMask(x, 23.5, 4) == Ok([Http.Chr(255), Http.Chr(255), Http.Chr(180), Http.Chr(0)])
  {
    assert (23.5 / 8.0).Floor == 2;
    assert 23.5 - (8 * 2) as real == 7.5;
    assert (8.0 - 7.5).Floor == 0;
    assert Trunc(x.pow2(7.5) - 1.0) == 180;
    var solid := Http.StrRepeat(Http.Chr(255), 2);
    assert LegacyMask(x, 23.5, 4) == Ok(Http.StrPad(solid + [LoopByte(x, 7.5)], 4, Http.Chr(0)));
    assert LoopByte(x, 7.5) == Http.Chr(180);
    assert solid == [Http.Chr(255), Http.Chr(255)];
    assert Http.StrPad(solid + [Http.Chr(180)], 4, Http.Chr(0)) == solid + [Http.Chr(180)] + [Http.Chr(0)];
    assert solid + [Http.Chr(180)] + [Http.Chr(0)] == [Http.Chr(255), Http.Chr(255), Http.Chr(180), Http.Chr(0)];
  }

  lemma ThirdByteOfMask23()
    ensures Http.Mask(23, 4)[2] == Http.Chr(254)
  {
    ChrOfTopBits(7);
    var third := Http.Mask(23, 4)[2];
    assert forall j :: 0 <= j < 8 ==> (third[j] <==> j < 7);
  }

  /** `chr(254)` has its top seven bits set, and `chr(0)` none. */
  lemma ChrOfTopBits(k: nat)
    requires k == 0 || k == 7
    ensures Http.TopBits(Http.Chr(if k == 7 then 254 else 0), k)
  {
    Http.ChrOfShiftedOnes(k);
    assert Pow2(7) == 128;
  }

  /** Bit `j` of a number written in `w` bits, above the last one, is bit
      `j` of half the number written in `w - 1` bits. */
  lemma BitsOfHalf(n: nat, w: nat, j: nat)
    requires j + 1 < w
    ensures Http.BitsOf(n, w)[j] == Http.BitsOf(n / 2, w - 1)[j]
  {
  }

  /** No bit of 0 is set. */
  lemma {:induction false} BitsOfZero(w: nat)
    ensures forall j :: 0 <= j < w ==> !Http.BitsOf(0, w)[j]
  {
    if w > 0 {
      BitsOfZero(w - 1);
      assert forall j :: 0 <= j < w - 1 ==> Http.BitsOf(0, w)[j] == Http.BitsOf(0, w - 1)[j];
    }
  }

  /** `chr(2)` has only bit 6 set; `chr(180)` does not have bit 6. */
  lemma SmallChrBits()
    ensures forall j :: 0 <= j < 8 ==> (Http.Chr(2)[j] <==> j == 6)
    ensures !Http.Chr(180)[6]
  {
    assert 2 % 256 == 2 && 180 % 256 == 180;
    BitsOfHalf(180, 8, 6);
    BitsOfZero(6);
    forall j | 0 <= j < 6
      ensures !Http.BitsOf(2, 8)[j]
    {
      BitsOfHalf(2, 8, j);
      BitsOfHalf(1, 7, j);
    }
  }

  lemma ThirdBytes()
    ensures Http.AndByte(Http.Chr(2), Http.Chr(180)) == Http.AndByte(Http.Chr(0), Http.Chr(180))
    ensures Http.AndByte(Http.Chr(2), Http.Chr(254)) != Http.AndByte(Http.Chr(0), Http.Chr(254))
  {
    SmallChrBits();
    ChrOfTopBits(0);
    ChrOfTopBits(7);
    var a := Http.AndByte(Http.Chr(2), Http.Chr(180));
    var b := Http.AndByte(Http.Chr(0), Http.Chr(180));
    assert forall j :: 0 <= j < 8 ==> !a[j] && !b[j];
    assert Http.AndByte(Http.Chr(2), Http.Chr(254))[6];
  }

  /** When every sub-range has a prefix the legacy code can divide and
      reads as a whole number, the legacy and the new tests of a list
      agree. */
  lemma {:induction false} AnyRangeAgrees(x: Externals, ip: string, ranges: seq<string>)
    requires ExactPow(x)
    requires forall i :: 0 <= i < |ranges| ==> DivisiblePrefix(ranges[i]) && IntegralPrefix(ranges[i])
    ensures AnyRange(x, ip, ranges) == Http.AnyRange(x, ip, ranges)
    decreases |ranges|
  {
    if ranges != [] {
      SingleRangeAgrees(x, ip, ranges[0]);
      assert forall i :: 0 <= i < |ranges[1..]| ==> ranges[1..][i] == ranges[i + 1];
      AnyRangeAgrees(x, ip, ranges[1..]);
    }
  }

  /** The whole test agrees with the new one whenever every prefix written
      in the range is absent or a numeric whole number. */
  lemma RangeMatchAgrees(x: Externals, ip: string, range: string)
    requires ExactPow(x)
    requires ',' in range ==> forall i :: 0 <= i < |Http.TrimmedPieces(range)| ==>
               DivisiblePrefix(Http.TrimmedPieces(range)[i]) && IntegralPrefix(Http.TrimmedPieces(range)[i])
    requires ',' !in range ==> DivisiblePrefix(range) && IntegralPrefix(range)
    ensures RangeMatch(x, ip, range) == Http.RangeMatch(x, ip, range)
  {
    if ',' in range {
      AnyRangeAgrees(x, ip, Http.TrimmedPieces(range));
    } else {
      SingleRangeAgrees(x, ip, range);
    }
  }

  /** A range ending in `/` throws `TypeError` once its addresses parse:
      the empty prefix is not numeric. The new code reads it as `/0`. */
  lemma TrailingSlashRaises(x: Externals, ip: string, net: string)
    requires '/' !in net && ',' !in net
    requires x.inetPton(ip).Some? && x.inetPton(net).Some?
    ensures RangeMatch(x, ip, net + "/") == Err(TypeError)
    ensures Http.RangeMatch(x, ip, net + "/") == Http.SingleRangeMatch(x, ip, net)
  {
    SplitSlash(net);
    SplitNoSeparator(net, '/');
    assert ',' !in net + "/";
    assert Http.NetPart(net + "/") == net == Http.NetPart(net);
    assert PrefixValue(net + "/") == Err(TypeError);
    assert Http.PrefixLength(net + "/") == 0 == Http.PrefixLength(net);
  }

  /** `explode('/', "net/")` is `[net, ""]`. */
  lemma {:induction false} SplitSlash(net: string)
    requires '/' !in net
    ensures SplitOn(net + "/", '/') == [net, ""]
    decreases |net|
  {
    if net == [] {
      assert SplitOn("/"[1..], '/') == [""];
    } else {
      SplitSlash(net[1..]);
      assert (net + "/")[1..] == net[1..] + "/";
      assert [net[0]] + net[1..] == net;
    }
  }

  /** The mask loop of the legacy `isIPInRange` on the prefix as divided:
      `floor(v / 8)` bytes `chr(255)`, then a byte for each step of 8
      below `v`, then zero padding. */
  method BuildLegacyMask(x: Externals, maskBits: real, size: nat) returns (r: Result<seq<Byte>, Exception>)
    ensures r == LegacyMask(x, maskBits, size)
  {
    var solid := (maskBits / 8.0).Floor;
    var solidBits := (solid * 8) as real;
    if solid < 0 {
      return Err(ValueError);
    }
    var mask := Http.StrRepeat(Http.Chr(255), solid);
    var i := solidBits;
    while i < maskBits
      invariant i == solidBits || (i == solidBits + 8.0 && solidBits < maskBits)
      invariant mask == Http.StrRepeat(Http.Chr(255), solid) + (if i == solidBits then [] else [LoopByte(x, maskBits - solidBits)])
      decreases if i < maskBits then 1 else 0
    {
      var bits := maskBits - i;
      bits := if bits < 8.0 then bits else 8.0;
      bits := if bits > 0.0 then bits else 0.0;
      mask := mask + [LoopByte(x, bits)];
      i := i + 8.0;
    }
    return Ok(Http.StrPad(mask, size, Http.Chr(0)));
  }

  /** The legacy `isIPInRange`, recursing on each sub-range of a list and
      building the mask with its float loop. */
  method IsIpInRange(x: Externals, ip: string, range: string) returns (r: Result<bool, Exception>)
    ensures r == RangeMatch(x, ip, range)
    decreases if ',' in range then 1 else 0
  {
    if ',' in range {
      var ranges := Http.TrimmedPieces(range);
      var i := 0;
      while i < |ranges|
        invariant 0 <= i <= |ranges|
        invariant AnyRange(x, ip, ranges) == AnyRange(x, ip, ranges[i..])
      {
        assert ranges[i..][1..] == ranges[i + 1..];
        var one := IsIpInRange(x, ip, ranges[i]);
        if one.Err? || one.value {
          return one;
        }
        i := i + 1;
      }
      return Ok(false);
    }
    var net := Http.NetPart(range);
    var size := Http.Width(ip);
    var ipBin := x.inetPton(ip);
    var netBin := x.inetPton(net);
    if ipBin.None? || netBin.None? {
      return Err(InvalidArgument);
    }
    var maskBits := PrefixValue(range);
    if maskBits.Err? {
      return Err(maskBits.error);
    }
    var mask := BuildLegacyMask(x, maskBits.value, size);
    if mask.Err? {
      return Err(mask.error);
    }
    return Ok(Http.StrAnd(ipBin.value, mask.value) == Http.StrAnd(netBin.value, mask.value));
  }

  // ---------------------------------------------------------------------
  // Deleting a directory tree
  // ---------------------------------------------------------------------

  /** What the legacy `delTree` does: only what lies at or below the
      directory can disappear, and only if it could be removed; `TypeError`
      is raised only when some directory there cannot be listed (at once,
      changing nothing, when the directory itself cannot be); the
      result is true exactly when the directory exists, is not the root
      and nothing at or below it is locked or unlistable, and then nothing
      is left there. */
  ghost predicate TreeDeleted(before: Nodes, after: Nodes, locked: set<Path>, dir: Path, r: Result<bool, Exception>) {
    && OnlyRemoved(before, after)
    && KeptOutside(before, after, Normalize(dir))
    && RemovedRemovable(before, after, locked)
    && (Entries(before, dir).None? ==> r == Err(TypeError) && after == before)
    && (r.Err? ==> r.error == TypeError)
    && (IsDir(before, dir) && Listable(before, Normalize(dir)) ==> r.Ok?)
    && (Normalize(dir) in before ==> (r == Ok(true) <==> Normalize(dir) !in after))
    && (r == Ok(true) ==> Gone(after, Normalize(dir)))
    && (r == Ok(true) <==> IsDir(before, dir) && Normalize(dir) != [] && Removable(before, locked, Normalize(dir)))
  }

  /** The legacy `delTree`: `scandir` of something that is not a listable
      directory yields false, on which `array_diff` throws `TypeError`;
      otherwise every entry is deleted (a directory as a tree, anything
      else unlinked, failures ignored) and the result is that of `rmdir`.
      PHP's `is_dir` follows a symbolic link, so there a link to a directory
      elsewhere has that directory emptied; links have no targets in this
      model and are unlinked, so what it says about nodes outside holds only
      for trees without such links. */
  method DelTree(fs: Fs, dir: Path) returns (r: Result<bool, Exception>)
    requires fs.Valid()
    modifies fs
    ensures fs.Valid()
    ensures TreeDeleted(old(fs.nodes), fs.nodes, fs.locked, dir, r)
    decreases |Subtree(fs.nodes, Normalize(dir))|, 2
  {
    var items := Entries(fs.nodes, dir);
    if items.None? {
      ListingFailed(fs.nodes, fs.locked, dir);
      return Err(TypeError);
    }
    ghost var start := fs.nodes;
    var deleted := DelEntries(fs, dir, items.value);
    if deleted.Err? {
      RaisedInLoop(start, fs.nodes, fs.locked, dir, items.value);
      return Err(deleted.error);
    }
    ghost var before := fs.nodes;
    var ok := fs.Rmdir(dir);
    RemovedLast(start, before, fs.nodes, fs.locked, dir, deleted.value, ok);
    r := Ok(ok);
  }

  /** The `foreach` of `delTree` over the entries `es` left after
      `array_diff` removes `.` and `..`. Only a `TypeError` stops it, and
      only when some directory below cannot be listed; true means every
      entry's tree is gone, which is always the case when the directory's
      tree is removable. */
  method DelEntries(fs: Fs, dir: Path, es: seq<string>) returns (r: Result<bool, Exception>)
    requires fs.Valid()
    requires IsDir(fs.nodes, dir) && Entries(fs.nodes, dir) == Some(es)
    modifies fs
    ensures fs.Valid()
    ensures OnlyRemoved(old(fs.nodes), fs.nodes)
    ensures RemovedRemovable(old(fs.nodes), fs.nodes, fs.locked)
    ensures KeptUndone(old(fs.nodes), fs.nodes, Normalize(dir), es)
    ensures r.Err? ==> r.error == TypeError && !Listable(old(fs.nodes), Normalize(dir))
    ensures r == Ok(true) ==> DoneGone(fs.nodes, Normalize(dir), es)
    ensures Listable(old(fs.nodes), Normalize(dir)) ==> r.Ok?
    ensures Removable(old(fs.nodes), fs.locked, Normalize(dir)) ==> r == Ok(true)
    decreases |Subtree(fs.nodes, Normalize(dir))|, 1
  {
    var q := Normalize(dir);
    ghost var start := fs.nodes;
    var allGone := true;
    var i := 0;
    while i < |es|
      invariant 0 <= i <= |es|
      invariant fs.Valid()
      invariant OnlyRemoved(start, fs.nodes)
      invariant RemovedRemovable(start, fs.nodes, fs.locked)
      invariant KeptUndone(start, fs.nodes, q, es[..i])
      invariant allGone ==> DoneGone(fs.nodes, q, es[..i])
      invariant Removable(start, fs.locked, q) ==> allGone
    {
      var item := es[i];
      TakeOneMore(es, i);
      if item != "." && item != ".." {
        EntriesAreChildren(start, dir, i);
        EntriesDistinct(start, dir, i);
        SubsetCardinality(Subtree(fs.nodes, q), Subtree(start, q));
        ghost var mid := fs.nodes;
        var deleted := DelEntry(fs, dir, item);
        RemovedRemovableTrans(start, mid, fs.nodes, fs.locked);
        KeptAfterEntry(start, mid, fs.nodes, q, es[..i], item);
        if deleted.Err? {
          NotListableAbove(start, mid, q, item);
          KeptUndoneMore(start, fs.nodes, q, es, i + 1);
          return Err(deleted.error);
        }
        if Removable(start, fs.locked, q) {
          RemovableChild(start, mid, fs.locked, q, item);
        }
        if allGone && deleted.value {
          GoneAfterEntry(mid, fs.nodes, q, es[..i], item);
        }
        allGone := allGone && deleted.value;
      } else if allGone {
        SkippedDot(start, fs.nodes, q, es[..i], item);
      } else {
        KeptUndoneSkip(start, fs.nodes, q, es[..i], item);
      }
      i := i + 1;
    }
    assert es[..i] == es;
    r := Ok(allGone);
  }

  /** `scandir` fails before anything is deleted. */
  lemma ListingFailed(nodes: Nodes, locked: set<Path>, dir: Path)
    requires Entries(nodes, dir).None?
    ensures TreeDeleted(nodes, nodes, locked, dir, Err(TypeError))
  {
  }

  /** A `TypeError` from below stops `delTree` before its `rmdir`. */
  lemma RaisedInLoop(start: Nodes, nodes: Nodes, locked: set<Path>, dir: Path, es: seq<string>)
    requires IsDir(start, dir) && Entries(start, dir).Some?
    requires OnlyRemoved(start, nodes) && RemovedRemovable(start, nodes, locked)
    requires KeptUndone(start, nodes, Normalize(dir), es)
    requires !Listable(start, Normalize(dir))
    ensures TreeDeleted(start, nodes, locked, dir, Err(TypeError))
  {
  }

  /** `delTree` ends with `rmdir` of the directory. */
  lemma RemovedLast(start: Nodes, emptied: Nodes, after: Nodes, locked: set<Path>, dir: Path, allGone: bool, ok: bool)
    requires WellFormed(emptied)
    requires IsDir(start, dir) && Entries(start, dir).Some?
    requires OnlyRemoved(start, emptied) && RemovedRemovable(start, emptied, locked)
    requires KeptUndone(start, emptied, Normalize(dir), Entries(start, dir).value)
    requires allGone ==> DoneGone(emptied, Normalize(dir), Entries(start, dir).value)
    requires Removable(start, locked, Normalize(dir)) ==> allGone
    requires (after, ok) == RmdirSpec(emptied, locked, dir)
    ensures TreeDeleted(start, after, locked, dir, Ok(ok))
  {
    var q := Normalize(dir);
    if allGone {
      NoEntryLeft(start, emptied, dir);
    }
    RmdirRemovesTree(emptied, locked, dir);
    RemovedRemovableTrans(start, emptied, after, locked);
    if ok {
      GoneWasRemovable(start, after, locked, q);
    }
  }

  /** A child whose tree is not listable makes its parent's tree not listable. */
  lemma NotListableAbove(start: Nodes, mid: Nodes, q: Path, item: string)
    requires OnlyRemoved(start, mid)
    requires !Listable(mid, q + [item])
    ensures !Listable(start, q)
  {
    if Listable(start, q) {
      ListableChild(start, mid, q, item);
    }
  }

  /** One entry of the `foreach` in `delTree`: a directory is deleted as a
      tree, anything else unlinked; only an exception is passed on. Only
      the entry's own tree can disappear; `TypeError` comes only from an
      unlistable directory there; true means the tree is gone, which
      happens exactly when the entry exists and its tree is removable. */
  method DelEntry(fs: Fs, dir: Path, item: string) returns (r: Result<bool, Exception>)
    requires fs.Valid()
    requires Plain(item) && Normalize(dir) in fs.nodes
    modifies fs
    ensures fs.Valid()
    ensures OnlyRemoved(old(fs.nodes), fs.nodes)
    ensures KeptOutside(old(fs.nodes), fs.nodes, Normalize(dir) + [item])
    ensures RemovedRemovable(old(fs.nodes), fs.nodes, fs.locked)
    ensures r.Err? ==> r.error == TypeError && !Listable(old(fs.nodes), Normalize(dir) + [item])
    ensures r == Ok(true) ==> Gone(fs.nodes, Normalize(dir) + [item])
    ensures r == Ok(true) <==> Normalize(dir) + [item] in old(fs.nodes)
                               && Removable(old(fs.nodes), fs.locked, Normalize(dir) + [item])
    decreases |Subtree(fs.nodes, Normalize(dir))|, 0
  {
    var path := dir + [item];
    NormalizeChild(dir, item);
    if IsDir(fs.nodes, path) {
      SubtreeShrinks(fs.nodes, fs.nodes, Normalize(dir), item);
      r := DelTree(fs, path);
    } else {
      var p := Normalize(path);
      if p in fs.nodes {
        NothingBelowNonDir(fs.nodes, p);
      }
      var ok := fs.Unlink(path);
      r := Ok(ok);
    }
  }

  /** What lies outside a directory lies outside each of its children. */
  lemma OutsideChild(q: Path, item: string)
    ensures forall k :: !Below(k, q) ==> k != q + [item] && !Below(k, q + [item])
  {
    forall k | Below(k, q + [item])
      ensures Below(k, q)
    {
      assert k[..|q|] == k[..|q + [item]|][..|q|];
    }
    assert Below(q + [item], q);
  }

  // ---------------------------------------------------------------------
  // Webhook configuration
  // ---------------------------------------------------------------------

  /** `getDirForEmail($email).DS.'webhook.json'`. */
  function ConfigPath(nodes: Nodes, root: Path, email: string): Path {
    DirFor(nodes, root, email) + ["webhook.json"]
  }

  lemma ConfigPathIsNewLayout(nodes: Nodes, root: Path, email: string)
    ensures ConfigPath(nodes, root, email) == Webhook.ConfigPath(nodes, root + [".."], email)
  {
    DirForIsNewLayout(nodes, root, email);
  }

  /** `getWebhookConfig`: whatever the file decodes to, scalars included,
      once anything exists under that name. */
  function GetWebhookConfig(x: Externals, nodes: Nodes, root: Path, email: string): (r: Option<Json>)
    ensures r.Some? ==> FileExists(nodes, ConfigPath(nodes, root, email))
  {
    var file := ConfigPath(nodes, root, email);
    if FileExists(nodes, file) then x.jsonDecode(ReadFile(nodes, file).GetOr("")) else None
  }

  /** The new `getConfig` is the legacy one restricted to regular files
      that decode to an array. */
  lemma GetWebhookConfigNarrowed(x: Externals, nodes: Nodes, root: Path, email: string)
    requires Lawful(x)
    ensures var legacy := GetWebhookConfig(x, nodes, root, email);
            Webhook.GetConfig(x, nodes, root + [".."], email)
            == if legacy.Some? && IsArray(legacy.value) && IsFile(nodes, ConfigPath(nodes, root, email)) then legacy else None
  {
    ConfigPathIsNewLayout(nodes, root, email);
  }

  /** `saveWebhookConfig`: the new `saveConfig` over the same mailbox, for
      any value, not only arrays. */
  method SaveWebhookConfig(fs: Fs, x: Externals, root: Path, email: string, config: Json) returns (ok: bool)
    requires fs.Valid()
    modifies fs
    ensures fs.Valid()
    ensures (fs.nodes, ok) == Webhook.SaveConfigSpec(x, old(fs.nodes), fs.locked, root + [".."], email, config)
  {
    if !x.validEmail(email) {
      return false;
    }
    var dir := DirFor(fs.nodes, root, email);
    DirForIsNewLayout(fs.nodes, root, email);
    if !IsDir(fs.nodes, dir) {
      var made := fs.Mkdirs(dir);
      if !made {
        return false;
      }
    }
    ok := fs.Write(dir + ["webhook.json"], x.jsonEncode(config));
  }

  /** Reading after a successful save gives the saved value back, whether
      it is an array or not. */
  lemma SaveThenGetWebhook(x: Externals, nodes: Nodes, locked: set<Path>, root: Path, email: string, config: Json)
    requires Lawful(x) && Encodable(config)
    requires Webhook.SaveConfigSpec(x, nodes, locked, root + [".."], email, config).1
    ensures GetWebhookConfig(x, Webhook.SaveConfigSpec(x, nodes, locked, root + [".."], email, config).0, root, email)
            == Some(config)
  {
    var base := root + [".."];
    var dir := Mailbox.DirFor(nodes, base, email);
    var after := Webhook.SaveConfigSpec(x, nodes, locked, base, email, config).0;
    var written := Normalize(dir + ["webhook.json"]);
    assert after[written] == File(x.jsonEncode(config), true);
    Webhook.ConfigPathResolves(nodes, base, email);
    Webhook.ConfigPathResolves(after, base, email);
    ConfigPathIsNewLayout(after, root, email);
    assert Normalize(ConfigPath(after, root, email)) == written;
  }

  /** `deleteWebhookConfig`: unlink whatever exists under the name; true
      when nothing does. */
  function DeleteWebhookConfigSpec(nodes: Nodes, locked: set<Path>, root: Path, email: string): (Nodes, bool) {
    var file := ConfigPath(nodes, root, email);
    if FileExists(nodes, file) then UnlinkSpec(nodes, locked, file) else (nodes, true)
  }

  /** `deleteWebhookConfig`. */
  method DeleteWebhookConfig(fs: Fs, root: Path, email: string) returns (ok: bool)
    requires fs.Valid()
    modifies fs
    ensures fs.Valid()
    ensures (fs.nodes, ok) == DeleteWebhookConfigSpec(old(fs.nodes), fs.locked, root, email)
  {
    var file := ConfigPath(fs.nodes, root, email);
    if FileExists(fs.nodes, file) {
      ok := fs.Unlink(file);
    } else {
      ok := true;
    }
  }

  /** The legacy and new deletes agree on a regular file or on nothing; on
      a directory under that name the legacy delete fails where the new
      one reports success, and a link under that name the legacy delete
      unlinks where the new one leaves it. */
  lemma DeleteWebhookConfigAgrees(nodes: Nodes, locked: set<Path>, root: Path, email: string)
    ensures var file := ConfigPath(nodes, root, email);
            var legacy := DeleteWebhookConfigSpec(nodes, locked, root, email);
            var current := Webhook.DeleteConfigSpec(nodes, locked, root + [".."], email);
            && (IsFile(nodes, file) || !FileExists(nodes, file) ==> legacy == current)
            && (IsDir(nodes, file) ==> legacy == (nodes, false) && current == (nodes, true))
            && (IsLink(nodes, file) ==> legacy == UnlinkSpec(nodes, locked, file) && current == (nodes, true))
  {
    ConfigPathIsNewLayout(nodes, root, email);
  }

  /** After a successful delete nothing is configured, and deleting again
      succeeds without changing anything. */
  lemma DeleteWebhookConfigIdempotent(x: Externals, nodes: Nodes, locked: set<Path>, root: Path, email: string)
    requires DeleteWebhookConfigSpec(nodes, locked, root, email).1
    ensures var after := DeleteWebhookConfigSpec(nodes, locked, root, email).0;
            && GetWebhookConfig(x, after, root, email) == None
            && DeleteWebhookConfigSpec(after, locked, root, email) == (after, true)
  {
    var after := DeleteWebhookConfigSpec(nodes, locked, root, email).0;
    var base := root + [".."];
    ConfigPathIsNewLayout(nodes, root, email);
    ConfigPathIsNewLayout(after, root, email);
    Webhook.ConfigPathResolves(nodes, base, email);
    Webhook.ConfigPathResolves(after, base, email);
  }
}
