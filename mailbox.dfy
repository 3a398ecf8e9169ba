/** The mail store of `Mailbox`: one directory per address below the data
    directory, one `<id>.json` file per message, attachments under
    `attachments/`, and the per-address `webhook.json`. */
module Mailbox {
  import opened Wrappers
  import opened Text
  import opened Ordering
  import opened FileSystem
  import opened Externals
  import opened Sandbox

  /** `ROOT . DS . 'data'`, the base of every mailbox directory. */
  function DataDir(root: Path): Path {
    root + ["data"]
  }

  /** `Mailbox::getDirForEmail`. */
  function DirFor(nodes: Nodes, root: Path, email: string): Path {
    GetDirForEmail(nodes, DataDir(root), email)
  }

  /** `$dir . DS . $rel`: the text is split at `/` like the kernel does. */
  function Join(dir: Path, rel: string): (r: Path)
    ensures |r| > |dir| && r[..|dir|] == dir
  {
    dir + SplitOn(rel, '/')
  }

  lemma JoinPlainName(dir: Path, name: string)
    requires '/' !in name
    ensures Join(dir, name) == dir + [name]
  {
    SplitNoSeparator(name, '/');
  }

  /** The message file of `id`. */
  function MessagePath(nodes: Nodes, root: Path, email: string, id: string): Path {
    Join(DirFor(nodes, root, email), id + ".json")
  }

  /** The file an attachment name refers to. */
  function AttachmentPath(dir: Path, name: string): Path {
    Join(dir + ["attachments"], name)
  }

  /** `Mailbox::endsWith`: an empty needle matches everything. */
  predicate EndsWith(haystack: string, needle: string) {
    |needle| == 0 || EndsWithSuffix(haystack, needle)
  }

  /** `endsWith` holds exactly when the haystack is something followed by the needle. */
  lemma EndsWithMeansSuffix(haystack: string, needle: string)
    ensures EndsWith(haystack, needle) <==> exists front :: haystack == front + needle
  {
    if EndsWith(haystack, needle) {
      var front := haystack[..|haystack| - |needle|];
      assert haystack == front + needle;
    }
    if exists front :: haystack == front + needle {
      var front :| haystack == front + needle;
      assert haystack[|haystack| - |needle|..] == needle;
    }
  }

  // ---- reading one message ----

  /** `Mailbox::loadEmailJson` (and `getEmail`): the decoded array in the
      message file, or None when the file is missing, unreadable or empty,
      holds malformed JSON, or holds something other than an array. */
  function LoadEmailJson(x: Externals, nodes: Nodes, root: Path, email: string, id: string): (r: Option<Json>)
    ensures r.Some? ==> IsArray(r.value)
    ensures r.Some? ==> IsFile(nodes, MessagePath(nodes, root, email, id))
  {
    var file := MessagePath(nodes, root, email, id);
    if !IsFile(nodes, file) then None
    else
      var content := ReadFile(nodes, file);
      if content.None? || content.value == "" then None
      else
        var data := x.jsonDecode(content.value);
        if data.Some? && IsArray(data.value) then data else None
  }

  /** A stored array comes back unchanged. */
  lemma LoadStoredMessage(x: Externals, nodes: Nodes, root: Path, email: string, id: string, v: Json)
    requires Lawful(x) && Encodable(v) && IsArray(v)
    requires ReadFile(nodes, MessagePath(nodes, root, email, id)) == Some(x.jsonEncode(v))
    ensures LoadEmailJson(x, nodes, root, email, id) == Some(v)
  {
    if x.jsonEncode(v) == "" {
      assert x.jsonDecode("") == None;
    }
  }

  /** `Mailbox::getRawEmail`: the `raw` entry, cast to a string, of a
      message that loads and has that key (even with a null value). */
  function GetRawEmail(x: Externals, nodes: Nodes, root: Path, email: string, id: string): (r: Option<string>)
    ensures r.Some? <==> (LoadEmailJson(x, nodes, root, email, id).Some?
                         && HasKey(LoadEmailJson(x, nodes, root, email, id).value, "raw"))
  {
    var data := LoadEmailJson(x, nodes, root, email, id);
    if data.None? || !HasKey(data.value, "raw") then None
    else Some(Stringify(x, data.value.fields["raw"]))
  }

  /** A string `raw` is returned as it is. */
  lemma GetRawEmailOfString(x: Externals, nodes: Nodes, root: Path, email: string, id: string, raw: string)
    requires LoadEmailJson(x, nodes, root, email, id).Some?
    requires HasKey(LoadEmailJson(x, nodes, root, email, id).value, "raw")
    requires LoadEmailJson(x, nodes, root, email, id).value.fields["raw"] == JStr(raw)
    ensures GetRawEmail(x, nodes, root, email, id) == Some(raw)
  {
  }

  /** `Mailbox::emailIdExists`. */
  predicate EmailIdExists(nodes: Nodes, root: Path, email: string, id: string) {
    IsFile(nodes, MessagePath(nodes, root, email, id))
  }

  /** A message that loads exists. */
  lemma LoadedMessageExists(x: Externals, nodes: Nodes, root: Path, email: string, id: string)
    requires LoadEmailJson(x, nodes, root, email, id).Some?
    ensures EmailIdExists(nodes, root, email, id)
  {
  }

  // ---- listing ----

  /** One row of the listing. `body` is present only when asked for;
      `attachments` only when asked for and the message lists some. */
  datatype Row = Row(
    email: string,
    id: string,
    from: Json,
    subject: Json,
    md5: string,
    maillen: nat,
    body: Option<Json>,
    attachments: Option<seq<string>>)

  /** The decoded content of a directory entry, read as the listing reads
      it: an unreadable file, or one holding `"0"`, counts as `""`. */
  function DecodedEntry(x: Externals, nodes: Nodes, dir: Path, entry: string): Option<Json> {
    var content := ReadFile(nodes, dir + [entry]);
    var text := if content.Some? && PhpTruthy(content.value) then content.value else "";
    x.jsonDecode(text)
  }

  /** The entry names a `.json` file that decodes to an array with both
      `parsed` and `raw` set. */
  predicate Listable(x: Externals, nodes: Nodes, dir: Path, entry: string) {
    var json := DecodedEntry(x, nodes, dir, entry);
    EndsWith(entry, ".json") && json.Some? && IsArray(json.value)
    && Get(json.value, "parsed").Some? && Get(json.value, "raw").Some?
  }

  /** The URL under which an attachment is served. */
  function AttachmentUrl(x: Externals, settings: Settings, address: string, attachment: Json): string {
    var url := Setting(settings, "URL");
    var baseUrl := if PhpTruthy(url) then url else "";
    TrimRight(baseUrl, {'/'}) + "/api/attachment/" + address + "/" + Stringify(x, attachment)
  }

  function AttachmentUrls(x: Externals, settings: Settings, address: string, items: seq<Json>): (r: seq<string>)
    ensures |r| == |items|
    ensures forall i :: 0 <= i < |items| ==> r[i] == AttachmentUrl(x, settings, address, items[i])
  {
    seq(|items|, i requires 0 <= i < |items| => AttachmentUrl(x, settings, address, items[i]))
  }

  /** What one `readdir` entry contributes: nothing (skipped), a row, or the
      `TypeError` that `strlen` raises on a `raw` that is not a string. */
  function EntryRow(x: Externals, settings: Settings, nodes: Nodes, dir: Path, address: string,
                    entry: string, includeBody: bool, includeAttachments: bool): (r: Result<Option<Row>, Exception>)
    ensures !Listable(x, nodes, dir, entry) ==> r == Ok(None)
    ensures Listable(x, nodes, dir, entry) ==>
              (r.Err? <==> !Get(DecodedEntry(x, nodes, dir, entry).value, "raw").value.JStr?)
    ensures Listable(x, nodes, dir, entry) && !r.Err? ==> r.value.Some?
    ensures r.Ok? && r.value.Some? ==>
              && r.value.value.id + ".json" == entry
              && r.value.value.email == address
              && r.value.value.maillen == Utf8Length(Get(DecodedEntry(x, nodes, dir, entry).value, "raw").value.s)
  {
    if !EndsWith(entry, ".json") then Ok(None)
    else
      var time := entry[..|entry| - 5];
      var json := DecodedEntry(x, nodes, dir, entry);
      if json.None? || !IsArray(json.value) || Get(json.value, "parsed").None? || Get(json.value, "raw").None? then Ok(None)
      else
        var parsed := Get(json.value, "parsed").value;
        var raw := Get(json.value, "raw").value;
        if !raw.JStr? then Err(TypeError)
        else
          var atts := Get(parsed, "attachments");
          assert time + ".json" == entry;
          Ok(Some(Row(
            address, time,
            GetOr(parsed, "from", JStr("")),
            GetOr(parsed, "subject", JStr("")),
            x.md5(time + raw.s),
            Utf8Length(raw.s),
            if includeBody then Some(GetOr(parsed, "body", JStr(""))) else None,
            if includeAttachments && atts.Some? && !Empty(atts.value) && IsArray(atts.value)
            then Some(AttachmentUrls(x, settings, address, ArrayValues(atts.value)))
            else None)))
  }

  /** Step of the listing loop: `$result[$time] = $row`. */
  function AddEntry(acc: Result<map<string, Row>, Exception>, row: Result<Option<Row>, Exception>): Result<map<string, Row>, Exception> {
    match acc
    case Err(e) => Err(e)
    case Ok(m) =>
      match row
      case Err(e) => Err(e)
      case Ok(None) => Ok(m)
      case Ok(Some(r)) => Ok(m[r.id := r])
  }

  /** The `readdir` loop over one mailbox, entry by entry. */
  function ScanEntries(x: Externals, settings: Settings, nodes: Nodes, dir: Path, address: string,
                       entries: seq<string>, includeBody: bool, includeAttachments: bool,
                       acc: map<string, Row>): Result<map<string, Row>, Exception>
    decreases |entries|
  {
    if entries == [] then Ok(acc)
    else AddEntry(ScanEntries(x, settings, nodes, dir, address, entries[..|entries| - 1], includeBody, includeAttachments, acc),
                  EntryRow(x, settings, nodes, dir, address, entries[|entries| - 1], includeBody, includeAttachments))
  }

  /** One mailbox: skipped when it is not a directory or cannot be opened.
      `dirOf` maps an address to its mailbox directory. */
  function ScanMailbox(x: Externals, settings: Settings, nodes: Nodes, dirOf: string -> Path, address: string,
                       includeBody: bool, includeAttachments: bool, acc: map<string, Row>): Result<map<string, Row>, Exception>
  {
    var dir := dirOf(address);
    var entries := Entries(nodes, dir);
    if !IsDir(nodes, dir) || entries.None? then Ok(acc)
    else ScanEntries(x, settings, nodes, dir, address, entries.value, includeBody, includeAttachments, acc)
  }

  /** The `foreach` over the mailboxes. */
  function ScanAll(x: Externals, settings: Settings, nodes: Nodes, dirOf: string -> Path, addresses: seq<string>,
                   includeBody: bool, includeAttachments: bool): Result<map<string, Row>, Exception>
    decreases |addresses|
  {
    if addresses == [] then Ok(map[])
    else ThenScan(x, settings, nodes, dirOf, ScanAll(x, settings, nodes, dirOf, addresses[..|addresses| - 1], includeBody, includeAttachments),
                  addresses[|addresses| - 1], includeBody, includeAttachments)
  }

  /** Scanning one more mailbox after the ones before, unless they failed. */
  function ThenScan(x: Externals, settings: Settings, nodes: Nodes, dirOf: string -> Path, acc: Result<map<string, Row>, Exception>,
                    address: string, includeBody: bool, includeAttachments: bool): Result<map<string, Row>, Exception>
  {
    if acc.Err? then acc
    else ScanMailbox(x, settings, nodes, dirOf, address, includeBody, includeAttachments, acc.value)
  }

  /** `ksort($result)`: the rows in increasing key order. */
  function SortedRows(m: map<string, Row>): seq<Row> {
    var ks := SortedElements(m.Keys);
    seq(|ks|, i requires 0 <= i < |ks| => m[ks[i]])
  }

  /** The entries of the data directory that validate as addresses, in
      `readdir` order; no entry when the directory cannot be opened. */
  function ValidEntries(x: Externals, entries: seq<string>): (r: seq<string>)
    ensures forall a :: a in r <==> a in entries && x.validEmail(a)
    decreases |entries|
  {
    if entries == [] then []
    else
      var init := ValidEntries(x, entries[..|entries| - 1]);
      var e := entries[|entries| - 1];
      assert entries == entries[..|entries| - 1] + [e];
      if x.validEmail(e) then init + [e] else init
  }

  /** `Mailbox::listEmailAddresses`. */
  function ListEmailAddressesSpec(x: Externals, nodes: Nodes, root: Path): seq<string> {
    var entries := Entries(nodes, DataDir(root) + [""]);
    if entries.None? then [] else ValidEntries(x, entries.value)
  }

  /** Every listed address validates and names an entry of the data
      directory; every such entry is listed. */
  lemma ListedAddressesAreMailboxes(x: Externals, nodes: Nodes, root: Path, a: string)
    requires Lawful(x)
    requires WellFormed(nodes)
    requires Entries(nodes, DataDir(root) + [""]).Some?
    ensures a in ListEmailAddressesSpec(x, nodes, root) <==>
              (x.validEmail(a) && Normalize(DataDir(root)) + [a] in nodes)
  {
    DataDirListing(nodes, root);
    ValidEntryIffMailbox(x, nodes, DataDir(root) + [""], a);
  }

  /** Reading the data directory with a trailing `/` reads the directory
      itself. */
  lemma DataDirListing(nodes: Nodes, root: Path)
    ensures Normalize(DataDir(root) + [""]) == Normalize(DataDir(root))
  {
    NormalizeAppend(DataDir(root), "");
  }

  /** Of the entries of a readable directory, the valid addresses are
      exactly its children that validate. */
  lemma ValidEntryIffMailbox(x: Externals, nodes: Nodes, p: Path, a: string)
    requires Lawful(x)
    requires Entries(nodes, p).Some?
    ensures a in ValidEntries(x, Entries(nodes, p).value) <==> (x.validEmail(a) && Normalize(p) + [a] in nodes)
  {
    if x.validEmail(a) {
      assert '@' in a;
      ListedIffChild(nodes, p, a);
    }
  }

  /** Settings `ADMIN` is set and equal, byte for byte, to the address. */
  predicate IsAdminInbox(settings: Settings, email: string) {
    PhpTruthy(Setting(settings, "ADMIN")) && Setting(settings, "ADMIN") == email
  }

  /** The listing for `email`, given the mailbox directory of each address
      and the addresses listed in the data directory: the admin address
      lists every mailbox, any other non-empty address its own; the rows are
      keyed by id and sorted by key. */
  function Listing(x: Externals, settings: Settings, nodes: Nodes, dirOf: string -> Path, listed: seq<string>,
                   email: string, includeBody: bool, includeAttachments: bool): Result<seq<Row>, Exception>
  {
    var admin := IsAdminInbox(settings, email);
    var addresses := if admin then listed else [email];
    if admin && addresses == [] then Ok([])
    else if !admin && email == "" then Ok([])
    else
      match ScanAll(x, settings, nodes, dirOf, addresses, includeBody, includeAttachments)
      case Err(e) => Err(e)
      case Ok(m) => Ok(SortedRows(m))
  }

  /** `Mailbox::getEmailsOfEmail`. */
  function GetEmailsOfEmailSpec(x: Externals, settings: Settings, nodes: Nodes, root: Path, email: string,
                                includeBody: bool, includeAttachments: bool): Result<seq<Row>, Exception>
  {
    Listing(x, settings, nodes, a => DirFor(nodes, root, a), ListEmailAddressesSpec(x, nodes, root),
            email, includeBody, includeAttachments)
  }

  /** `Mailbox::listEmailAddresses`, entry by entry. */
  method ListEmailAddresses(x: Externals, nodes: Nodes, root: Path) returns (out: seq<string>)
    ensures out == ListEmailAddressesSpec(x, nodes, root)
  {
    var entries := Entries(nodes, DataDir(root) + [""]);
    if entries.Some? {
      out := FilterValidEntries(x, entries.value);
    } else {
      out := [];
    }
  }

  /** The `readdir` loop of `Mailbox::listEmailAddresses`: the entries that
      validate, in order. */
  method FilterValidEntries(x: Externals, es: seq<string>) returns (out: seq<string>)
    ensures out == ValidEntries(x, es)
  {
    out := [];
    var i := 0;
    while i < |es|
      invariant 0 <= i <= |es|
      invariant out == ValidEntries(x, es[..i])
    {
      assert es[..i + 1][..i] == es[..i];
      if x.validEmail(es[i]) {
        out := out + [es[i]];
      }
      i := i + 1;
    }
    assert es[..|es|] == es;
  }

  /** An error in a prefix of a mailbox's entries is the error of the whole
      mailbox. */
  lemma {:induction false} ScanEntriesErrSticks(x: Externals, settings: Settings, nodes: Nodes, dir: Path, address: string,
                                                entries: seq<string>, n: nat, includeBody: bool, includeAttachments: bool,
                                                acc: map<string, Row>)
    requires n <= |entries|
    requires ScanEntries(x, settings, nodes, dir, address, entries[..n], includeBody, includeAttachments, acc).Err?
    ensures ScanEntries(x, settings, nodes, dir, address, entries, includeBody, includeAttachments, acc)
            == ScanEntries(x, settings, nodes, dir, address, entries[..n], includeBody, includeAttachments, acc)
    decreases |entries| - n
  {
    if n < |entries| {
      assert entries[..n + 1][..n] == entries[..n];
      ScanEntriesErrSticks(x, settings, nodes, dir, address, entries, n + 1, includeBody, includeAttachments, acc);
    } else {
      assert entries[..n] == entries;
    }
  }

  lemma {:induction false} ScanAllErrSticks(x: Externals, settings: Settings, nodes: Nodes, dirOf: string -> Path,
                                            addresses: seq<string>, n: nat, includeBody: bool, includeAttachments: bool)
    requires n <= |addresses|
    requires ScanAll(x, settings, nodes, dirOf, addresses[..n], includeBody, includeAttachments).Err?
    ensures ScanAll(x, settings, nodes, dirOf, addresses, includeBody, includeAttachments)
            == ScanAll(x, settings, nodes, dirOf, addresses[..n], includeBody, includeAttachments)
    decreases |addresses| - n
  {
    if n < |addresses| {
      assert addresses[..n + 1][..n] == addresses[..n];
      ScanAllErrSticks(x, settings, nodes, dirOf, addresses, n + 1, includeBody, includeAttachments);
    } else {
      assert addresses[..n] == addresses;
    }
  }

  /** The `readdir` loop over one opened mailbox directory; an exception
      ends it. */
  method ScanDirectory(x: Externals, settings: Settings, nodes: Nodes, dir: Path, address: string,
                       entries: seq<string>, includeBody: bool, includeAttachments: bool,
                       start: map<string, Row>) returns (r: Result<map<string, Row>, Exception>)
    ensures r == ScanEntries(x, settings, nodes, dir, address, entries, includeBody, includeAttachments, start)
  {
    var result := start;
    var j := 0;
    while j < |entries|
      invariant 0 <= j <= |entries|
      invariant ScanEntries(x, settings, nodes, dir, address, entries[..j], includeBody, includeAttachments, start) == Ok(result)
    {
      assert entries[..j + 1][..j] == entries[..j];
      var row := EntryRow(x, settings, nodes, dir, address, entries[j], includeBody, includeAttachments);
      match row {
        case Err(e) =>
          ScanEntriesErrSticks(x, settings, nodes, dir, address, entries, j + 1, includeBody, includeAttachments, start);
          return Err(e);
        case Ok(None) =>
        case Ok(Some(rw)) =>
          result := result[rw.id := rw];
      }
      j := j + 1;
    }
    assert entries[..|entries|] == entries;
    r := Ok(result);
  }

  lemma ScanAllStep(x: Externals, settings: Settings, nodes: Nodes, dirOf: string -> Path, addresses: seq<string>, i: nat,
                    includeBody: bool, includeAttachments: bool)
    requires i < |addresses|
    ensures ScanAll(x, settings, nodes, dirOf, addresses[..i + 1], includeBody, includeAttachments)
            == ThenScan(x, settings, nodes, dirOf, ScanAll(x, settings, nodes, dirOf, addresses[..i], includeBody, includeAttachments),
                        addresses[i], includeBody, includeAttachments)
  {
    assert addresses[..i + 1][..i] == addresses[..i];
  }

  /** One pass of the `foreach`: a mailbox that is not a directory or cannot
      be opened is skipped. */
  method ScanOneMailbox(x: Externals, settings: Settings, nodes: Nodes, dirOf: string -> Path, address: string,
                        includeBody: bool, includeAttachments: bool, acc: map<string, Row>)
    returns (r: Result<map<string, Row>, Exception>)
    ensures r == ThenScan(x, settings, nodes, dirOf, Ok(acc), address, includeBody, includeAttachments)
  {
    var dir := dirOf(address);
    var entries := Entries(nodes, dir);
    if IsDir(nodes, dir) && entries.Some? {
      r := ScanDirectory(x, settings, nodes, dir, address, entries.value, includeBody, includeAttachments, acc);
    } else {
      r := Ok(acc);
    }
  }

  /** The `foreach` over the mailboxes; an exception leaves it. */
  method ScanAddresses(x: Externals, settings: Settings, nodes: Nodes, dirOf: string -> Path, addresses: seq<string>,
                       includeBody: bool, includeAttachments: bool) returns (r: Result<map<string, Row>, Exception>)
    ensures r == ScanAll(x, settings, nodes, dirOf, addresses, includeBody, includeAttachments)
  {
    var result: map<string, Row> := map[];
    var i := 0;
    while i < |addresses|
      invariant 0 <= i <= |addresses|
      invariant ScanAll(x, settings, nodes, dirOf, addresses[..i], includeBody, includeAttachments) == Ok(result)
    {
      ScanAllStep(x, settings, nodes, dirOf, addresses, i, includeBody, includeAttachments);
      var scanned := ScanOneMailbox(x, settings, nodes, dirOf, addresses[i], includeBody, includeAttachments, result);
      if scanned.Err? {
        ScanAllErrSticks(x, settings, nodes, dirOf, addresses, i + 1, includeBody, includeAttachments);
        return Err(scanned.error);
      }
      result := scanned.value;
      i := i + 1;
    }
    assert addresses[..|addresses|] == addresses;
    r := Ok(result);
  }

  /** `Mailbox::getEmailsOfEmail`: pick the mailboxes, scan them, `ksort`. */
  method GetEmailsOfEmail(x: Externals, settings: Settings, nodes: Nodes, root: Path, email: string,
                          includeBody: bool, includeAttachments: bool) returns (r: Result<seq<Row>, Exception>)
    ensures r == GetEmailsOfEmailSpec(x, settings, nodes, root, email, includeBody, includeAttachments)
  {
    var admin := IsAdminInbox(settings, email);
    var addresses: seq<string>;
    if admin {
      addresses := ListEmailAddresses(x, nodes, root);
      if addresses == [] {
        return Ok([]);
      }
    } else {
      if email == "" {
        return Ok([]);
      }
      addresses := [email];
    }
    var scanned := ScanAddresses(x, settings, nodes, a => DirFor(nodes, root, a), addresses, includeBody, includeAttachments);
    if scanned.Err? {
      return Err(scanned.error);
    }
    r := Ok(SortedRows(scanned.value));
  }

  // ---- what the listing promises ----

  /** Every row is stored under its own id and comes from one of the
      scanned addresses. */
  ghost predicate KeyedRows(m: map<string, Row>, addresses: seq<string>) {
    forall k :: k in m ==> m[k].id == k && m[k].email in addresses
  }

  lemma {:induction false} ScanEntriesKeyed(x: Externals, settings: Settings, nodes: Nodes, dir: Path, address: string,
                                            entries: seq<string>, includeBody: bool, includeAttachments: bool,
                                            acc: map<string, Row>, addresses: seq<string>)
    requires KeyedRows(acc, addresses) && address in addresses
    requires ScanEntries(x, settings, nodes, dir, address, entries, includeBody, includeAttachments, acc).Ok?
    ensures KeyedRows(ScanEntries(x, settings, nodes, dir, address, entries, includeBody, includeAttachments, acc).value, addresses)
    decreases |entries|
  {
    if entries != [] {
      ScanEntriesKeyed(x, settings, nodes, dir, address, entries[..|entries| - 1], includeBody, includeAttachments, acc, addresses);
    }
  }

  lemma {:induction false} ScanAllKeyed(x: Externals, settings: Settings, nodes: Nodes, dirOf: string -> Path,
                                        addresses: seq<string>, includeBody: bool, includeAttachments: bool)
    requires ScanAll(x, settings, nodes, dirOf, addresses, includeBody, includeAttachments).Ok?
    ensures KeyedRows(ScanAll(x, settings, nodes, dirOf, addresses, includeBody, includeAttachments).value, addresses)
    decreases |addresses|
  {
    if addresses != [] {
      var init := addresses[..|addresses| - 1];
      var a := addresses[|addresses| - 1];
      ScanAllKeyed(x, settings, nodes, dirOf, init, includeBody, includeAttachments);
      var m := ScanAll(x, settings, nodes, dirOf, init, includeBody, includeAttachments).value;
      assert KeyedRows(m, addresses) by {
        forall k | k in m
          ensures m[k].email in addresses
        {
          var j :| 0 <= j < |init| && init[j] == m[k].email;
          assert addresses[j] == init[j];
        }
      }
      var dir := dirOf(a);
      var entries := Entries(nodes, dir);
      if IsDir(nodes, dir) && entries.Some? {
        ScanEntriesKeyed(x, settings, nodes, dir, a, entries.value, includeBody, includeAttachments, m, addresses);
      }
    }
  }

  /** The listing is sorted by id with no id twice, and every row belongs to
      a scanned mailbox: all listed addresses for the admin address, the
      requested address otherwise. */
  lemma ListingSortedByUniqueId(x: Externals, settings: Settings, nodes: Nodes, dirOf: string -> Path, listed: seq<string>,
                                email: string, includeBody: bool, includeAttachments: bool)
    requires Listing(x, settings, nodes, dirOf, listed, email, includeBody, includeAttachments).Ok?
    ensures var rows := Listing(x, settings, nodes, dirOf, listed, email, includeBody, includeAttachments).value;
            && (forall i, j :: 0 <= i < j < |rows| ==> Less(rows[i].id, rows[j].id))
            && (forall i :: 0 <= i < |rows| ==>
                  if IsAdminInbox(settings, email) then rows[i].email in listed else rows[i].email == email)
  {
    var admin := IsAdminInbox(settings, email);
    var addresses := if admin then listed else [email];
    if !(admin && addresses == []) && !(!admin && email == "") {
      ScanAllKeyed(x, settings, nodes, dirOf, addresses, includeBody, includeAttachments);
      var m := ScanAll(x, settings, nodes, dirOf, addresses, includeBody, includeAttachments).value;
      SortedRowsById(m, addresses);
    }
  }

  /** Every row carries a body exactly when bodies were asked for. */
  ghost predicate BodiesAsAsked(m: map<string, Row>, includeBody: bool) {
    forall k :: k in m ==> (m[k].body.Some? <==> includeBody)
  }

  lemma EntryRowBody(x: Externals, settings: Settings, nodes: Nodes, dir: Path, address: string,
                     entry: string, includeBody: bool, includeAttachments: bool)
    requires EntryRow(x, settings, nodes, dir, address, entry, includeBody, includeAttachments).Ok?
    requires EntryRow(x, settings, nodes, dir, address, entry, includeBody, includeAttachments).value.Some?
    ensures EntryRow(x, settings, nodes, dir, address, entry, includeBody, includeAttachments).value.value.body.Some? <==> includeBody
  {
  }

  lemma {:induction false} ScanEntriesBodies(x: Externals, settings: Settings, nodes: Nodes, dir: Path, address: string,
                                             entries: seq<string>, includeBody: bool, includeAttachments: bool,
                                             acc: map<string, Row>)
    requires BodiesAsAsked(acc, includeBody)
    requires ScanEntries(x, settings, nodes, dir, address, entries, includeBody, includeAttachments, acc).Ok?
    ensures BodiesAsAsked(ScanEntries(x, settings, nodes, dir, address, entries, includeBody, includeAttachments, acc).value, includeBody)
    decreases |entries|
  {
    if entries != [] {
      var init := entries[..|entries| - 1];
      var e := entries[|entries| - 1];
      var before := ScanEntries(x, settings, nodes, dir, address, init, includeBody, includeAttachments, acc);
      var row := EntryRow(x, settings, nodes, dir, address, e, includeBody, includeAttachments);
      if before.Ok? {
        ScanEntriesBodies(x, settings, nodes, dir, address, init, includeBody, includeAttachments, acc);
        if row.Ok? && row.value.Some? {
          EntryRowBody(x, settings, nodes, dir, address, e, includeBody, includeAttachments);
        }
      }
    }
  }

  lemma {:induction false} ScanAllBodies(x: Externals, settings: Settings, nodes: Nodes, dirOf: string -> Path,
                                         addresses: seq<string>, includeBody: bool, includeAttachments: bool)
    requires ScanAll(x, settings, nodes, dirOf, addresses, includeBody, includeAttachments).Ok?
    ensures BodiesAsAsked(ScanAll(x, settings, nodes, dirOf, addresses, includeBody, includeAttachments).value, includeBody)
    decreases |addresses|
  {
    if addresses != [] {
      var init := addresses[..|addresses| - 1];
      var a := addresses[|addresses| - 1];
      var before := ScanAll(x, settings, nodes, dirOf, init, includeBody, includeAttachments);
      if before.Ok? {
        ScanAllBodies(x, settings, nodes, dirOf, init, includeBody, includeAttachments);
        var dir := dirOf(a);
        var entries := Entries(nodes, dir);
        if IsDir(nodes, dir) && entries.Some? {
          ScanEntriesBodies(x, settings, nodes, dir, a, entries.value, includeBody, includeAttachments, before.value);
        }
      }
    }
  }

  /** Every listed row carries the message body exactly when bodies were
      asked for. */
  lemma ListingBodiesAsAsked(x: Externals, settings: Settings, nodes: Nodes, dirOf: string -> Path, listed: seq<string>,
                             email: string, includeBody: bool, includeAttachments: bool)
    requires Listing(x, settings, nodes, dirOf, listed, email, includeBody, includeAttachments).Ok?
    ensures var rows := Listing(x, settings, nodes, dirOf, listed, email, includeBody, includeAttachments).value;
            forall i :: 0 <= i < |rows| ==> (rows[i].body.Some? <==> includeBody)
  {
    var admin := IsAdminInbox(settings, email);
    var addresses := if admin then listed else [email];
    if !(admin && addresses == []) && !(!admin && email == "") {
      ScanAllBodies(x, settings, nodes, dirOf, addresses, includeBody, includeAttachments);
      SortedRowsBodies(ScanAll(x, settings, nodes, dirOf, addresses, includeBody, includeAttachments).value, includeBody);
    }
  }

  lemma SortedRowsBodies(m: map<string, Row>, includeBody: bool)
    requires BodiesAsAsked(m, includeBody)
    ensures forall i :: 0 <= i < |SortedRows(m)| ==> (SortedRows(m)[i].body.Some? <==> includeBody)
  {
    var ks := SortedElements(m.Keys);
    forall i | 0 <= i < |ks|
      ensures SortedRows(m)[i].body.Some? <==> includeBody
    {
      assert ks[i] in m;
    }
  }

  /** `ksort` of rows stored under their ids: ids strictly increase. */
  lemma SortedRowsById(m: map<string, Row>, addresses: seq<string>)
    requires KeyedRows(m, addresses)
    ensures var rows := SortedRows(m);
            && (forall i, j :: 0 <= i < j < |rows| ==> Less(rows[i].id, rows[j].id))
            && (forall i :: 0 <= i < |rows| ==> rows[i].email in addresses)
  {
    var ks := SortedElements(m.Keys);
    var rows := SortedRows(m);
    forall i | 0 <= i < |rows|
      ensures rows[i].id == ks[i] && rows[i].email in addresses
    {
      assert ks[i] in m;
    }
  }

  /** Within one mailbox, a row produced by some entry is in the result
      under its id, with this mailbox's address: a later mailbox overrides
      an earlier one with the same id. */
  lemma {:induction false} ScanEntriesKeepsLast(x: Externals, settings: Settings, nodes: Nodes, dir: Path, address: string,
                                                entries: seq<string>, includeBody: bool, includeAttachments: bool,
                                                acc: map<string, Row>, e: string, row: Row)
    requires e in entries
    requires EntryRow(x, settings, nodes, dir, address, e, includeBody, includeAttachments) == Ok(Some(row))
    requires ScanEntries(x, settings, nodes, dir, address, entries, includeBody, includeAttachments, acc).Ok?
    ensures var m := ScanEntries(x, settings, nodes, dir, address, entries, includeBody, includeAttachments, acc).value;
            row.id in m && m[row.id].email == address
    decreases |entries|
  {
    var init := entries[..|entries| - 1];
    var last := entries[|entries| - 1];
    assert entries == init + [last];
    var prev := ScanEntries(x, settings, nodes, dir, address, init, includeBody, includeAttachments, acc);
    assert prev.Ok?;
    if e != last {
      assert e in init;
      ScanEntriesKeepsLast(x, settings, nodes, dir, address, init, includeBody, includeAttachments, acc, e, row);
    }
  }

  /** The admin view merges mailboxes: when the last mailbox scanned has a
      message with some id, the listing shows that mailbox's message for the
      id, whatever an earlier mailbox held under it. */
  lemma LaterMailboxWins(x: Externals, settings: Settings, nodes: Nodes, dirOf: string -> Path,
                         addresses: seq<string>, a: string, includeBody: bool, includeAttachments: bool,
                         e: string, row: Row)
    requires IsDir(nodes, dirOf(a)) && Entries(nodes, dirOf(a)).Some?
    requires e in Entries(nodes, dirOf(a)).value
    requires EntryRow(x, settings, nodes, dirOf(a), a, e, includeBody, includeAttachments) == Ok(Some(row))
    requires ScanAll(x, settings, nodes, dirOf, addresses + [a], includeBody, includeAttachments).Ok?
    ensures var m := ScanAll(x, settings, nodes, dirOf, addresses + [a], includeBody, includeAttachments).value;
            row.id in m && m[row.id].email == a
  {
    assert (addresses + [a])[..|addresses|] == addresses;
    var m0 := ScanAll(x, settings, nodes, dirOf, addresses, includeBody, includeAttachments).value;
    ScanEntriesKeepsLast(x, settings, nodes, dirOf(a), a, Entries(nodes, dirOf(a)).value,
                         includeBody, includeAttachments, m0, e, row);
  }

  // ---- counting ----

  /** Number of entries whose name ends in `.json`. */
  function CountJson(entries: seq<string>): (n: nat)
    ensures n <= |entries|
    decreases |entries|
  {
    if entries == [] then 0
    else CountJson(entries[..|entries| - 1]) + (if EndsWith(entries[|entries| - 1], ".json") then 1 else 0)
  }

  /** One more entry adds one exactly when its name ends in `.json`. */
  lemma CountJsonStep(es: seq<string>, i: nat)
    requires i < |es|
    ensures CountJson(es[..i + 1]) == CountJson(es[..i]) + (if EndsWith(es[i], ".json") then 1 else 0)
  {
    assert es[..i + 1][..i] == es[..i];
  }

  /** `Mailbox::countEmailsOfAddress`. */
  function CountEmailsSpec(nodes: Nodes, root: Path, email: string): nat {
    var entries := Entries(nodes, DirFor(nodes, root, email));
    if entries.None? then 0 else CountJson(entries.value)
  }

  /** `Mailbox::countEmailsOfAddress`: no entries when the directory cannot
      be read. */
  method CountEmailsOfAddress(nodes: Nodes, root: Path, email: string) returns (count: nat)
    ensures count == CountEmailsSpec(nodes, root, email)
  {
    var entries := Entries(nodes, DirFor(nodes, root, email));
    if entries.Some? {
      count := CountJsonEntries(entries.value);
    } else {
      count := 0;
    }
  }

  /** The counting loop of `Mailbox::countEmailsOfAddress`, entry by entry. */
  method CountJsonEntries(es: seq<string>) returns (count: nat)
    ensures count == CountJson(es)
  {
    count := 0;
    var i := 0;
    while i < |es|
      invariant 0 <= i <= |es|
      invariant count == CountJson(es[..i])
    {
      CountJsonStep(es, i);
      if EndsWith(es[i], ".json") {
        count := count + 1;
      }
      i := i + 1;
    }
    assert es[..|es|] == es;
  }

  /** Scanning adds at most one row per counted entry: the listing of a
      mailbox never has more rows than its count. */
  lemma {:induction false} ListedAtMostCounted(x: Externals, settings: Settings, nodes: Nodes, dir: Path, address: string,
                                               entries: seq<string>, includeBody: bool, includeAttachments: bool,
                                               acc: map<string, Row>)
    requires ScanEntries(x, settings, nodes, dir, address, entries, includeBody, includeAttachments, acc).Ok?
    ensures |ScanEntries(x, settings, nodes, dir, address, entries, includeBody, includeAttachments, acc).value|
            <= |acc| + CountJson(entries)
    decreases |entries|
  {
    if entries != [] {
      ListedAtMostCounted(x, settings, nodes, dir, address, entries[..|entries| - 1], includeBody, includeAttachments, acc);
    }
  }

  /** `webhook.json` ends in `.json`, so it is counted, but a webhook
      configuration has no `parsed` entry, so the listing skips it. */
  lemma WebhookConfigCountedNotListed(x: Externals, settings: Settings, nodes: Nodes, dir: Path, address: string,
                                      includeBody: bool, includeAttachments: bool)
    requires DecodedEntry(x, nodes, dir, "webhook.json").Some?
    requires Get(DecodedEntry(x, nodes, dir, "webhook.json").value, "parsed").None?
    ensures CountJson(["webhook.json"]) == 1
    ensures EntryRow(x, settings, nodes, dir, address, "webhook.json", includeBody, includeAttachments) == Ok(None)
  {
    assert "webhook.json"[|"webhook.json"| - |".json"|..] == ".json";
  }

  // ---- attachments ----

  /** `Mailbox::attachmentExists`. */
  predicate AttachmentExists(nodes: Nodes, root: Path, email: string, attachment: string) {
    IsFile(nodes, AttachmentPath(DirFor(nodes, root, email), attachment))
  }

  /** A plain attachment name stays in the mailbox's `attachments` directory. */
  lemma AttachmentStaysInMailbox(dir: Path, name: string)
    requires Plain(name) && '/' !in name
    ensures Normalize(AttachmentPath(dir, name)) == Normalize(dir) + ["attachments", name]
  {
    JoinPlainName(dir + ["attachments"], name);
    NormalizeChild(dir, "attachments");
    NormalizeChild(dir + ["attachments"], name);
  }

  /** A name starting with `../` reaches out of the `attachments` directory:
      `../<id>.json` names the message file itself. */
  lemma AttachmentNameCanReachMessage(dir: Path, file: string)
    requires Plain(file) && '/' !in file
    ensures Normalize(AttachmentPath(dir, "../" + file)) == Normalize(dir) + [file]
  {
    SplitNoSeparator(file, '/');
    assert ("../" + file)[1..] == "./" + file;
    assert ("./" + file)[1..] == "/" + file;
    assert ("/" + file)[1..] == file;
    var r1 := SplitOn("/" + file, '/');
    assert r1 == ["", file];
    var s2 := "./" + file;
    assert s2[0] == '.' && s2[1..] == "/" + file;
    assert SplitOn(s2, '/') == [[s2[0]] + r1[0]] + r1[1..];
    assert [s2[0]] + r1[0] == ".";
    var r2 := SplitOn(s2, '/');
    assert r2 == [".", file];
    var s3 := "../" + file;
    assert s3[0] == '.' && s3[1..] == s2;
    assert SplitOn(s3, '/') == [[s3[0]] + r2[0]] + r2[1..];
    assert [s3[0]] + r2[0] == "..";
    assert SplitOn(s3, '/') == ["..", file];
    var a := dir + ["attachments"];
    assert AttachmentPath(dir, "../" + file) == a + [".."] + [file];
    NormalizeChild(dir, "attachments");
    NormalizeAppend(a, "..");
    assert Normalize(a + [".."]) == Normalize(dir);
    NormalizeChild(a + [".."], file);
  }

  /** `Mailbox::listAttachmentsOfMailId`: the values of
      `parsed.attachments` when that is an array, otherwise none. */
  function ListAttachmentsOfMailId(x: Externals, nodes: Nodes, root: Path, email: string, id: string): (r: seq<Json>)
    ensures !IsFile(nodes, MessagePath(nodes, root, email, id)) ==> r == []
    ensures (ReadFile(nodes, MessagePath(nodes, root, email, id)).Some?
             && x.jsonDecode(ReadFile(nodes, MessagePath(nodes, root, email, id)).value).None?) ==> r == []
  {
    var file := MessagePath(nodes, root, email, id);
    var content := ReadFile(nodes, file);
    if !IsFile(nodes, file) || content.None? then []
    else
      var data := x.jsonDecode(content.value);
      if data.None? then []
      else
        var parsed := Get(data.value, "parsed");
        var atts := if parsed.Some? then Get(parsed.value, "attachments") else None;
        if atts.Some? && IsArray(atts.value) then ArrayValues(atts.value) else []
  }

  /** The files `deleteEmail` unlinks before the message itself. */
  function AttachmentPaths(x: Externals, dir: Path, atts: seq<Json>): (r: seq<Path>)
    ensures |r| == |atts|
    ensures forall i :: 0 <= i < |atts| ==> r[i] == AttachmentPath(dir, Stringify(x, atts[i]))
  {
    seq(|atts|, i requires 0 <= i < |atts| => AttachmentPath(dir, Stringify(x, atts[i])))
  }

  /** Unlinking each path in turn, ignoring failures. */
  function UnlinkEach(nodes: Nodes, locked: set<Path>, paths: seq<Path>): Nodes
    decreases |paths|
  {
    if paths == [] then nodes
    else UnlinkSpec(UnlinkEach(nodes, locked, paths[..|paths| - 1]), locked, paths[|paths| - 1]).0
  }

  /** Only the named files can disappear, and nothing else changes. */
  lemma {:induction false} UnlinkEachRemovesOnlyThose(nodes: Nodes, locked: set<Path>, paths: seq<Path>)
    ensures OnlyRemoved(nodes, UnlinkEach(nodes, locked, paths))
    ensures forall k :: k in nodes && k !in UnlinkEach(nodes, locked, paths) ==>
              exists i :: 0 <= i < |paths| && k == Normalize(paths[i])
    decreases |paths|
  {
    if paths != [] {
      var init := paths[..|paths| - 1];
      UnlinkEachRemovesOnlyThose(nodes, locked, init);
      forall k | k in nodes && k !in UnlinkEach(nodes, locked, paths)
        ensures exists i :: 0 <= i < |paths| && k == Normalize(paths[i])
      {
        if k in UnlinkEach(nodes, locked, init) {
          assert k == Normalize(paths[|paths| - 1]);
        } else {
          var i :| 0 <= i < |init| && k == Normalize(init[i]);
          assert paths[i] == init[i];
        }
      }
    }
  }

  /** `Mailbox::deleteEmail`: unlink every listed attachment, then the
      message file; the result is that of the last unlink alone. */
  function DeleteEmailSpec(x: Externals, nodes: Nodes, locked: set<Path>, root: Path, email: string, id: string): (Nodes, bool) {
    var dir := DirFor(nodes, root, email);
    var atts := ListAttachmentsOfMailId(x, nodes, root, email, id);
    var afterAtts := UnlinkEach(nodes, locked, AttachmentPaths(x, dir, atts));
    UnlinkSpec(afterAtts, locked, Join(dir, id + ".json"))
  }

  /** Deleting a message removes nothing but its attachments and the
      message file; it reports success exactly when the message file was
      there to unlink once the attachments were gone; and a message file
      that no attachment name reaches is removed whenever it is a
      file that may be unlinked. */
  lemma DeleteEmailRemovesOnlyTheMessage(x: Externals, nodes: Nodes, locked: set<Path>, root: Path, email: string, id: string)
    ensures var dir := DirFor(nodes, root, email);
            var paths := AttachmentPaths(x, dir, ListAttachmentsOfMailId(x, nodes, root, email, id));
            var message := Normalize(Join(dir, id + ".json"));
            var (after, ok) := DeleteEmailSpec(x, nodes, locked, root, email, id);
            && OnlyRemoved(nodes, after)
            && (forall k :: k in nodes && k !in after ==>
                  k == message || exists i :: 0 <= i < |paths| && k == Normalize(paths[i]))
            && (ok ==> message in nodes && message !in after)
            && (((forall i :: 0 <= i < |paths| ==> Normalize(paths[i]) != message)
                 && message in nodes && nodes[message].File? && message !in locked) ==> ok)
  {
    var dir := DirFor(nodes, root, email);
    var paths := AttachmentPaths(x, dir, ListAttachmentsOfMailId(x, nodes, root, email, id));
    UnlinkEachThenFile(nodes, locked, paths, Join(dir, id + ".json"));
  }

  /** Unlinking some paths and then one more file removes nothing else; the
      last unlink succeeds only on a file that was there, and always on an
      unlinkable file that none of the earlier paths reaches. */
  lemma UnlinkEachThenFile(nodes: Nodes, locked: set<Path>, paths: seq<Path>, file: Path)
    ensures var message := Normalize(file);
            var (after, ok) := UnlinkSpec(UnlinkEach(nodes, locked, paths), locked, file);
            && OnlyRemoved(nodes, after)
            && (forall k :: k in nodes && k !in after ==>
                  k == message || exists i :: 0 <= i < |paths| && k == Normalize(paths[i]))
            && (ok ==> message in nodes && message !in after)
            && (((forall i :: 0 <= i < |paths| ==> Normalize(paths[i]) != message)
                 && message in nodes && nodes[message].File? && message !in locked) ==> ok)
  {
    var message := Normalize(file);
    UnlinkEachRemovesOnlyThose(nodes, locked, paths);
    var afterAtts := UnlinkEach(nodes, locked, paths);
    if (forall i :: 0 <= i < |paths| ==> Normalize(paths[i]) != message) && message in nodes {
      assert message in afterAtts;
    }
  }

  /** The `foreach` of `deleteEmail`: unlink each path, ignoring failures. */
  method UnlinkAll(fs: Fs, paths: seq<Path>)
    requires fs.Valid()
    modifies fs
    ensures fs.Valid()
    ensures fs.nodes == UnlinkEach(old(fs.nodes), fs.locked, paths)
  {
    var i := 0;
    while i < |paths|
      invariant 0 <= i <= |paths|
      invariant fs.Valid()
      invariant fs.nodes == UnlinkEach(old(fs.nodes), fs.locked, paths[..i])
    {
      assert paths[..i + 1][..i] == paths[..i];
      var _ := fs.Unlink(paths[i]);
      i := i + 1;
    }
    assert paths[..|paths|] == paths;
  }

  /** `Mailbox::deleteEmail`: the attachments, then the message file. */
  method DeleteEmail(fs: Fs, x: Externals, root: Path, email: string, id: string) returns (ok: bool)
    requires fs.Valid()
    modifies fs
    ensures fs.Valid()
    ensures (fs.nodes, ok) == DeleteEmailSpec(x, old(fs.nodes), fs.locked, root, email, id)
  {
    var dir := DirFor(fs.nodes, root, email);
    var atts := ListAttachmentsOfMailId(x, fs.nodes, root, email, id);
    UnlinkAll(fs, AttachmentPaths(x, dir, atts));
    ok := fs.Unlink(Join(dir, id + ".json"));
  }

  // ---- creating and removing directories ----

  /** `Mailbox::ensureMailboxDir`: the mailbox directory, created with its
      missing parents when needed, or None when it cannot be made. */
  function EnsureMailboxDirSpec(nodes: Nodes, locked: set<Path>, root: Path, email: string): (Nodes, Option<Path>) {
    var dir := DirFor(nodes, root, email);
    if IsDir(nodes, dir) then (nodes, Some(dir))
    else
      var (after, made) := MkdirsSpec(nodes, locked, dir);
      if !made && !IsDir(after, dir) then (after, None) else (after, Some(dir))
  }

  /** An existing mailbox directory is returned and nothing changes. */
  lemma EnsureExistingMailboxDir(nodes: Nodes, locked: set<Path>, root: Path, email: string)
    requires IsDir(nodes, DirFor(nodes, root, email))
    ensures EnsureMailboxDirSpec(nodes, locked, root, email) == (nodes, Some(DirFor(nodes, root, email)))
  {
  }

  /** `Mailbox::ensureMailboxDir`. */
  method EnsureMailboxDir(fs: Fs, root: Path, email: string) returns (r: Option<Path>)
    requires fs.Valid()
    modifies fs
    ensures fs.Valid()
    ensures (fs.nodes, r) == EnsureMailboxDirSpec(old(fs.nodes), fs.locked, root, email)
    ensures r.Some? <==> IsDir(fs.nodes, DirFor(old(fs.nodes), root, email))
    ensures r.Some? ==> r.value == DirFor(old(fs.nodes), root, email)
    ensures fs.nodes == old(fs.nodes)
            || (fs.nodes, true) == MkdirsSpec(old(fs.nodes), fs.locked, DirFor(old(fs.nodes), root, email))
  {
    var dir := DirFor(fs.nodes, root, email);
    if IsDir(fs.nodes, dir) {
      return Some(dir);
    }
    MkdirsMakesDir(fs.nodes, fs.locked, dir);
    var made := fs.Mkdirs(dir);
    if !made && !IsDir(fs.nodes, dir) {
      return None;
    }
    return Some(dir);
  }

  /** What `Mailbox::deleteTree` promises: only what lies at or below the
      directory can disappear, and only if it could be removed; the call
      succeeds exactly when the directory exists, is not the root, and
      nothing at or below it is locked or unlistable, and then nothing is
      left there; a failure leaves the directory itself in place. */
  ghost predicate TreeDeleted(before: Nodes, after: Nodes, locked: set<Path>, dir: Path, ok: bool) {
    && OnlyRemoved(before, after)
    && KeptOutside(before, after, Normalize(dir))
    && RemovedRemovable(before, after, locked)
    && (!IsDir(before, dir) ==> !ok && after == before)
    && (IsDir(before, dir) ==> (ok <==> Normalize(dir) !in after))
    && (ok ==> Gone(after, Normalize(dir)))
    && (ok <==> IsDir(before, dir) && Normalize(dir) != [] && Removable(before, locked, Normalize(dir)))
  }

  /** `Mailbox::deleteTree`: empties and removes a directory depth first.
      Links and files are unlinked, directories descended into; the first
      failure stops it with false. */
  method DeleteTree(fs: Fs, dir: Path) returns (ok: bool)
    requires fs.Valid()
    modifies fs
    ensures fs.Valid()
    ensures TreeDeleted(old(fs.nodes), fs.nodes, fs.locked, dir, ok)
    decreases |Subtree(fs.nodes, Normalize(dir))|, 2
  {
    if !IsDir(fs.nodes, dir) {
      StoppedBeforeListing(fs.nodes, fs.locked, dir);
      return false;
    }
    var items := Entries(fs.nodes, dir);
    if items.None? {
      StoppedBeforeListing(fs.nodes, fs.locked, dir);
      return false;
    }
    ghost var start := fs.nodes;
    var emptied := DeleteEntries(fs, dir, items.value);
    if !emptied {
      StoppedInLoop(start, fs.nodes, fs.locked, dir, items.value);
      return false;
    }
    ghost var before := fs.nodes;
    ok := fs.Rmdir(dir);
    RemovedLast(start, before, fs.nodes, fs.locked, dir, ok);
  }

  /** The `foreach` of `deleteTree` over the listed entries `es`, skipping
      `.` and `..`: it stops with false at the first entry that cannot be
      deleted, which happens only when the directory's tree is not
      removable. Only entries' trees can disappear, and on success none of
      the listed entries is left. */
  method DeleteEntries(fs: Fs, dir: Path, es: seq<string>) returns (ok: bool)
    requires fs.Valid()
    requires IsDir(fs.nodes, dir) && Entries(fs.nodes, dir) == Some(es)
    modifies fs
    ensures fs.Valid()
    ensures OnlyRemoved(old(fs.nodes), fs.nodes)
    ensures RemovedRemovable(old(fs.nodes), fs.nodes, fs.locked)
    ensures KeptUndone(old(fs.nodes), fs.nodes, Normalize(dir), es)
    ensures ok ==> DoneGone(fs.nodes, Normalize(dir), es)
    ensures !ok ==> !Removable(old(fs.nodes), fs.locked, Normalize(dir))
    decreases |Subtree(fs.nodes, Normalize(dir))|, 1
  {
    var q := Normalize(dir);
    ghost var start := fs.nodes;
    var i := 0;
    while i < |es|
      invariant 0 <= i <= |es|
      invariant fs.Valid()
      invariant OnlyRemoved(start, fs.nodes)
      invariant RemovedRemovable(start, fs.nodes, fs.locked)
      invariant KeptUndone(start, fs.nodes, q, es[..i])
      invariant DoneGone(fs.nodes, q, es[..i])
    {
      var item := es[i];
      TakeOneMore(es, i);
      if item != "." && item != ".." {
        EntriesAreChildren(start, dir, i);
        EntriesDistinct(start, dir, i);
        SubsetCardinality(Subtree(fs.nodes, q), Subtree(start, q));
        ghost var mid := fs.nodes;
        var deleted := DeleteEntry(fs, dir, item);
        RemovedRemovableTrans(start, mid, fs.nodes, fs.locked);
        KeptAfterEntry(start, mid, fs.nodes, q, es[..i], item);
        if !deleted {
          NotRemovableAbove(start, mid, fs.locked, q, item);
          KeptUndoneMore(start, fs.nodes, q, es, i + 1);
          return false;
        }
        GoneAfterEntry(mid, fs.nodes, q, es[..i], item);
      } else {
        SkippedDot(start, fs.nodes, q, es[..i], item);
      }
      i := i + 1;
    }
    assert es[..i] == es;
    ok := true;
  }

  /** `deleteTree` stops before deleting anything: nothing changes. */
  lemma StoppedBeforeListing(nodes: Nodes, locked: set<Path>, dir: Path)
    requires !IsDir(nodes, dir) || Entries(nodes, dir).None?
    ensures TreeDeleted(nodes, nodes, locked, dir, false)
  {
  }

  /** `deleteTree` stops after an entry could not be deleted. */
  lemma StoppedInLoop(start: Nodes, nodes: Nodes, locked: set<Path>, dir: Path, done: seq<string>)
    requires IsDir(start, dir)
    requires OnlyRemoved(start, nodes) && RemovedRemovable(start, nodes, locked)
    requires KeptUndone(start, nodes, Normalize(dir), done)
    requires !Removable(start, locked, Normalize(dir))
    ensures TreeDeleted(start, nodes, locked, dir, false)
  {
  }

  /** `deleteTree` removes the emptied directory last. */
  lemma RemovedLast(start: Nodes, emptied: Nodes, after: Nodes, locked: set<Path>, dir: Path, ok: bool)
    requires WellFormed(emptied)
    requires IsDir(start, dir) && Entries(start, dir).Some?
    requires OnlyRemoved(start, emptied) && RemovedRemovable(start, emptied, locked)
    requires KeptUndone(start, emptied, Normalize(dir), Entries(start, dir).value)
    requires DoneGone(emptied, Normalize(dir), Entries(start, dir).value)
    requires (after, ok) == RmdirSpec(emptied, locked, dir)
    ensures TreeDeleted(start, after, locked, dir, ok)
  {
    var q := Normalize(dir);
    NoEntryLeft(start, emptied, dir);
    RmdirRemovesTree(emptied, locked, dir);
    RemovedRemovableTrans(start, emptied, after, locked);
    if ok {
      GoneWasRemovable(start, after, locked, q);
    }
  }

  /** A child whose tree is not removable makes its parent's tree not removable. */
  lemma NotRemovableAbove(start: Nodes, mid: Nodes, locked: set<Path>, q: Path, item: string)
    requires OnlyRemoved(start, mid)
    requires !Removable(mid, locked, q + [item])
    ensures !Removable(start, locked, q)
  {
    if Removable(start, locked, q) {
      RemovableChild(start, mid, locked, q, item);
    }
  }

  /** One entry of the `foreach` in `deleteTree`: a link or anything that
      is not a directory is unlinked, a directory is deleted as a tree.
      Only the entry's own tree can disappear, and it succeeds exactly when
      the entry exists and its tree is removable; then the tree is gone. */
  method DeleteEntry(fs: Fs, dir: Path, item: string) returns (ok: bool)
    requires fs.Valid()
    requires Plain(item) && Normalize(dir) in fs.nodes
    modifies fs
    ensures fs.Valid()
    ensures OnlyRemoved(old(fs.nodes), fs.nodes)
    ensures KeptOutside(old(fs.nodes), fs.nodes, Normalize(dir) + [item])
    ensures RemovedRemovable(old(fs.nodes), fs.nodes, fs.locked)
    ensures ok ==> Gone(fs.nodes, Normalize(dir) + [item])
    ensures ok <==> Normalize(dir) + [item] in old(fs.nodes)
                    && Removable(old(fs.nodes), fs.locked, Normalize(dir) + [item])
    decreases |Subtree(fs.nodes, Normalize(dir))|, 0
  {
    var path := dir + [item];
    NormalizeChild(dir, item);
    if IsLink(fs.nodes, path) || !IsDir(fs.nodes, path) {
      var p := Normalize(path);
      if p in fs.nodes {
        NothingBelowNonDir(fs.nodes, p);
      }
      ok := fs.Unlink(path);
    } else {
      SubtreeShrinks(fs.nodes, fs.nodes, Normalize(dir), item);
      ok := DeleteTree(fs, path);
    }
  }
}
