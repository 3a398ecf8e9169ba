/** The SMTP receiver (`python/mailserver3.py`): how an accepted message is
    routed to mailbox directories, how attachments are named and linked from
    the HTML body, and how the webhook payload is filled in and signed. The
    SMTP session, MIME parsing, file writes and the HTTP delivery of webhooks
    are not modelled; their inputs and outputs are parameters here. */
module MailReceiver {
  import opened Wrappers
  import opened Text
  import opened FileSystem
  import opened Externals
  import opened Ordering
  import Sandbox
  import LegacyCore
  import A = ApiController

  // ---------------------------------------------------------------------
  // Names on disk

  /** The characters a mailbox directory name keeps: `[a-z0-9@._-]`. */
  predicate DirChar(c: char) {
    ('a' <= c <= 'z') || IsDigit(c) || c == '@' || c == '.' || c == '_' || c == '-'
  }

  /** The characters an attachment name keeps: `[a-zA-Z0-9.-_]`. */
  predicate AttChar(c: char) {
    ('a' <= c <= 'z') || ('A' <= c <= 'Z') || IsDigit(c) || c == '.' || c == '-' || c == '_'
  }

  /** The longest prefix of characters not kept is dropped. */
  function SkipRun(s: string, keep: char -> bool): (r: string)
    ensures |r| <= |s| && r == s[|s| - |r|..]
    ensures r == [] || keep(r[0])
    ensures forall i :: 0 <= i < |s| - |r| ==> !keep(s[i])
    decreases |s|
  {
    if s != [] && !keep(s[0]) then
      var t := SkipRun(s[1..], keep);
      assert forall i :: 1 <= i < |s| - |t| ==> s[i] == s[1..][i - 1];
      t
    else s
  }

  /** `re.sub(r"[^...]+", "_", s)`: every maximal run of characters not
      kept becomes one underscore. */
  function ReplaceRuns(s: string, keep: char -> bool): (r: string)
    ensures |r| <= |s|
    ensures s != [] ==> r != []
    decreases |s|
  {
    if s == [] then []
    else if keep(s[0]) then [s[0]] + ReplaceRuns(s[1..], keep)
    else "_" + ReplaceRuns(SkipRun(s[1..], keep), keep)
  }

  /** When the underscore is itself kept, only kept characters remain. */
  lemma {:induction false} ReplaceRunsOnlyKept(s: string, keep: char -> bool)
    requires keep('_')
    ensures forall i :: 0 <= i < |ReplaceRuns(s, keep)| ==> keep(ReplaceRuns(s, keep)[i])
    decreases |s|
  {
    if s == [] {
    } else if keep(s[0]) {
      ReplaceRunsOnlyKept(s[1..], keep);
    } else {
      ReplaceRunsOnlyKept(SkipRun(s[1..], keep), keep);
    }
  }

  /** A name made of kept characters only is left as it is. */
  lemma {:induction false} ReplaceRunsFixed(s: string, keep: char -> bool)
    requires forall i :: 0 <= i < |s| ==> keep(s[i])
    ensures ReplaceRuns(s, keep) == s
    decreases |s|
  {
    if s != [] {
      ReplaceRunsFixed(s[1..], keep);
    }
  }

  /** Sanitising twice is sanitising once. */
  lemma ReplaceRunsIdempotent(s: string, keep: char -> bool)
    requires keep('_')
    ensures ReplaceRuns(ReplaceRuns(s, keep), keep) == ReplaceRuns(s, keep)
  {
    ReplaceRunsOnlyKept(s, keep);
    ReplaceRunsFixed(ReplaceRuns(s, keep), keep);
  }

  /** A kept character of the input survives. */
  lemma {:induction false} ReplaceRunsKeepsChar(s: string, keep: char -> bool, c: char)
    requires c in s && keep(c)
    ensures c in ReplaceRuns(s, keep)
    decreases |s|
  {
    if s[0] == c {
    } else if keep(s[0]) {
      ReplaceRunsKeepsChar(s[1..], keep, c);
    } else {
      var k :| 0 <= k < |s| && s[k] == c;
      var t := SkipRun(s[1..], keep);
      assert s[1..][k - 1] == c;
      assert k - 1 >= |s| - 1 - |t|;
      assert t[k - 1 - (|s| - 1 - |t|)] == c;
      ReplaceRunsKeepsChar(t, keep, c);
    }
  }

  /** The mailbox directory name: the lower-cased address with every run of
      other characters replaced by `_`. */
  function SafeName(email: string): string {
    ReplaceRuns(Lower(email), DirChar)
  }

  /** `DATA_DIR`: `data` next to the directory above the script's. */
  function DataDir(scriptDir: Path): (r: Path)
    ensures IsCanonical(r)
  {
    Normalize(scriptDir + [".."]) + ["data"]
  }

  /** `safe_email_dir`: the resolved join of `DATA_DIR` and the safe name,
      refused with a `ValueError` unless it is `DATA_DIR` or below it. */
  function SafeEmailDir(scriptDir: Path, email: string): Result<Path, Exception> {
    var data := DataDir(scriptDir);
    var path := Normalize(data + [SafeName(email)]);
    if Below(path, data) || path == data then Ok(path) else Err(ValueError)
  }

  /** The only name refused is `..`, which names the parent of `DATA_DIR`;
      `""` and `.` name `DATA_DIR` itself, and every other name is one entry
      below it. */
  lemma SafeEmailDirOutcome(scriptDir: Path, email: string)
    ensures var safe := SafeName(email);
      SafeEmailDir(scriptDir, email)
      == if safe == ".." then Err(ValueError)
         else if Plain(safe) then Ok(DataDir(scriptDir) + [safe])
         else Ok(DataDir(scriptDir))
  {
    var data := DataDir(scriptDir);
    var safe := SafeName(email);
    NormalizeCanonical(data);
    NormalizeAppend(data, safe);
    if safe == ".." {
      assert !Below(data[..|data| - 1], data);
    }
  }

  /** The names are the same for both front ends only while the address
      holds no separator: the receiver also rewrites every other character
      outside `[a-z0-9@._-]`, which the web side keeps. */
  lemma ReceiverAndWebNamesDiffer(email: string, c: char)
    requires c in Lower(email) && !DirChar(c) && c != '/' && c != '\\' && c != '\0'
    ensures SafeName(email) != Sandbox.Sanitize(email)
  {
    ReplaceRunsOnlyKept(Lower(email), DirChar);
    var s0 := Lower(email);
    var s1 := ReplaceAll(s0, "../", "_");
    var s2 := ReplaceAll(s1, "..\\", "_");
    var s3 := ReplaceAll(s2, "/", "_");
    var s4 := ReplaceAll(s3, "\\", "_");
    ReplaceAllKeepsPresent(s0, "../", "_", c);
    ReplaceAllKeepsPresent(s1, "..\\", "_", c);
    ReplaceAllKeepsPresent(s2, "/", "_", c);
    ReplaceAllKeepsPresent(s3, "\\", "_", c);
    ReplaceAllKeepsPresent(s4, "\0", "_", c);
  }

  /** An address made of `[a-z0-9@._-]` after lower-casing gets the same
      directory name from both front ends. */
  lemma ReceiverAndWebNamesAgree(email: string)
    requires forall i :: 0 <= i < |Lower(email)| ==> DirChar(Lower(email)[i])
    ensures SafeName(email) == Sandbox.Sanitize(email) == Lower(email)
  {
    ReplaceRunsFixed(Lower(email), DirChar);
    Sandbox.SanitizeOfPlainAddress(email);
  }

  /** With the script in `<repo>/python`, mail is stored in `<repo>/data`,
      the directory both web front ends read. */
  lemma ReceiverDataDirectory(repo: Path)
    ensures DataDir(repo + ["python"]) == Normalize(repo) + ["data"]
  {
    LegacyCore.UpFromChild(repo, "python");
    assert repo + ["python"] + [".."] == repo + ["python", ".."];
  }

  /** `os.path.basename`: the text after the last `/`. */
  function Basename(p: string): (r: string)
    ensures '/' !in r
    ensures |r| <= |p| && r == p[|p| - |r|..]
    decreases |p|
  {
    if p == [] || p[|p| - 1] == '/' then [] else Basename(p[..|p| - 1]) + [p[|p| - 1]]
  }

  /** The sanitised base name of an attachment (`file` when it has none). */
  function AttachmentName(filename: string): (r: string)
    ensures r != [] && forall i :: 0 <= i < |r| ==> AttChar(r[i])
  {
    var base := Basename(filename);
    var b := if base == "" then "file" else base;
    ReplaceRunsOnlyKept(b, AttChar);
    ReplaceRuns(b, AttChar)
  }

  /** `safe_attachment_id`: the MD5 of the sanitised name, `_`, the name. */
  function SafeAttachmentId(x: Externals, filename: string): (r: string)
    ensures |r| > |AttachmentName(filename)|
    ensures r[|r| - |AttachmentName(filename)|..] == AttachmentName(filename)
    ensures r[|r| - |AttachmentName(filename)| - 1] == '_'
  {
    var name := AttachmentName(filename);
    x.md5(name) + "_" + name
  }

  /** MD5 digests are written as lower-case hexadecimal. */
  ghost predicate HexDigests(x: Externals) {
    forall s, i :: 0 <= i < |x.md5(s)| ==> IsHexDigit(x.md5(s)[i])
  }

  predicate IsHexDigit(c: char) {
    IsDigit(c) || ('a' <= c <= 'f')
  }

  /** With hexadecimal digests the file id is a single plain name: no
      separator, and never `.` or `..` since it holds an `_`. */
  lemma AttachmentIdIsPlain(x: Externals, filename: string)
    requires HexDigests(x)
    ensures '/' !in SafeAttachmentId(x, filename)
    ensures Plain(SafeAttachmentId(x, filename))
  {
    var name := AttachmentName(filename);
    var r := SafeAttachmentId(x, filename);
    assert r == x.md5(name) + "_" + name;
    forall i | 0 <= i < |r|
      ensures r[i] != '/'
    {
      if i < |x.md5(name)| {
        assert IsHexDigit(x.md5(name)[i]);
      } else if i > |x.md5(name)| {
        assert AttChar(name[i - |x.md5(name)| - 1]);
      }
    }
    assert r[|x.md5(name)|] == '_';
  }

  /** `abspath(join(attachments_dir, file_id))`: the id is split at `/`. */
  function AttachmentPath(attachmentsDir: Path, fileId: string): Path {
    Normalize(attachmentsDir + SplitOn(fileId, '/'))
  }

  /** The `startswith(attachments_dir + os.sep)` check. */
  predicate AttachmentPathAllowed(attachmentsDir: Path, fileId: string) {
    Below(AttachmentPath(attachmentsDir, fileId), attachmentsDir)
  }

  /** Below a resolved attachments directory the check never blocks a file
      id: it names one file directly inside the directory. */
  lemma AttachmentCheckAlwaysPasses(x: Externals, attachmentsDir: Path, filename: string)
    requires HexDigests(x) && IsCanonical(attachmentsDir)
    ensures AttachmentPath(attachmentsDir, SafeAttachmentId(x, filename))
         == attachmentsDir + [SafeAttachmentId(x, filename)]
    ensures AttachmentPathAllowed(attachmentsDir, SafeAttachmentId(x, filename))
  {
    var id := SafeAttachmentId(x, filename);
    AttachmentIdIsPlain(x, filename);
    SplitNoSeparator(id, '/');
    NormalizeChild(attachmentsDir, id);
    NormalizeCanonical(attachmentsDir);
  }

  // ---------------------------------------------------------------------
  // Recipients

  /** `[^@\s]+`: non-empty, without `@` or white space. */
  predicate NoAtNoSpace(s: string) {
    s != [] && forall i :: 0 <= i < |s| ==> s[i] != '@' && s[i] !in PyWhitespace
  }

  /** `[a-zA-Z0-9]+`. */
  predicate AlnumRun(s: string) {
    s != [] && forall i :: 0 <= i < |s| ==> ('a' <= s[i] <= 'z') || ('A' <= s[i] <= 'Z') || IsDigit(s[i])
  }

  /** `[^@\s]+\.[a-zA-Z0-9]+`: the part after the `@`. */
  predicate DomainShape(d: string) {
    NoAtNoSpace(d) && exists j | 0 < j < |d| - 1 :: d[j] == '.' && AlnumRun(d[j + 1..])
  }

  /** `[^@\s]+@` followed by a domain. */
  predicate AddressShape(s: string) {
    exists i | 0 < i < |s| :: s[i] == '@' && NoAtNoSpace(s[..i]) && DomainShape(s[i + 1..])
  }

  /** `re.match(r"^[^@\s]+@[^@\s]+\.[a-zA-Z0-9]+$", em)`; Python's `$` also
      matches just before a final newline. */
  predicate ValidRecipient(em: string) {
    AddressShape(em) || (em != [] && em[|em| - 1] == '\n' && AddressShape(em[..|em| - 1]))
  }

  /** `em.split("@", 1)[1]`: the text after the first `@`. */
  function DomainOf(em: string): (r: string)
    ensures |r| <= |em|
  {
    if em == [] then [] else if em[0] == '@' then em[1..] else DomainOf(em[1..])
  }

  /** `x.replace("*", "")`. */
  function RemoveStars(x: string): (r: string)
    ensures '*' !in r
  {
    if x == [] then [] else (if x[0] == '*' then [] else [x[0]]) + RemoveStars(x[1..])
  }

  /** One entry of `DOMAINS` accepts a domain: after stripping, a non-empty
      entry with a `*` accepts every domain ending in the entry without its
      stars, and any entry accepts the domain equal to it. */
  predicate EntryMatches(entry: string, domain: string) {
    StrippedMatches(Trim(entry, PyWhitespace), domain)
  }

  predicate StrippedMatches(x: string, domain: string) {
    x != "" && (('*' in x && EndsWithSuffix(domain, RemoveStars(x))) || domain == x)
  }

  predicate KnownDomain(domains: seq<string>, domain: string) {
    exists k | 0 <= k < |domains| :: EntryMatches(domains[k], domain)
  }

  /** The loop over `DOMAINS` that sets `found`. */
  method FindDomain(domains: seq<string>, domain: string) returns (found: bool)
    ensures found == KnownDomain(domains, domain)
  {
    var k := 0;
    while k < |domains|
      invariant 0 <= k <= |domains|
      invariant forall j :: 0 <= j < k ==> !EntryMatches(domains[j], domain)
    {
      var x := Trim(domains[k], PyWhitespace);
      assert EntryMatches(domains[k], domain) == StrippedMatches(x, domain);
      if x != "" {
        if '*' in x && EndsWithSuffix(domain, RemoveStars(x)) {
          return true;
        }
        if domain == x {
          return true;
        }
      }
      k := k + 1;
    }
    return false;
  }

  /** An entry that is a lone `*` accepts every domain. */
  lemma StarAcceptsEverything(entry: string, domain: string)
    requires Trim(entry, PyWhitespace) == "*"
    ensures EntryMatches(entry, domain)
  {
    assert RemoveStars("*") == [];
  }

  /** An entry without a star accepts exactly the domain it names. */
  lemma PlainEntryIsExact(entry: string, domain: string)
    requires '*' !in Trim(entry, PyWhitespace)
    ensures EntryMatches(entry, domain) <==> domain != "" && domain == Trim(entry, PyWhitespace)
  {
  }

  /** `*` followed by a star-free suffix accepts exactly the domains that end
      in that suffix; the suffix alone (`example.com` for `*.example.com`) is
      not one of them when the suffix starts with a dot. */
  lemma {:induction false} LeadingStarIsSuffix(entry: string, suffix: string, domain: string)
    requires Trim(entry, PyWhitespace) == "*" + suffix && '*' !in suffix
    ensures EntryMatches(entry, domain) <==> EndsWithSuffix(domain, suffix)
  {
    var x := "*" + suffix;
    assert x[1..] == suffix;
    StarFreeUnchanged(suffix);
    assert RemoveStars(x) == suffix;
    if domain == x {
      assert domain[|domain| - |suffix|..] == suffix;
    }
  }

  lemma {:induction false} StarFreeUnchanged(s: string)
    requires '*' !in s
    ensures RemoveStars(s) == s
  {
    if s != [] {
      StarFreeUnchanged(s[1..]);
    }
  }

  /** Where an accepted message goes for one recipient. */
  datatype Delivery = Delivery(address: string, dir: Path)

  /** One turn of the recipient loop: the lower-cased recipient is skipped
      when it is malformed, when unknown domains are discarded and its domain
      is unknown, or when its directory is refused. */
  function Route(scriptDir: Path, discard: bool, domains: seq<string>, rcpt: string): Option<Delivery> {
    var em := Lower(rcpt);
    if !ValidRecipient(em) then None
    else if discard && !KnownDomain(domains, DomainOf(em)) then None
    else
      var dir := SafeEmailDir(scriptDir, em);
      if dir.Err? then None else Some(Delivery(em, dir.value))
  }

  function AsSeq(o: Option<Delivery>): seq<Delivery> {
    if o.Some? then [o.value] else []
  }

  /** The deliveries of a recipient list, in order. */
  function Routes(scriptDir: Path, discard: bool, domains: seq<string>, rcpts: seq<string>): seq<Delivery>
    decreases |rcpts|
  {
    if rcpts == [] then []
    else Routes(scriptDir, discard, domains, rcpts[..|rcpts| - 1])
         + AsSeq(Route(scriptDir, discard, domains, rcpts[|rcpts| - 1]))
  }

  /** The recipient loop of `handle_DATA`, up to the directory it stores in. */
  method RouteRecipients(scriptDir: Path, discard: bool, domains: seq<string>, rcpts: seq<string>)
    returns (out: seq<Delivery>)
    ensures out == Routes(scriptDir, discard, domains, rcpts)
  {
    out := [];
    var i := 0;
    while i < |rcpts|
      invariant 0 <= i <= |rcpts|
      invariant out == Routes(scriptDir, discard, domains, rcpts[..i])
    {
      assert rcpts[..i + 1][..i] == rcpts[..i];
      var d := RouteOne(scriptDir, discard, domains, rcpts[i]);
      out := out + AsSeq(d);
      i := i + 1;
    }
    assert rcpts[..|rcpts|] == rcpts;
  }

  /** The body of the recipient loop. */
  method RouteOne(scriptDir: Path, discard: bool, domains: seq<string>, rcpt: string) returns (d: Option<Delivery>)
    ensures d == Route(scriptDir, discard, domains, rcpt)
  {
    var em := Lower(rcpt);
    if !ValidRecipient(em) {
      return None;
    }
    var found := FindDomain(domains, DomainOf(em));
    if discard && !found {
      return None;
    }
    var dir := SafeEmailDir(scriptDir, em);
    if dir.Err? {
      return None;
    }
    return Some(Delivery(em, dir.value));
  }

  /** A well-formed address holds an `@`, so its directory name does too and
      is never refused: it is one entry directly below `DATA_DIR`. */
  lemma ValidRecipientHasDirectory(scriptDir: Path, em: string)
    requires ValidRecipient(em)
    ensures SafeEmailDir(scriptDir, em) == Ok(DataDir(scriptDir) + [SafeName(em)])
  {
    ValidRecipientHasAt(em);
    SafeNameKeepsAt(em);
    SafeEmailDirOutcome(scriptDir, em);
  }

  lemma ValidRecipientHasAt(em: string)
    requires ValidRecipient(em)
    ensures '@' in em
  {
    if AddressShape(em) {
      var i :| 0 < i < |em| && em[i] == '@';
    } else {
      var e := em[..|em| - 1];
      var i :| 0 < i < |e| && e[i] == '@';
      assert em[i] == '@';
    }
  }

  lemma SafeNameKeepsAt(em: string)
    requires '@' in em
    ensures Plain(SafeName(em))
  {
    var i :| 0 <= i < |em| && em[i] == '@';
    assert Lower(em)[i] == '@';
    ReplaceRunsKeepsChar(Lower(em), DirChar, '@');
    var safe := SafeName(em);
    assert '@' !in "..";
    assert '@' !in ".";
  }

  /** A recipient is delivered exactly when it is well-formed and its
      domain is known or unknown domains are kept; it is stored under its
      lower-cased address, one entry below `DATA_DIR`. */
  lemma RouteOutcome(scriptDir: Path, discard: bool, domains: seq<string>, rcpt: string)
    ensures var em := Lower(rcpt);
      Route(scriptDir, discard, domains, rcpt)
      == if ValidRecipient(em) && (!discard || KnownDomain(domains, DomainOf(em)))
         then Some(Delivery(em, DataDir(scriptDir) + [SafeName(em)]))
         else None
  {
    var em := Lower(rcpt);
    if ValidRecipient(em) {
      ValidRecipientHasDirectory(scriptDir, em);
    }
  }

  /** Every delivery of the loop is for a well-formed address and goes to a
      directory directly below `DATA_DIR`. */
  lemma {:induction false} RoutesStayInDataDir(scriptDir: Path, discard: bool, domains: seq<string>, rcpts: seq<string>)
    ensures var out := Routes(scriptDir, discard, domains, rcpts);
      |out| <= |rcpts|
      && forall k :: 0 <= k < |out| ==>
           ValidRecipient(out[k].address) && out[k].dir == DataDir(scriptDir) + [SafeName(out[k].address)]
    decreases |rcpts|
  {
    if rcpts != [] {
      RoutesStayInDataDir(scriptDir, discard, domains, rcpts[..|rcpts| - 1]);
      RouteOutcome(scriptDir, discard, domains, rcpts[|rcpts| - 1]);
    }
  }

  // ---------------------------------------------------------------------
  // JSON escaping of webhook values

  /** `json_escape` on a text: five `str.replace` calls, in this order. */
  function EscapeChain(s: string): string {
    var s1 := ReplaceAll(s, "\\", "\\\\");
    var s2 := ReplaceAll(s1, "\"", "\\\"");
    var s3 := ReplaceAll(s2, "\n", "\\n");
    var s4 := ReplaceAll(s3, "\r", "\\r");
    ReplaceAll(s4, "\t", "\\t")
  }

  /** `json_escape`: `None` becomes the empty text. */
  function JsonEscape(value: Option<string>): string {
    if value.None? then "" else EscapeChain(value.value)
  }

  /** What the five replacements do to one character. */
  function EscapeChar(c: char): string {
    if c == '\\' then "\\\\"
    else if c == '"' then "\\\""
    else if c == '\n' then "\\n"
    else if c == '\r' then "\\r"
    else if c == '\t' then "\\t"
    else [c]
  }

  /** Escaping character by character. */
  function EscapeEach(s: string): string {
    if s == [] then [] else EscapeChar(s[0]) + EscapeEach(s[1..])
  }

  /** Replacing one character, character by character. */
  function Sub(s: string, c: char, rep: string): string {
    if s == [] then [] else (if s[0] == c then rep else [s[0]]) + Sub(s[1..], c, rep)
  }

  lemma {:induction false} ReplaceCharIsSub(s: string, c: char, rep: string)
    ensures ReplaceAll(s, [c], rep) == Sub(s, c, rep)
    decreases |s|
  {
    if s != [] {
      assert s[..1] == [s[0]];
      ReplaceCharIsSub(s[1..], c, rep);
    }
  }

  lemma {:induction false} SubAppend(a: string, b: string, c: char, rep: string)
    ensures Sub(a + b, c, rep) == Sub(a, c, rep) + Sub(b, c, rep)
    decreases |a|
  {
    if a == [] {
      assert a + b == b;
    } else {
      assert (a + b)[1..] == a[1..] + b;
      SubAppend(a[1..], b, c, rep);
    }
  }

  lemma {:induction false} SubAbsent(s: string, c: char, rep: string)
    requires c !in s
    ensures Sub(s, c, rep) == s
    decreases |s|
  {
    if s != [] {
      SubAbsent(s[1..], c, rep);
    }
  }

  lemma SubOne(c: char, d: char, rep: string)
    ensures Sub([c], d, rep) == if c == d then rep else [c]
  {
    assert [c][1..] == [];
  }

  function SubChain(s: string): string {
    Sub(Sub(Sub(Sub(Sub(s, '\\', "\\\\"), '"', "\\\""), '\n', "\\n"), '\r', "\\r"), '\t', "\\t")
  }

  lemma ChainIsSubChain(s: string)
    ensures EscapeChain(s) == SubChain(s)
  {
    var s1 := Sub(s, '\\', "\\\\");
    var s2 := Sub(s1, '"', "\\\"");
    var s3 := Sub(s2, '\n', "\\n");
    var s4 := Sub(s3, '\r', "\\r");
    ReplaceCharIsSub(s, '\\', "\\\\");
    ReplaceCharIsSub(s1, '"', "\\\"");
    ReplaceCharIsSub(s2, '\n', "\\n");
    ReplaceCharIsSub(s3, '\r', "\\r");
    ReplaceCharIsSub(s4, '\t', "\\t");
  }

  lemma SubChainAppend(a: string, b: string)
    ensures SubChain(a + b) == SubChain(a) + SubChain(b)
  {
    SubAppend(a, b, '\\', "\\\\");
    var a1, b1 := Sub(a, '\\', "\\\\"), Sub(b, '\\', "\\\\");
    SubAppend(a1, b1, '"', "\\\"");
    var a2, b2 := Sub(a1, '"', "\\\""), Sub(b1, '"', "\\\"");
    SubAppend(a2, b2, '\n', "\\n");
    var a3, b3 := Sub(a2, '\n', "\\n"), Sub(b2, '\n', "\\n");
    SubAppend(a3, b3, '\r', "\\r");
    var a4, b4 := Sub(a3, '\r', "\\r"), Sub(b3, '\r', "\\r");
    SubAppend(a4, b4, '\t', "\\t");
  }

  /** The last four replacements leave a text alone when it holds none of
      their characters. */
  lemma LaterStepsAbsent(s: string, from: nat)
    requires from <= 4
    requires from <= 1 ==> '"' !in s
    requires from <= 2 ==> '\n' !in s
    requires from <= 3 ==> '\r' !in s
    requires '\t' !in s
    ensures from == 1 ==> Sub(Sub(Sub(Sub(s, '"', "\\\""), '\n', "\\n"), '\r', "\\r"), '\t', "\\t") == s
    ensures from == 2 ==> Sub(Sub(Sub(s, '\n', "\\n"), '\r', "\\r"), '\t', "\\t") == s
    ensures from == 3 ==> Sub(Sub(s, '\r', "\\r"), '\t', "\\t") == s
    ensures from == 4 ==> Sub(s, '\t', "\\t") == s
  {
    if from <= 1 { SubAbsent(s, '"', "\\\""); }
    if from <= 2 { SubAbsent(s, '\n', "\\n"); }
    if from <= 3 { SubAbsent(s, '\r', "\\r"); }
    SubAbsent(s, '\t', "\\t");
  }

  lemma SubChainChar(c: char)
    ensures SubChain([c]) == EscapeChar(c)
  {
    SubOne(c, '\\', "\\\\");
    if c == '\\' {
      LaterStepsAbsent("\\\\", 1);
    } else {
      SubOne(c, '"', "\\\"");
      if c == '"' {
        LaterStepsAbsent("\\\"", 2);
      } else {
        SubOne(c, '\n', "\\n");
        if c == '\n' {
          LaterStepsAbsent("\\n", 3);
        } else {
          SubOne(c, '\r', "\\r");
          if c == '\r' {
            LaterStepsAbsent("\\r", 4);
          } else {
            SubOne(c, '\t', "\\t");
          }
        }
      }
    }
  }

  lemma {:induction false} SubChainIsEach(s: string)
    ensures SubChain(s) == EscapeEach(s)
    decreases |s|
  {
    if s != [] {
      assert s == [s[0]] + s[1..];
      SubChainAppend([s[0]], s[1..]);
      SubChainChar(s[0]);
      SubChainIsEach(s[1..]);
    }
  }

  /** The chain of replacements escapes each character on its own: no
      replacement rewrites what an earlier one produced. */
  lemma EscapeChainIsEach(s: string)
    ensures EscapeChain(s) == EscapeEach(s)
  {
    ChainIsSubChain(s);
    SubChainIsEach(s);
  }

  lemma {:induction false} EscapeEachAppend(a: string, b: string)
    ensures EscapeEach(a + b) == EscapeEach(a) + EscapeEach(b)
    decreases |a|
  {
    if a == [] {
      assert a + b == b;
    } else {
      assert (a + b)[1..] == a[1..] + b;
      EscapeEachAppend(a[1..], b);
    }
  }

  /** The escapes a JSON string may hold besides `\uXXXX`. */
  const SimpleEscapes: map<char, char> := map[
    '"' := '"', '\\' := '\\', '/' := '/', 'b' := '\U{8}',
    'f' := '\U{C}', 'n' := '\n', 'r' := '\r', 't' := '\t']

  predicate IsAnyHex(c: char) {
    IsDigit(c) || ('a' <= c <= 'f') || ('A' <= c <= 'F')
  }

  function HexValue(c: char): (n: nat)
    requires IsAnyHex(c)
    ensures n < 16
  {
    if IsDigit(c) then c as int - '0' as int
    else if 'a' <= c <= 'f' then c as int - 'a' as int + 10
    else c as int - 'A' as int + 10
  }

  function Prepend(c: char, r: Option<string>): Option<string> {
    if r.None? then None else Some([c] + r.value)
  }

  /** The text between the quotes of a JSON string literal, decoded the way
      a strict decoder (Python's `json.loads`) does: a raw quote or control
      character is an error. `\u` escapes of surrogate code points are
      refused here. */
  function DecodeBody(s: string): Option<string>
    decreases |s|
  {
    if s == [] then Some([])
    else if s[0] == '\\' then
      if |s| >= 2 && s[1] in SimpleEscapes then Prepend(SimpleEscapes[s[1]], DecodeBody(s[2..]))
      else if |s| >= 6 && s[1] == 'u' && IsAnyHex(s[2]) && IsAnyHex(s[3]) && IsAnyHex(s[4]) && IsAnyHex(s[5]) then
        var v := 4096 * HexValue(s[2]) + 256 * HexValue(s[3]) + 16 * HexValue(s[4]) + HexValue(s[5]);
        if 0xD800 <= v < 0xE000 then None else Prepend(v as char, DecodeBody(s[6..]))
      else None
    else if s[0] == '"' || (s[0] as int) < 0x20 then None
    else Prepend(s[0], DecodeBody(s[1..]))
  }

  /** Characters a JSON string may hold after `json_escape`. */
  predicate JsonSafeChar(c: char) {
    (c as int) >= 0x20 || c == '\n' || c == '\r' || c == '\t'
  }

  lemma DecodeEscapedChar(c: char, rest: string)
    requires JsonSafeChar(c)
    ensures DecodeBody(EscapeChar(c) + rest) == Prepend(c, DecodeBody(rest))
  {
    var t := EscapeChar(c) + rest;
    if c == '\\' || c == '"' || c == '\n' || c == '\r' || c == '\t' {
      assert t[0] == '\\' && t[2..] == rest;
      assert t[1] in SimpleEscapes && SimpleEscapes[t[1]] == c;
    } else {
      assert t[0] == c && t[1..] == rest;
    }
  }

  /** A text without control characters other than newline, carriage return
      and tab decodes back from its escaped form. */
  lemma {:induction false} JsonEscapeRoundTrip(s: string)
    requires forall i :: 0 <= i < |s| ==> JsonSafeChar(s[i])
    ensures DecodeBody(JsonEscape(Some(s))) == Some(s)
  {
    EscapeChainIsEach(s);
    EscapeEachRoundTrip(s);
  }

  lemma {:induction false} EscapeEachRoundTrip(s: string)
    requires forall i :: 0 <= i < |s| ==> JsonSafeChar(s[i])
    ensures DecodeBody(EscapeEach(s)) == Some(s)
    decreases |s|
  {
    if s != [] {
      assert [s[0]] + s[1..] == s;
      EscapeEachRoundTrip(s[1..]);
      DecodeEscapedChar(s[0], EscapeEach(s[1..]));
    }
  }

  /** Whatever precedes an undecodable text, escaped, the whole stays
      undecodable. */
  lemma {:induction false} EscapedThenFailing(p: string, t: string)
    requires DecodeBody(t) == None
    ensures DecodeBody(EscapeEach(p) + t) == None
    decreases |p|
  {
    if p != [] {
      assert EscapeEach(p) + t == EscapeChar(p[0]) + (EscapeEach(p[1..]) + t);
      EscapedThenFailing(p[1..], t);
      if JsonSafeChar(p[0]) {
        DecodeEscapedChar(p[0], EscapeEach(p[1..]) + t);
      } else {
        assert (EscapeEach(p) + t)[0] == p[0];
      }
    } else {
      assert EscapeEach(p) + t == t;
    }
  }

  /** Any other control character (form feed, backspace, ...) is left raw,
      and a strict decoder refuses the result. */
  lemma JsonEscapeLeavesControlChars(s: string, k: int)
    requires 0 <= k < |s| && !JsonSafeChar(s[k])
    ensures DecodeBody(JsonEscape(Some(s))) == None
  {
    EscapeChainIsEach(s);
    assert s == s[..k] + s[k..];
    EscapeEachAppend(s[..k], s[k..]);
    var tail := EscapeEach(s[k..]);
    assert tail[0] == s[k];
    EscapedThenFailing(s[..k], tail);
  }

  function HexDigit(n: int): (c: char)
    requires 0 <= n < 16
    ensures IsAnyHex(c) && HexValue(c) == n
  {
    if n < 10 then ('0' as int + n) as char else ('a' as int + n - 10) as char
  }

  /** The corrected escape: other control characters become `\u00XX`. */
  function StrictEscapeChar(c: char): string {
    if JsonSafeChar(c) then EscapeChar(c)
    else "\\u00" + [HexDigit(c as int / 16), HexDigit(c as int % 16)]
  }

  function StrictEscape(s: string): string {
    if s == [] then [] else StrictEscapeChar(s[0]) + StrictEscape(s[1..])
  }

  lemma DecodeStrictChar(c: char, rest: string)
    ensures DecodeBody(StrictEscapeChar(c) + rest) == Prepend(c, DecodeBody(rest))
  {
    if JsonSafeChar(c) {
      DecodeEscapedChar(c, rest);
    } else {
      var t := StrictEscapeChar(c) + rest;
      assert t[0] == '\\' && t[1] == 'u' && t[2] == '0' && t[3] == '0';
      assert t[4] == HexDigit(c as int / 16) && t[5] == HexDigit(c as int % 16);
      assert t[6..] == rest;
      assert 'u' !in SimpleEscapes;
    }
  }

  /** The corrected escape decodes back for every text. */
  lemma {:induction false} StrictEscapeRoundTrip(s: string)
    ensures DecodeBody(StrictEscape(s)) == Some(s)
    decreases |s|
  {
    if s != [] {
      StrictEscapeRoundTrip(s[1..]);
      DecodeStrictChar(s[0], StrictEscape(s[1..]));
      assert [s[0]] + s[1..] == s;
    }
  }

  /** The correction changes nothing for texts the original already handles. */
  lemma {:induction false} StrictEscapeAgrees(s: string)
    requires forall i :: 0 <= i < |s| ==> JsonSafeChar(s[i])
    ensures StrictEscape(s) == JsonEscape(Some(s))
    decreases |s|
  {
    EscapeChainIsEach(s);
    if s != [] {
      StrictEscapeAgrees(s[1..]);
      EscapeChainIsEach(s[1..]);
    }
  }

  // ---------------------------------------------------------------------
  // Webhook payload

  /** The values `replace_template_variables` reads from the stored message;
      `attachmentsJson` is `json.dumps` of the attachment details, `None`
      where that raises. */
  datatype WebhookData = WebhookData(
    rcpts: seq<string>,
    fromHeader: Option<string>,
    subject: string,
    body: string,
    htmlBody: string,
    senderIp: string,
    attachmentsJson: Option<string>)

  const Placeholders: seq<string> :=
    ["{{to}}", "{{from}}", "{{subject}}", "{{body}}", "{{htmlbody}}", "{{sender_ip}}", "{{attachments}}"]

  /** The placeholder table in its insertion order; the attachment details
      are inserted as JSON, not escaped. */
  function Replacements(d: WebhookData): (r: seq<(string, string)>)
    requires d.attachmentsJson.Some?
    ensures |r| == |Placeholders|
    ensures forall i :: 0 <= i < |r| ==> r[i].0 == Placeholders[i] && r[i].0 != ""
  {
    [("{{to}}", JsonEscape(Some(if d.rcpts != [] then d.rcpts[0] else ""))),
     ("{{from}}", JsonEscape(d.fromHeader)),
     ("{{subject}}", JsonEscape(Some(d.subject))),
     ("{{body}}", JsonEscape(Some(d.body))),
     ("{{htmlbody}}", JsonEscape(Some(d.htmlBody))),
     ("{{sender_ip}}", JsonEscape(Some(d.senderIp))),
     ("{{attachments}}", d.attachmentsJson.value)]
  }

  /** The filled-in payload text: the template itself when building the
      table raised. */
  function FillTemplate(template: string, d: WebhookData): string {
    if d.attachmentsJson.None? then template else A.ReplaceEach(template, Replacements(d))
  }

  /** `replace_template_variables`. */
  method ReplaceTemplateVariables(template: string, d: WebhookData) returns (result: string)
    ensures result == FillTemplate(template, d)
  {
    if d.attachmentsJson.None? {
      return template;
    }
    var subs := Replacements(d);
    result := template;
    var i := 0;
    while i < |subs|
      invariant 0 <= i <= |subs|
      invariant A.ReplaceEach(result, subs[i..]) == A.ReplaceEach(template, subs)
    {
      assert subs[i..][1..] == subs[i + 1..];
      result := ReplaceAll(result, subs[i].0, subs[i].1);
      i := i + 1;
    }
  }

  /** Replacing patterns that do not occur changes nothing. */
  lemma {:induction false} ReplaceEachNoMatch(s: string, subs: seq<(string, string)>)
    requires forall i :: 0 <= i < |subs| ==> subs[i].0 != "" && !Contains(s, subs[i].0)
    ensures A.ReplaceEach(s, subs) == s
    decreases |subs|
  {
    if subs != [] {
      ReplaceAllNoMatch(s, subs[0].0, subs[0].1);
      ReplaceEachNoMatch(s, subs[1..]);
    }
  }

  lemma ReplaceWhole(pat: string, rep: string)
    requires pat != ""
    ensures ReplaceAll(pat, pat, rep) == rep
  {
    assert pat[..|pat|] == pat;
    assert rep + [] == rep;
  }

  /** A text that is exactly the `k`-th pattern becomes the `k`-th value,
      provided no earlier pattern occurs in it and no later pattern occurs
      in the value (later replacements do rewrite earlier values). */
  lemma {:induction false} ReplaceEachOnePattern(subs: seq<(string, string)>, k: int)
    requires forall i :: 0 <= i < |subs| ==> subs[i].0 != ""
    requires 0 <= k < |subs|
    requires forall j :: 0 <= j < k ==> !Contains(subs[k].0, subs[j].0)
    requires forall j :: k < j < |subs| ==> !Contains(subs[k].1, subs[j].0)
    ensures A.ReplaceEach(subs[k].0, subs) == subs[k].1
    decreases |subs|
  {
    if k == 0 {
      ReplaceWhole(subs[0].0, subs[0].1);
      ReplaceEachNoMatch(subs[0].1, subs[1..]);
    } else {
      ReplaceAllNoMatch(subs[k].0, subs[0].0, subs[0].1);
      ReplaceEachOnePattern(subs[1..], k - 1);
    }
  }

  /** A template with no placeholder is sent as it is. */
  lemma FillTemplateWithoutPlaceholders(template: string, d: WebhookData)
    requires forall i :: 0 <= i < |Placeholders| ==> !Contains(template, Placeholders[i])
    ensures FillTemplate(template, d) == template
  {
    if d.attachmentsJson.Some? {
      ReplaceEachNoMatch(template, Replacements(d));
    }
  }

  lemma ContainsPrefix(s: string, pat: string, prefix: string)
    requires Contains(s, pat) && |prefix| <= |pat| && pat[..|prefix|] == prefix
    ensures Contains(s, prefix)
  {
    var i :| 0 <= i <= |s| - |pat| && OccursAt(s, pat, i);
    assert s[i..i + |prefix|] == s[i..i + |pat|][..|prefix|];
    assert OccursAt(s, prefix, i);
  }

  /** `"{{to}}"` becomes the escaped first recipient (empty without
      recipients) unless that value itself holds `{{`. */
  lemma ToPlaceholderIsFirstRecipient(d: WebhookData)
    requires d.attachmentsJson.Some?
    requires !Contains(JsonEscape(Some(if d.rcpts != [] then d.rcpts[0] else "")), "{{")
    ensures FillTemplate("{{to}}", d)
         == JsonEscape(Some(if d.rcpts != [] then d.rcpts[0] else ""))
  {
    var subs := Replacements(d);
    forall j | 0 < j < |subs|
      ensures !Contains(subs[0].1, subs[j].0)
    {
      assert subs[j].0 == Placeholders[j];
      assert Placeholders[j][..2] == "{{";
      if Contains(subs[0].1, subs[j].0) {
        ContainsPrefix(subs[0].1, subs[j].0, "{{");
      }
    }
    ReplaceEachOnePattern(subs, 0);
  }

  /** `sign_payload`: no signature without a secret, else the HMAC-SHA256
      of the payload under the secret. */
  function SignPayload(x: Externals, payload: string, secret: Option<string>): (r: Option<string>)
    ensures r.Some? <==> secret.Some? && secret.value != ""
  {
    if secret.None? || secret.value == "" then None else Some(x.hmacSha256(secret.value, payload))
  }

  /** How a webhook receiver checks the `X-Webhook-Signature` header. */
  predicate SignatureMatches(x: Externals, payload: string, secret: string, header: string) {
    header == x.hmacSha256(secret, payload)
  }

  // ---------------------------------------------------------------------
  // The webhook body and the text that is signed

  /** `\\uXXXX` with lower-case hex digits, as `json.dumps` writes it. */
  function Hex4(n: int): (r: string)
    requires 0 <= n < 0x10000
    ensures |r| == 6 && r[..2] == "\\u"
  {
    "\\u" + [HexDigit(n / 4096), HexDigit(n / 256 % 16), HexDigit(n / 16 % 16), HexDigit(n % 16)]
  }

  /** Characters `json.dumps` writes as they are under `ensure_ascii=True`. */
  predicate AsciiChar(c: char) {
    (c as int) < 0x7F
  }

  /** `json.dumps` of one character of a string: quote, backslash and
      control characters are always escaped; with `ensureAscii` so is every
      character outside printable ASCII, as `\\uXXXX` (a surrogate pair
      above U+FFFF). */
  function DumpsChar(c: char, ensureAscii: bool): (r: string)
    ensures ensureAscii ==> forall i :: 0 <= i < |r| ==> AsciiChar(r[i])
  {
    if c == '"' then "\\\"" else if c == '\\' then "\\\\"
    else if c == '\n' then "\\n" else if c == '\r' then "\\r" else if c == '\t' then "\\t"
    else if c == '\U{8}' then "\\b" else if c == '\U{C}' then "\\f"
    else if (c as int) < 0x20 then Hex4(c as int)
    else if !ensureAscii || AsciiChar(c) then [c]
    else if (c as int) < 0x10000 then Hex4(c as int)
    else
      var v := c as int - 0x10000;
      Hex4(0xD800 + v / 0x400) + Hex4(0xDC00 + v % 0x400)
  }

  function DumpsChars(s: string, ensureAscii: bool): string {
    if s == [] then [] else DumpsChar(s[0], ensureAscii) + DumpsChars(s[1..], ensureAscii)
  }

  /** `json.dumps` of a string. */
  function DumpsString(s: string, ensureAscii: bool): string {
    "\"" + DumpsChars(s, ensureAscii) + "\""
  }

  /** `json.dumps(v, ensure_ascii=ensureAscii)` with the default separators
      `", "` and `": "`; `repr` writes a float. Object members are written
      in key order. */
  function Dumps(v: Json, ensureAscii: bool, repr: real -> string): string
    decreases v, 2, 0
  {
    match v
    case JNull => "null"
    case JBool(b) => if b then "true" else "false"
    case JInt(i) => IntToString(i)
    case JFloat(f) => repr(f)
    case JStr(s) => DumpsString(s, ensureAscii)
    case JList(items) => "[" + DumpsItems(v, 0, ensureAscii, repr) + "]"
    case JObject(fields) => "{" + DumpsMembers(v, SortedElements(fields.Keys), ensureAscii, repr) + "}"
  }

  /** The list items from index `from` on, comma separated. */
  function DumpsItems(v: Json, from: nat, ensureAscii: bool, repr: real -> string): string
    requires v.JList? && from <= |v.items|
    decreases v, 0, |v.items| - from
  {
    if from == |v.items| then ""
    else Dumps(v.items[from], ensureAscii, repr)
         + (if from + 1 == |v.items| then "" else ", " + DumpsItems(v, from + 1, ensureAscii, repr))
  }

  /** The object members under `keys`, comma separated. */
  function DumpsMembers(v: Json, keys: seq<string>, ensureAscii: bool, repr: real -> string): string
    requires v.JObject? && forall k :: k in keys ==> k in v.fields
    decreases v, 0, |keys|
  {
    if keys == [] then ""
    else DumpsString(keys[0], ensureAscii) + ": " + Dumps(v.fields[keys[0]], ensureAscii, repr)
         + (if |keys| == 1 then "" else ", " + DumpsMembers(v, keys[1..], ensureAscii, repr))
  }

  /** Every string and every key in a JSON value is printable ASCII. */
  predicate AsciiText(s: string) {
    forall i :: 0 <= i < |s| ==> AsciiChar(s[i])
  }

  predicate AsciiJson(v: Json)
    decreases v
  {
    match v
    case JStr(s) => AsciiText(s)
    case JList(items) => forall i :: 0 <= i < |items| ==> AsciiJson(items[i])
    case JObject(fields) => forall k :: k in fields ==> AsciiText(k) && AsciiJson(fields[k])
    case _ => true
  }

  /** The two settings write a character alike exactly when it is printable
      ASCII or a control character; otherwise `ensure_ascii` writes more. */
  lemma DumpsCharGrows(c: char)
    ensures |DumpsChar(c, false)| <= |DumpsChar(c, true)|
    ensures DumpsChar(c, true) == DumpsChar(c, false) <==> AsciiChar(c)
    ensures !AsciiChar(c) ==> |DumpsChar(c, false)| < |DumpsChar(c, true)|
  {
  }

  /** Both settings write a text alike exactly when it is all ASCII;
      otherwise `ensure_ascii` writes a longer text. */
  lemma {:induction false} DumpsCharsGrows(s: string)
    ensures |DumpsChars(s, false)| <= |DumpsChars(s, true)|
    ensures AsciiText(s) ==> DumpsChars(s, true) == DumpsChars(s, false)
    ensures !AsciiText(s) ==> |DumpsChars(s, false)| < |DumpsChars(s, true)|
    decreases |s|
  {
    if s != [] {
      DumpsCharGrows(s[0]);
      DumpsCharsGrows(s[1..]);
      if AsciiChar(s[0]) && AsciiText(s[1..]) {
        assert AsciiText(s) by {
          forall i | 0 <= i < |s| ensures AsciiChar(s[i]) {
            if i > 0 { assert s[i] == s[1..][i - 1]; }
          }
        }
      }
      if AsciiText(s) {
        assert AsciiText(s[1..]) by {
          forall i | 0 <= i < |s| - 1 ensures AsciiChar(s[1..][i]) {
            assert s[1..][i] == s[i + 1];
          }
        }
      }
    }
  }

  /** `b` is `a` when `ascii` holds and longer than `a` otherwise. */
  predicate Grows(a: string, b: string, ascii: bool) {
    && |a| <= |b|
    && (ascii ==> a == b)
    && (!ascii ==> |a| < |b|)
  }

  lemma GrowsString(s: string)
    ensures Grows(DumpsString(s, false), DumpsString(s, true), AsciiText(s))
  {
    DumpsCharsGrows(s);
  }

  lemma GrowsJoin(a1: string, b1: string, p: bool, a2: string, b2: string, q: bool, sep: string)
    requires Grows(a1, b1, p) && Grows(a2, b2, q)
    ensures Grows(a1 + sep + a2, b1 + sep + b2, p && q)
  {
  }

  /** `json.dumps` writes a value the same under both settings exactly when
      every string in it is ASCII; otherwise `ensure_ascii=True` writes a
      longer text. */
  lemma {:induction false} DumpsGrows(v: Json, repr: real -> string)
    ensures Grows(Dumps(v, false, repr), Dumps(v, true, repr), AsciiJson(v))
    decreases v, 2, 0
  {
    if v.JStr? {
      GrowsString(v.s);
    } else if v.JList? {
      ListGrows(v, repr);
    } else if v.JObject? {
      ObjectGrows(v, repr);
    }
  }

  lemma ListGrows(v: Json, repr: real -> string)
    requires v.JList?
    ensures Grows(Dumps(v, false, repr), Dumps(v, true, repr), AsciiJson(v))
    decreases v, 1, 0
  {
    DumpsItemsGrows(v, 0, repr);
  }

  lemma ObjectGrows(v: Json, repr: real -> string)
    requires v.JObject?
    ensures Grows(Dumps(v, false, repr), Dumps(v, true, repr), AsciiJson(v))
    decreases v, 1, 0
  {
    var keys := SortedElements(v.fields.Keys);
    DumpsMembersGrows(v, keys, repr);
  }

  lemma {:induction false} DumpsItemsGrows(v: Json, from: nat, repr: real -> string)
    requires v.JList? && from <= |v.items|
    ensures Grows(DumpsItems(v, from, false, repr), DumpsItems(v, from, true, repr),
                  forall i :: from <= i < |v.items| ==> AsciiJson(v.items[i]))
    decreases v, 0, |v.items| - from
  {
    if from < |v.items| {
      DumpsGrows(v.items[from], repr);
      if from + 1 < |v.items| {
        DumpsItemsGrows(v, from + 1, repr);
        GrowsJoin(Dumps(v.items[from], false, repr), Dumps(v.items[from], true, repr), AsciiJson(v.items[from]),
                  DumpsItems(v, from + 1, false, repr), DumpsItems(v, from + 1, true, repr),
                  forall i :: from + 1 <= i < |v.items| ==> AsciiJson(v.items[i]), ", ");
      }
    }
  }

  lemma {:induction false} DumpsMembersGrows(v: Json, keys: seq<string>, repr: real -> string)
    requires v.JObject? && forall k :: k in keys ==> k in v.fields
    ensures Grows(DumpsMembers(v, keys, false, repr), DumpsMembers(v, keys, true, repr),
                  forall k :: k in keys ==> AsciiText(k) && AsciiJson(v.fields[k]))
    decreases v, 0, |keys|
  {
    if keys != [] {
      var k := keys[0];
      GrowsString(k);
      DumpsGrows(v.fields[k], repr);
      GrowsJoin(DumpsString(k, false), DumpsString(k, true), AsciiText(k),
                Dumps(v.fields[k], false, repr), Dumps(v.fields[k], true, repr), AsciiJson(v.fields[k]), ": ");
      if |keys| > 1 {
        DumpsMembersGrows(v, keys[1..], repr);
        GrowsJoin(DumpsString(k, false) + ": " + Dumps(v.fields[k], false, repr),
                  DumpsString(k, true) + ": " + Dumps(v.fields[k], true, repr),
                  AsciiText(k) && AsciiJson(v.fields[k]),
                  DumpsMembers(v, keys[1..], false, repr), DumpsMembers(v, keys[1..], true, repr),
                  forall k' :: k' in keys[1..] ==> AsciiText(k') && AsciiJson(v.fields[k']), ", ");
      }
      assert forall k' :: k' in keys <==> k' == k || k' in keys[1..];
    }
  }

  /** The body of the webhook request and its `X-Webhook-Signature`. */
  datatype WebhookRequest = WebhookRequest(body: string, signature: Option<string>)

  /** `send_configured_webhook` as written: the request is posted with
      `json=payload`, which the HTTP client serialises with `json.dumps`'s
      default `ensure_ascii=True`, but the signature is computed over
      `json.dumps(payload, ensure_ascii=False)`. */
  function WebhookRequestAsWritten(x: Externals, payload: Json, secret: Option<string>, repr: real -> string): (r: WebhookRequest)
    ensures r.body == Dumps(payload, true, repr)
  {
    WebhookRequest(Dumps(payload, true, repr), SignPayload(x, Dumps(payload, false, repr), secret))
  }

  /** As written, the signed text is the body that is sent exactly when the
      payload is all ASCII: one non-ASCII character anywhere in a string or
      key and the receiver is asked to check the HMAC of a text it never
      received. */
  lemma AsWrittenSignsOtherText(x: Externals, payload: Json, secret: string, repr: real -> string)
    requires secret != ""
    ensures var r := WebhookRequestAsWritten(x, payload, Some(secret), repr);
      && r.signature == Some(x.hmacSha256(secret, Dumps(payload, false, repr)))
      && (Dumps(payload, false, repr) == r.body <==> AsciiJson(payload))
  {
    DumpsGrows(payload, repr);
  }

  lemma OneCharDumps(c: char, ensureAscii: bool)
    ensures DumpsString([c], ensureAscii) == "\"" + DumpsChar(c, ensureAscii) + "\""
  {
    assert [c][1..] == [];
    assert DumpsChars([c], ensureAscii) == DumpsChar(c, ensureAscii) + DumpsChars([], ensureAscii);
  }

  /** A subject of `é` filled into the template: the signed text holds the
      character itself, the posted body its escape. */
  lemma AsWrittenAccentedSubject(repr: real -> string)
    ensures Dumps(JStr("\U{E9}"), false, repr) == "\"\U{E9}\""
    ensures Dumps(JStr("\U{E9}"), true, repr) == "\"\\u00e9\""
  {
    OneCharDumps('\U{E9}', true);
    OneCharDumps('\U{E9}', false);
  }

  /** The corrected `send_configured_webhook`: the signature covers the
      exact body that is posted. */
  function WebhookRequestSigned(x: Externals, payload: Json, secret: Option<string>, repr: real -> string): (r: WebhookRequest)
    ensures r.body == Dumps(payload, true, repr)
  {
    var body := Dumps(payload, true, repr);
    WebhookRequest(body, SignPayload(x, body, secret))
  }

  /** Under the correction the receiver's check of the body it got passes
      whenever a secret is configured, and ASCII payloads get the very
      request they got before. */
  lemma SignedRequestVerifies(x: Externals, payload: Json, secret: Option<string>, repr: real -> string)
    ensures var r := WebhookRequestSigned(x, payload, secret, repr);
      && (r.signature.Some? <==> secret.Some? && secret.value != "")
      && (r.signature.Some? ==> SignatureMatches(x, r.body, secret.value, r.signature.value))
      && (AsciiJson(payload) ==> r == WebhookRequestAsWritten(x, payload, secret, repr))
  {
    DumpsGrows(payload, repr);
  }

  // ---------------------------------------------------------------------
  // Attachments

  /** The headers of a MIME part that `handleAttachment` reads. */
  datatype MimePart = MimePart(filename: Option<string>, contentId: Option<string>, attachmentId: Option<string>)

  /** `(filename, payload, cid, fid)`. */
  datatype Attachment = Attachment(filename: string, payload: string, cid: string, fileId: string)

  const AngleBrackets: set<char> := {'<', '>'}

  /** The content id: `Content-ID` without surrounding angle brackets, else
      `X-Attachment-Id`, else the MD5 of the payload. */
  function ContentId(x: Externals, part: MimePart, payload: string): string {
    if part.contentId.Some? then Trim(part.contentId.value, AngleBrackets)
    else if part.attachmentId.Some? then part.attachmentId.value
    else x.md5(payload)
  }

  /** `handleAttachment`; `None` stands for its `False` (too large). */
  function HandleAttachment(x: Externals, maxSize: int, part: MimePart, payload: string): Option<Attachment> {
    var filename := if part.filename.None? || part.filename.value == "" then "untitled" else part.filename.value;
    if maxSize > 0 && |payload| > maxSize then None
    else Some(Attachment(filename, payload, ContentId(x, part, payload), SafeAttachmentId(x, filename)))
  }

  /** An attachment is refused exactly when a positive limit is exceeded;
      otherwise it keeps its payload, and with hexadecimal digests its file
      id is a plain name that ends in its sanitised file name. */
  lemma HandleAttachmentOutcome(x: Externals, maxSize: int, part: MimePart, payload: string)
    requires HexDigests(x)
    ensures var r := HandleAttachment(x, maxSize, part, payload);
      && (r.None? <==> maxSize > 0 && |payload| > maxSize)
      && (r.Some? ==> r.value.payload == payload && Plain(r.value.fileId) && '/' !in r.value.fileId
                      && r.value.fileId[|r.value.fileId| - |AttachmentName(r.value.filename)|..]
                         == AttachmentName(r.value.filename))
  {
    var filename := if part.filename.None? || part.filename.value == "" then "untitled" else part.filename.value;
    AttachmentIdIsPlain(x, filename);
  }

  /** `<id>` in `Content-ID` gives the content id `id`. */
  lemma BracketedContentId(x: Externals, part: MimePart, payload: string, id: string)
    requires part.contentId == Some("<" + id + ">")
    requires id != [] && id[0] !in AngleBrackets && id[|id| - 1] !in AngleBrackets
    ensures ContentId(x, part, payload) == id
  {
    var v := "<" + id + ">";
    assert v[1..] == id + ">";
    var l := TrimLeft(v, AngleBrackets);
    assert TrimLeft(id + ">", AngleBrackets) == id + ">";
    assert l == id + ">";
    assert (id + ">")[..|id|] == id;
    assert TrimRight(id, AngleBrackets) == id;
  }

  /** The link that replaces a `cid:` reference. */
  function AttachmentLink(email: string, fileId: string): string {
    "/api/attachment/" + email + "/" + fileId
  }

  /** The loop of `replace_cid_with_attachment_id`, in attachment order. */
  function ReplaceCids(html: string, atts: seq<Attachment>, email: string): string
    decreases |atts|
  {
    if atts == [] then html
    else
      var next := if atts[0].cid == "" then html
                  else ReplaceAll(html, "cid:" + atts[0].cid, AttachmentLink(email, atts[0].fileId));
      ReplaceCids(next, atts[1..], email)
  }

  /** `replace_cid_with_attachment_id`: empty HTML is returned at once. */
  method ReplaceCidWithAttachmentId(html: string, atts: seq<Attachment>, email: string) returns (r: string)
    ensures r == ReplaceCids(html, atts, email)
  {
    if html == "" {
      EmptyHtmlStaysEmpty(atts, email);
      return html;
    }
    r := html;
    var i := 0;
    while i < |atts|
      invariant 0 <= i <= |atts|
      invariant ReplaceCids(r, atts[i..], email) == ReplaceCids(html, atts, email)
    {
      assert atts[i..][1..] == atts[i + 1..];
      if atts[i].cid != "" {
        r := ReplaceAll(r, "cid:" + atts[i].cid, AttachmentLink(email, atts[i].fileId));
      }
      i := i + 1;
    }
  }

  /** The early return for empty HTML agrees with running the loop. */
  lemma {:induction false} EmptyHtmlStaysEmpty(atts: seq<Attachment>, email: string)
    ensures ReplaceCids("", atts, email) == ""
    decreases |atts|
  {
    if atts != [] {
      EmptyHtmlStaysEmpty(atts[1..], email);
    }
  }

  /** HTML that references none of the attachments is left as it is. */
  lemma {:induction false} UnreferencedHtmlUnchanged(html: string, atts: seq<Attachment>, email: string)
    requires forall k :: 0 <= k < |atts| ==> atts[k].cid == "" || !Contains(html, "cid:" + atts[k].cid)
    ensures ReplaceCids(html, atts, email) == html
    decreases |atts|
  {
    if atts != [] {
      if atts[0].cid != "" {
        ReplaceAllNoMatch(html, "cid:" + atts[0].cid, AttachmentLink(email, atts[0].fileId));
      }
      UnreferencedHtmlUnchanged(html, atts[1..], email);
    }
  }

  /** A reference to the one attachment becomes its download link. */
  lemma ReferenceBecomesLink(a: Attachment, email: string)
    requires a.cid != ""
    ensures ReplaceCids("cid:" + a.cid, [a], email) == AttachmentLink(email, a.fileId)
  {
    ReplaceWhole("cid:" + a.cid, AttachmentLink(email, a.fileId));
    assert [a][1..] == [];
  }
}
