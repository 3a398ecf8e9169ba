/** `Webhook`: the per-address webhook configuration, stored as
    `webhook.json` in the address's mailbox directory. */
module Webhook {
  import opened Wrappers
  import opened FileSystem
  import opened Externals
  import opened Sandbox
  import opened Mailbox

  /** Where the configuration of `email` is stored. */
  function ConfigPath(nodes: Nodes, root: Path, email: string): Path {
    DirFor(nodes, root, email) + ["webhook.json"]
  }

  /** The configuration file resolves to the same place whatever the state
      of the filesystem: the mailbox directory is resolved lexically. */
  lemma ConfigPathResolves(nodes: Nodes, root: Path, email: string)
    ensures Normalize(ConfigPath(nodes, root, email))
            == Normalize(DataDir(root) + [Sanitize(email)]) + ["webhook.json"]
  {
    GetDirResolvesToJoin(nodes, DataDir(root), email);
    NormalizeChild(DirFor(nodes, root, email), "webhook.json");
  }

  /** `Webhook::getConfig`: the decoded array, or None when the file is
      missing or unreadable, or holds malformed JSON or a non-array. */
  function GetConfig(x: Externals, nodes: Nodes, root: Path, email: string): (r: Option<Json>)
    ensures r.Some? ==> IsArray(r.value) && IsFile(nodes, ConfigPath(nodes, root, email))
  {
    var file := ConfigPath(nodes, root, email);
    if !IsFile(nodes, file) then None
    else
      var content := ReadFile(nodes, file);
      if content.None? then None
      else
        var data := x.jsonDecode(content.value);
        if data.Some? && IsArray(data.value) then data else None
  }

  /** `Webhook::saveConfig`: nothing for an address that does not validate;
      otherwise the mailbox directory is created when missing and the
      encoded configuration replaces the file. */
  function SaveConfigSpec(x: Externals, nodes: Nodes, locked: set<Path>, root: Path, email: string, config: Json): (Nodes, bool) {
    if !x.validEmail(email) then (nodes, false)
    else
      var dir := DirFor(nodes, root, email);
      var (n1, ready) := if IsDir(nodes, dir) then (nodes, true) else MkdirsSpec(nodes, locked, dir);
      if !ready then (n1, false)
      else WriteSpec(n1, locked, dir + ["webhook.json"], x.jsonEncode(config))
  }

  /** `Webhook::saveConfig`. */
  method SaveConfig(fs: Fs, x: Externals, root: Path, email: string, config: Json) returns (ok: bool)
    requires fs.Valid()
    requires IsArray(config)
    modifies fs
    ensures fs.Valid()
    ensures (fs.nodes, ok) == SaveConfigSpec(x, old(fs.nodes), fs.locked, root, email, config)
  {
    if !x.validEmail(email) {
      return false;
    }
    var dir := DirFor(fs.nodes, root, email);
    if !IsDir(fs.nodes, dir) {
      var made := fs.Mkdirs(dir);
      if !made && !IsDir(fs.nodes, dir) {
        return false;
      }
    }
    ok := fs.Write(dir + ["webhook.json"], x.jsonEncode(config));
  }

  /** Reading after a successful save gives the saved configuration back. */
  lemma SaveThenGet(x: Externals, nodes: Nodes, locked: set<Path>, root: Path, email: string, config: Json)
    requires Lawful(x) && Encodable(config) && IsArray(config)
    requires SaveConfigSpec(x, nodes, locked, root, email, config).1
    ensures GetConfig(x, SaveConfigSpec(x, nodes, locked, root, email, config).0, root, email) == Some(config)
  {
    var dir := DirFor(nodes, root, email);
    var after := SaveConfigSpec(x, nodes, locked, root, email, config).0;
    var written := Normalize(dir + ["webhook.json"]);
    assert after[written] == File(x.jsonEncode(config), true);
    ConfigPathResolves(nodes, root, email);
    ConfigPathResolves(after, root, email);
    assert Normalize(ConfigPath(after, root, email)) == written;
  }

  /** `Webhook::deleteConfig`: true when there is no file; otherwise the
      result of unlinking it. */
  function DeleteConfigSpec(nodes: Nodes, locked: set<Path>, root: Path, email: string): (Nodes, bool) {
    var file := ConfigPath(nodes, root, email);
    if IsFile(nodes, file) then UnlinkSpec(nodes, locked, file) else (nodes, true)
  }

  /** `Webhook::deleteConfig`. */
  method DeleteConfig(fs: Fs, root: Path, email: string) returns (ok: bool)
    requires fs.Valid()
    modifies fs
    ensures fs.Valid()
    ensures (fs.nodes, ok) == DeleteConfigSpec(old(fs.nodes), fs.locked, root, email)
  {
    var file := ConfigPath(fs.nodes, root, email);
    if IsFile(fs.nodes, file) {
      ok := fs.Unlink(file);
    } else {
      ok := true;
    }
  }

  /** After a successful delete there is no configuration, and deleting
      again succeeds without changing anything. */
  lemma DeleteConfigIdempotent(x: Externals, nodes: Nodes, locked: set<Path>, root: Path, email: string)
    requires DeleteConfigSpec(nodes, locked, root, email).1
    ensures var after := DeleteConfigSpec(nodes, locked, root, email).0;
            && GetConfig(x, after, root, email) == None
            && DeleteConfigSpec(after, locked, root, email) == (after, true)
  {
    var after := DeleteConfigSpec(nodes, locked, root, email).0;
    ConfigPathResolves(nodes, root, email);
    ConfigPathResolves(after, root, email);
  }
}
