/** Mapping an email address to its mailbox directory under the data
    directory (`Mailbox::getDirForEmail` and the legacy `getDirForEmail`). */
module Sandbox {
  import opened Wrappers
  import opened Text
  import opened FileSystem
  import opened Externals

  /** Lower-cases the address, then replaces `../`, `..\`, `/`, `\` and NUL
      by `_`, one search string after the other. */
  function Sanitize(email: string): string {
    var s0 := Lower(email);
    var s1 := ReplaceAll(s0, "../", "_");
    var s2 := ReplaceAll(s1, "..\\", "_");
    var s3 := ReplaceAll(s2, "/", "_");
    var s4 := ReplaceAll(s3, "\\", "_");
    ReplaceAll(s4, "\0", "_")
  }

  /** The sanitised name never contains a separator or NUL, so joining it to
      a directory adds exactly one path component. */
  lemma SanitizedIsOneComponent(email: string)
    ensures '/' !in Sanitize(email)
    ensures '\\' !in Sanitize(email)
    ensures '\0' !in Sanitize(email)
  {
    var s0 := Lower(email);
    var s1 := ReplaceAll(s0, "../", "_");
    var s2 := ReplaceAll(s1, "..\\", "_");
    var s3 := ReplaceAll(s2, "/", "_");
    var s4 := ReplaceAll(s3, "\\", "_");
    ReplaceAllRemoves(s2, '/', "_");
    ReplaceAllKeepsAbsent(s3, "\\", "_", '/');
    ReplaceAllRemoves(s3, '\\', "_");
    ReplaceAllKeepsAbsent(s4, "\0", "_", '/');
    ReplaceAllKeepsAbsent(s4, "\0", "_", '\\');
    ReplaceAllRemoves(s4, '\0', "_");
  }

  lemma AbsentCharNoOccurrence(s: string, pat: string, c: char)
    requires c in pat && c !in s
    ensures !Contains(s, pat)
  {
    var j :| 0 <= j < |pat| && pat[j] == c;
    forall i | 0 <= i <= |s| - |pat|
      ensures !OccursAt(s, pat, i)
    {
      assert s[i..i + |pat|][j] == s[i + j];
    }
  }

  /** An address free of separators and NUL is only lower-cased. */
  lemma SanitizeOfPlainAddress(email: string)
    requires '/' !in Lower(email) && '\\' !in Lower(email) && '\0' !in Lower(email)
    ensures Sanitize(email) == Lower(email)
  {
    var s0 := Lower(email);
    AbsentCharNoOccurrence(s0, "../", '/');
    ReplaceAllNoMatch(s0, "../", "_");
    AbsentCharNoOccurrence(s0, "..\\", '\\');
    ReplaceAllNoMatch(s0, "..\\", "_");
    AbsentCharNoOccurrence(s0, "/", '/');
    ReplaceAllNoMatch(s0, "/", "_");
    AbsentCharNoOccurrence(s0, "\\", '\\');
    ReplaceAllNoMatch(s0, "\\", "_");
    AbsentCharNoOccurrence(s0, "\0", '\0');
    ReplaceAllNoMatch(s0, "\0", "_");
  }

  /** An `@` in the address survives sanitising. */
  lemma SanitizeKeepsAt(email: string)
    requires '@' in email
    ensures '@' in Sanitize(email)
  {
    var s0 := Lower(email);
    var i :| 0 <= i < |email| && email[i] == '@';
    assert s0[i] == '@';
    var s1 := ReplaceAll(s0, "../", "_");
    var s2 := ReplaceAll(s1, "..\\", "_");
    var s3 := ReplaceAll(s2, "/", "_");
    var s4 := ReplaceAll(s3, "\\", "_");
    ReplaceAllKeepsPresent(s0, "../", "_", '@');
    ReplaceAllKeepsPresent(s1, "..\\", "_", '@');
    ReplaceAllKeepsPresent(s2, "/", "_", '@');
    ReplaceAllKeepsPresent(s3, "\\", "_", '@');
    ReplaceAllKeepsPresent(s4, "\0", "_", '@');
  }

  /** The base directory as compared: its realpath, or itself when it does
      not resolve. */
  function RealBase(nodes: Nodes, base: Path): Path {
    Realpath(nodes, base).GetOr(base)
  }

  /** The mailbox directory of `email` below `base`: the canonical path of
      the join when that lies strictly below the (resolved) base, otherwise
      the join itself. */
  function GetDirForEmail(nodes: Nodes, base: Path, email: string): (r: Path)
    ensures r == base + [Sanitize(email)] || (IsCanonical(r) && Below(r, RealBase(nodes, base)))
  {
    var path := base + [Sanitize(email)];
    var resolved := Realpath(nodes, path);
    if resolved.Some? && Below(resolved.value, RealBase(nodes, base)) then resolved.value else path
  }

  /** Whichever branch is taken, the returned path names the same place as
      the plain join. */
  lemma GetDirResolvesToJoin(nodes: Nodes, base: Path, email: string)
    ensures Normalize(GetDirForEmail(nodes, base, email)) == Normalize(base + [Sanitize(email)])
  {
    var path := base + [Sanitize(email)];
    var resolved := Realpath(nodes, path);
    if resolved.Some? && Below(resolved.value, RealBase(nodes, base)) {
      NormalizeCanonical(Normalize(path));
    }
  }

  /** A sanitised name other than `""`, `"."` and `".."` puts the mailbox one
      level below the base. */
  lemma GetDirIsChildOfBase(nodes: Nodes, base: Path, email: string)
    requires Plain(Sanitize(email))
    ensures Normalize(GetDirForEmail(nodes, base, email)) == Normalize(base) + [Sanitize(email)]
  {
    GetDirResolvesToJoin(nodes, base, email);
    NormalizeChild(base, Sanitize(email));
  }

  /** Every address that passes email validation contains `@`, so its
      mailbox is a direct child of the base. */
  lemma ValidEmailStaysInBase(x: Externals, nodes: Nodes, base: Path, email: string)
    requires Lawful(x) && x.validEmail(email)
    ensures Normalize(GetDirForEmail(nodes, base, email)) == Normalize(base) + [Sanitize(email)]
  {
    SanitizeKeepsAt(email);
    GetDirIsChildOfBase(nodes, base, email);
  }

  /** A bare `..` contains no `../` and survives sanitising; its join is not
      below the base, so the raw `base/..` is returned, and it names the
      parent of the base. */
  lemma DotDotEscapesBase(nodes: Nodes, base: Path)
    requires Normalize(base) != []
    ensures Sanitize("..") == ".."
    ensures GetDirForEmail(nodes, base, "..") == base + [".."]
    ensures Normalize(GetDirForEmail(nodes, base, "..")) == Normalize(base)[..|Normalize(base)| - 1]
  {
    assert Lower("..") == "..";
    SanitizeOfPlainAddress("..");
    NormalizeAppend(base, "..");
    assert |RealBase(nodes, base)| >= |Normalize(base)|;
  }
}
