/** The part of a POSIX filesystem the mail store uses. A path is a sequence
    of components (the text between `/` separators). Every call here resolves
    `""`, `"."` and `".."` components lexically, without looking at the tree,
    where POSIX resolves each `..` against the directory actually reached.
    Symbolic links are nodes of their own kind whose targets are not
    modelled. */
module FileSystem {
  import opened Wrappers
  import opened Ordering

  type Path = seq<string>

  /** A component that names a directory entry. */
  predicate Plain(c: string) {
    c != "" && c != "." && c != ".."
  }

  /** A path made of names only, as `realpath` returns them. */
  predicate IsCanonical(p: Path) {
    forall i :: 0 <= i < |p| ==> Plain(p[i])
  }

  /** Resolving one more component: `""` and `"."` stay, `".."` goes up
      (and stays at the root), a name goes down. */
  function Step(acc: Path, c: string): Path {
    if c == "" || c == "." then acc
    else if c == ".." then (if acc == [] then [] else acc[..|acc| - 1])
    else acc + [c]
  }

  /** Lexical resolution of a path from the root. */
  function Normalize(p: Path): (r: Path)
    ensures IsCanonical(r)
    ensures |r| <= |p|
  {
    if p == [] then [] else Step(Normalize(p[..|p| - 1]), p[|p| - 1])
  }

  lemma NormalizeAppend(p: Path, c: string)
    ensures Normalize(p + [c]) == Step(Normalize(p), c)
  {
    assert (p + [c])[..|p|] == p;
  }

  /** A canonical path resolves to itself. */
  lemma {:induction false} NormalizeCanonical(p: Path)
    requires IsCanonical(p)
    ensures Normalize(p) == p
    decreases |p|
  {
    if p != [] {
      NormalizeCanonical(p[..|p| - 1]);
      assert p[..|p| - 1] + [p[|p| - 1]] == p;
    }
  }

  /** One more name below a path resolves to one more name below its resolution. */
  lemma NormalizeChild(p: Path, c: string)
    requires Plain(c)
    ensures Normalize(p + [c]) == Normalize(p) + [c]
  {
    NormalizeAppend(p, c);
  }

  datatype Node =
    | File(data: string, readable: bool)
    | Dir(listable: bool)
    | Link

  type Nodes = map<Path, Node>

  /** `q` lies strictly below `p`. */
  predicate Below(q: Path, p: Path) {
    |p| < |q| && q[..|p|] == p
  }

  /** The nodes at `p` and below it. */
  ghost function Subtree(nodes: Nodes, p: Path): set<Path> {
    set k | k in nodes && (k == p || Below(k, p))
  }

  /** Every node hangs below a directory, down from a root directory. */
  ghost predicate WellFormed(nodes: Nodes) {
    && [] in nodes && nodes[[]].Dir?
    && (forall k :: k in nodes ==> IsCanonical(k))
    && (forall k :: k in nodes && k != [] ==> k[..|k| - 1] in nodes && nodes[k[..|k| - 1]].Dir?)
  }

  /** In a well-formed tree every ancestor of a node exists. */
  lemma {:induction false} AncestorExists(nodes: Nodes, k: Path, n: nat)
    requires WellFormed(nodes)
    requires k in nodes && n <= |k|
    ensures k[..n] in nodes
    decreases |k| - n
  {
    if n < |k| {
      AncestorExists(nodes, k, n + 1);
      assert k[..n + 1][..n] == k[..n];
    } else {
      assert k[..n] == k;
    }
  }

  // ---- queries (PHP's is_file, is_dir, is_link, file_exists, realpath, readdir) ----

  predicate IsFile(nodes: Nodes, p: Path) {
    Normalize(p) in nodes && nodes[Normalize(p)].File?
  }

  predicate IsDir(nodes: Nodes, p: Path) {
    Normalize(p) in nodes && nodes[Normalize(p)].Dir?
  }

  predicate IsLink(nodes: Nodes, p: Path) {
    Normalize(p) in nodes && nodes[Normalize(p)].Link?
  }

  predicate FileExists(nodes: Nodes, p: Path) {
    Normalize(p) in nodes
  }

  /** `file_get_contents`: the contents of a readable regular file. */
  function ReadFile(nodes: Nodes, p: Path): Option<string> {
    var q := Normalize(p);
    if q in nodes && nodes[q].File? && nodes[q].readable then Some(nodes[q].data) else None
  }

  /** `realpath`: the resolved path when something exists there. */
  function Realpath(nodes: Nodes, p: Path): Option<Path> {
    if Normalize(p) in nodes then Some(Normalize(p)) else None
  }

  /** Names of the entries directly inside the directory at canonical `q`. */
  function ChildNames(nodes: Nodes, q: Path): set<string> {
    set k | k in nodes && |k| == |q| + 1 && k[..|q|] == q :: k[|q|]
  }

  /** `scandir` / the sequence of `readdir` results: `.` and `..` first, then
      the names in shortlex order. None when the directory cannot be opened. */
  function Entries(nodes: Nodes, p: Path): Option<seq<string>> {
    var q := Normalize(p);
    if q in nodes && nodes[q].Dir? && nodes[q].listable
    then Some([".", ".."] + SortedElements(ChildNames(nodes, q)))
    else None
  }

  lemma ChildNameIsChild(nodes: Nodes, q: Path, c: string)
    requires c in ChildNames(nodes, q)
    ensures q + [c] in nodes
  {
    var k :| k in nodes && |k| == |q| + 1 && k[..|q|] == q && k[|q|] == c;
    assert k == q + [c];
  }

  lemma ChildIsChildName(nodes: Nodes, q: Path, c: string)
    requires q + [c] in nodes
    ensures c in ChildNames(nodes, q)
  {
    assert (q + [c])[..|q|] == q;
  }

  /** The names listed by a successful readdir are directory entries. */
  lemma EntriesAreChildren(nodes: Nodes, p: Path, i: int)
    requires WellFormed(nodes)
    requires Entries(nodes, p).Some?
    requires 2 <= i < |Entries(nodes, p).value|
    ensures Plain(Entries(nodes, p).value[i])
    ensures Normalize(p) + [Entries(nodes, p).value[i]] in nodes
  {
    var q := Normalize(p);
    var c := Entries(nodes, p).value[i];
    assert c in SortedElements(ChildNames(nodes, q));
    ChildNameIsChild(nodes, q, c);
    assert IsCanonical(q + [c]);
    assert (q + [c])[|q|] == c;
  }

  /** Apart from `.` and `..`, a name is listed by a successful readdir
      exactly when it is a child of the directory. */
  lemma ListedIffChild(nodes: Nodes, p: Path, c: string)
    requires Entries(nodes, p).Some? && c != "." && c != ".."
    ensures c in Entries(nodes, p).value <==> Normalize(p) + [c] in nodes
  {
    var q := Normalize(p);
    if c in Entries(nodes, p).value {
      assert c in SortedElements(ChildNames(nodes, q));
      ChildNameIsChild(nodes, q, c);
    }
    if q + [c] in nodes {
      ChildIsChildName(nodes, q, c);
      assert c in SortedElements(ChildNames(nodes, q));
    }
  }

  // ---- updates (unlink, rmdir, mkdir -p, file_put_contents) ----

  /** Nodes may disappear; nothing else changes and nothing new appears. */
  ghost predicate OnlyRemoved(before: Nodes, after: Nodes) {
    && (forall k :: k in after ==> k in before && after[k] == before[k])
  }

  function UnlinkSpec(nodes: Nodes, locked: set<Path>, p: Path): (Nodes, bool) {
    var q := Normalize(p);
    if q in nodes && !nodes[q].Dir? && q !in locked then (nodes - {q}, true) else (nodes, false)
  }

  predicate HasChildren(nodes: Nodes, q: Path) {
    exists k | k in nodes :: |k| == |q| + 1 && k[..|q|] == q
  }

  function RmdirSpec(nodes: Nodes, locked: set<Path>, p: Path): (Nodes, bool) {
    var q := Normalize(p);
    if q != [] && q in nodes && nodes[q].Dir? && !HasChildren(nodes, q) && q !in locked
    then (nodes - {q}, true) else (nodes, false)
  }

  /** `mkdir($p, $mode, true)`: creates every missing directory on the way,
      or nothing at all when something already exists at `p`, a node on the
      way is not a directory, or a missing directory may not be created. */
  function MkdirsSpec(nodes: Nodes, locked: set<Path>, p: Path): (Nodes, bool) {
    var q := Normalize(p);
    if q in nodes then (nodes, false)
    else if exists i | 0 <= i < |q| :: q[..i] in nodes && !nodes[q[..i]].Dir? then (nodes, false)
    else if exists i | 0 < i <= |q| :: q[..i] !in nodes && q[..i] in locked then (nodes, false)
    else (nodes + (map i | 0 < i <= |q| && q[..i] !in nodes :: q[..i] := Dir(true)), true)
  }

  /** `file_put_contents($p, $data)`: creates or truncates a regular file in
      an existing directory. */
  function WriteSpec(nodes: Nodes, locked: set<Path>, p: Path, data: string): (Nodes, bool) {
    var q := Normalize(p);
    if q != [] && q[..|q| - 1] in nodes && nodes[q[..|q| - 1]].Dir? && q !in locked
       && (q !in nodes || nodes[q].File?)
    then (nodes[q := File(data, true)], true) else (nodes, false)
  }

  lemma UnlinkKeepsWellFormed(nodes: Nodes, locked: set<Path>, p: Path)
    requires WellFormed(nodes)
    ensures WellFormed(UnlinkSpec(nodes, locked, p).0)
    ensures OnlyRemoved(nodes, UnlinkSpec(nodes, locked, p).0)
  {
    var q := Normalize(p);
    var after := UnlinkSpec(nodes, locked, p).0;
    forall k | k in after && k != []
      ensures k[..|k| - 1] in after
    {
      assert k in nodes && nodes[k[..|k| - 1]].Dir?;
    }
  }

  lemma RmdirKeepsWellFormed(nodes: Nodes, locked: set<Path>, p: Path)
    requires WellFormed(nodes)
    ensures WellFormed(RmdirSpec(nodes, locked, p).0)
    ensures OnlyRemoved(nodes, RmdirSpec(nodes, locked, p).0)
  {
    var q := Normalize(p);
    var after := RmdirSpec(nodes, locked, p).0;
    forall k | k in after && k != []
      ensures k[..|k| - 1] in after
    {
      if k[..|k| - 1] == q {
        assert |k| == |q| + 1 && k[..|q|] == q;
      }
    }
  }

  lemma MkdirsKeepsWellFormed(nodes: Nodes, locked: set<Path>, p: Path)
    requires WellFormed(nodes)
    ensures WellFormed(MkdirsSpec(nodes, locked, p).0)
  {
    var q := Normalize(p);
    var (after, ok) := MkdirsSpec(nodes, locked, p);
    if ok {
      forall k | k in after && k != []
        ensures k[..|k| - 1] in after && after[k[..|k| - 1]].Dir?
      {
        if k !in nodes {
          var i :| 0 < i <= |q| && q[..i] !in nodes && k == q[..i];
          assert k[..|k| - 1] == q[..i - 1];
          if q[..i - 1] in nodes {
            assert nodes[q[..i - 1]].Dir?;
          }
        }
      }
      forall k | k in after
        ensures IsCanonical(k)
      {
        if k !in nodes {
          var i :| 0 < i <= |q| && k == q[..i];
        }
      }
    }
  }

  lemma WriteKeepsWellFormed(nodes: Nodes, locked: set<Path>, p: Path, data: string)
    requires WellFormed(nodes)
    ensures WellFormed(WriteSpec(nodes, locked, p, data).0)
  {
  }

  /** A successful `mkdir -p` leaves a directory at the path. */
  lemma MkdirsMakesDir(nodes: Nodes, locked: set<Path>, p: Path)
    requires WellFormed(nodes)
    ensures MkdirsSpec(nodes, locked, p).1 ==> IsDir(MkdirsSpec(nodes, locked, p).0, p)
    ensures !MkdirsSpec(nodes, locked, p).1 ==> MkdirsSpec(nodes, locked, p).0 == nodes
  {
    var q := Normalize(p);
    if MkdirsSpec(nodes, locked, p).1 {
      assert q != [];
      assert q[..|q|] == q;
      assert MkdirsSpec(nodes, locked, p).0[q] == Dir(true);
    }
  }

  /** A directory without children has nothing below it. */
  lemma NoChildrenNoDescendants(nodes: Nodes, q: Path)
    requires WellFormed(nodes)
    requires !HasChildren(nodes, q)
    ensures forall k :: k in nodes ==> !Below(k, q)
  {
    forall k | k in nodes && |q| < |k|
      ensures k[..|q|] != q
    {
      AncestorExists(nodes, k, |q| + 1);
      var c := k[..|q| + 1];
      assert c[..|q|] == k[..|q|];
    }
  }

  /** `rmdir` removes at most the directory itself, and once it succeeds
      nothing is left at or below it. */
  lemma RmdirRemovesTree(nodes: Nodes, locked: set<Path>, p: Path)
    requires WellFormed(nodes)
    ensures var (after, ok) := RmdirSpec(nodes, locked, p);
            && OnlyRemoved(nodes, after)
            && (forall k :: k in nodes && k != Normalize(p) ==> k in after)
            && (ok ==> forall k :: k in after ==> k != Normalize(p) && !Below(k, Normalize(p)))
  {
    var q := Normalize(p);
    if RmdirSpec(nodes, locked, p).1 {
      NoChildrenNoDescendants(nodes, q);
    }
  }

  lemma {:induction false} SubsetCardinality<T>(a: set<T>, b: set<T>)
    requires a <= b
    ensures |a| <= |b|
    decreases |b|
  {
    if a != {} {
      var y :| y in a;
      SubsetCardinality(a - {y}, b - {y});
    }
  }

  /** After removals, what lies at or below a child of `q` is fewer nodes
      than what lay at or below `q`. */
  lemma SubtreeShrinks(before: Nodes, after: Nodes, q: Path, c: string)
    requires OnlyRemoved(before, after)
    requires q in before
    ensures |Subtree(after, q + [c])| < |Subtree(before, q)|
  {
    var small := Subtree(after, q + [c]);
    var big := Subtree(before, q);
    forall k | k in small
      ensures k in big - {q}
    {
      assert k[..|q|] == (q + [c])[..|q|] == q;
    }
    SubsetCardinality(small, big - {q});
  }

  // ---- removing a tree depth first ----

  /** Nothing is left at or below `q`. */
  ghost predicate Gone(nodes: Nodes, q: Path) {
    forall k :: k in nodes ==> k != q && !Below(k, q)
  }

  /** Only what lay at or below `q` may have disappeared. */
  ghost predicate KeptOutside(before: Nodes, after: Nodes, q: Path) {
    forall k :: k in before && k != q && !Below(k, q) ==> k in after
  }

  /** Every directory at or below `q` can be listed. */
  ghost predicate Listable(nodes: Nodes, q: Path) {
    forall k :: k in nodes && (k == q || Below(k, q)) && nodes[k].Dir? ==> nodes[k].listable
  }

  /** A depth-first delete can remove everything at or below `q`: every
      directory there can be listed and nothing there is locked. */
  ghost predicate Removable(nodes: Nodes, locked: set<Path>, q: Path) {
    && Listable(nodes, q)
    && (forall k :: k in nodes && (k == q || Below(k, q)) ==> k !in locked)
  }

  /** Whatever disappeared was not locked and, when a directory, could be
      listed (a depth-first delete lists a directory before removing it). */
  ghost predicate RemovedRemovable(before: Nodes, after: Nodes, locked: set<Path>) {
    forall k :: k in before && k !in after ==> k !in locked && (before[k].Dir? ==> before[k].listable)
  }

  /** A tree that is gone was removable. */
  lemma GoneWasRemovable(before: Nodes, after: Nodes, locked: set<Path>, q: Path)
    requires RemovedRemovable(before, after, locked)
    requires Gone(after, q)
    ensures Removable(before, locked, q)
  {
  }

  lemma RemovedRemovableTrans(a: Nodes, b: Nodes, c: Nodes, locked: set<Path>)
    requires OnlyRemoved(a, b)
    requires RemovedRemovable(a, b, locked) && RemovedRemovable(b, c, locked)
    ensures RemovedRemovable(a, c, locked)
  {
  }

  /** What lies at or below a child of `q` lies below `q`, under that child's name. */
  lemma InChildIsBelow(k: Path, q: Path, c: string)
    requires k == q + [c] || Below(k, q + [c])
    ensures Below(k, q) && k[|q|] == c
  {
    assert k[..|q| + 1] == q + [c];
    assert k[..|q|] == (q + [c])[..|q|];
  }

  /** What lies below `q` lies at or below the child it is named after. */
  lemma BelowIsInChild(k: Path, q: Path)
    requires Below(k, q)
    ensures k == q + [k[|q|]] || Below(k, q + [k[|q|]])
  {
    assert k[..|q| + 1] == k[..|q|] + [k[|q|]];
  }

  /** The same, for every node below a child at once. */
  lemma ChildTreeIsBelow(q: Path, c: string)
    ensures Below(q + [c], q) && (q + [c])[|q|] == c
    ensures forall k :: Below(k, q + [c]) ==> Below(k, q) && k[|q|] == c
  {
    InChildIsBelow(q + [c], q, c);
    forall k | Below(k, q + [c])
      ensures Below(k, q) && k[|q|] == c
    {
      InChildIsBelow(k, q, c);
    }
  }

  /** While a directory `q` is emptied: every node of `start` outside `q`,
      and every node below `q` under a name not yet in `done`, is still there. */
  ghost predicate KeptUndone(start: Nodes, nodes: Nodes, q: Path, done: seq<string>) {
    && (forall k :: k in start && !Below(k, q) ==> k in nodes)
    && (forall k :: k in start && Below(k, q) && k[|q|] !in done ==> k in nodes)
  }

  /** No node below `q` is named after an entry in `done`. */
  ghost predicate DoneGone(nodes: Nodes, q: Path, done: seq<string>) {
    forall k :: k in nodes && Below(k, q) ==> k[|q|] !in done
  }

  /** Keeping what lies under names outside a longer list is keeping less. */
  lemma KeptUndoneMore(start: Nodes, nodes: Nodes, q: Path, es: seq<string>, i: int)
    requires 0 <= i <= |es|
    requires KeptUndone(start, nodes, q, es[..i])
    ensures KeptUndone(start, nodes, q, es)
  {
    assert forall c :: c in es[..i] ==> c in es;
  }

  lemma TakeOneMore(es: seq<string>, i: int)
    requires 0 <= i < |es|
    ensures es[..i + 1] == es[..i] + [es[i]]
  {
  }

  /** Skipping an entry keeps what was kept. */
  lemma KeptUndoneSkip(start: Nodes, nodes: Nodes, q: Path, done: seq<string>, item: string)
    requires KeptUndone(start, nodes, q, done)
    ensures KeptUndone(start, nodes, q, done + [item])
  {
  }

  /** After the entry `item` of the directory `q` is deleted, whatever was
      kept so far and lies outside that entry is still there. */
  lemma KeptAfterEntry(start: Nodes, mid: Nodes, after: Nodes, q: Path, done: seq<string>, item: string)
    requires KeptOutside(mid, after, q + [item])
    requires KeptUndone(start, mid, q, done)
    ensures KeptUndone(start, after, q, done + [item])
  {
    ChildTreeIsBelow(q, item);
  }

  /** After the entry `item` of the directory `q` is deleted as a whole, no
      node below `q` is named after an entry already deleted. */
  lemma GoneAfterEntry(mid: Nodes, after: Nodes, q: Path, done: seq<string>, item: string)
    requires OnlyRemoved(mid, after)
    requires Gone(after, q + [item])
    requires DoneGone(mid, q, done)
    ensures DoneGone(after, q, done + [item])
  {
    forall k | k in after && Below(k, q)
      ensures k[|q|] != item
    {
      BelowIsInChild(k, q);
    }
  }

  /** `.` and `..` name no node, so skipping them keeps both facts. */
  lemma SkippedDot(start: Nodes, nodes: Nodes, q: Path, done: seq<string>, item: string)
    requires WellFormed(nodes) && !Plain(item)
    requires KeptUndone(start, nodes, q, done)
    requires DoneGone(nodes, q, done)
    ensures KeptUndone(start, nodes, q, done + [item])
    ensures DoneGone(nodes, q, done + [item])
  {
    forall k | k in nodes && Below(k, q)
      ensures Plain(k[|q|])
    {
      assert IsCanonical(k);
    }
  }

  /** Fewer nodes leave a removable tree removable, and so is each child's tree. */
  lemma RemovableChild(before: Nodes, after: Nodes, locked: set<Path>, q: Path, c: string)
    requires OnlyRemoved(before, after)
    requires Removable(before, locked, q)
    ensures Removable(after, locked, q + [c])
  {
    forall k | k in after && (k == q + [c] || Below(k, q + [c]))
      ensures Below(k, q)
    {
      InChildIsBelow(k, q, c);
    }
  }

  /** Fewer nodes leave a listable tree listable, and so is each child's tree. */
  lemma ListableChild(before: Nodes, after: Nodes, q: Path, c: string)
    requires OnlyRemoved(before, after)
    requires Listable(before, q)
    ensures Listable(after, q + [c])
  {
    forall k | k in after && (k == q + [c] || Below(k, q + [c]))
      ensures Below(k, q)
    {
      InChildIsBelow(k, q, c);
    }
  }

  /** Nothing lies below a node that is not a directory. */
  lemma NothingBelowNonDir(nodes: Nodes, p: Path)
    requires WellFormed(nodes)
    requires p in nodes && !nodes[p].Dir?
    ensures forall k :: k in nodes ==> !Below(k, p)
  {
    forall k | k in nodes && |p| < |k|
      ensures k[..|p|] != p
    {
      AncestorExists(nodes, k, |p| + 1);
      var c := k[..|p| + 1];
      assert c[..|c| - 1] == k[..|p|];
    }
  }

  /** After `.` and `..`, a name of a strictly increasing listing does not
      occur earlier in it. */
  lemma ListedOnce(es: seq<string>, i: int)
    requires 2 <= i < |es| && es[0] == "." && es[1] == ".." && Plain(es[i])
    requires Increasing(es[2..])
    ensures es[i] !in es[..i]
  {
    forall j | 2 <= j < i
      ensures es[j] != es[i]
    {
      assert es[j] == es[2..][j - 2] && es[i] == es[2..][i - 2];
      LexIrreflexive(es[i]);
    }
  }

  /** The names a successful readdir lists after `.` and `..` are all different. */
  lemma EntriesDistinct(nodes: Nodes, p: Path, i: int)
    requires WellFormed(nodes)
    requires Entries(nodes, p).Some?
    requires 2 <= i < |Entries(nodes, p).value|
    ensures Entries(nodes, p).value[i] !in Entries(nodes, p).value[..i]
  {
    var es := Entries(nodes, p).value;
    assert es[2..] == SortedElements(ChildNames(nodes, Normalize(p)));
    EntriesAreChildren(nodes, p, i);
    ListedOnce(es, i);
  }

  /** Every child a directory still has was listed when it was read. */
  lemma ChildrenListed(start: Nodes, nodes: Nodes, p: Path)
    requires OnlyRemoved(start, nodes)
    requires Entries(start, p).Some?
    ensures forall k :: k in nodes && |k| == |Normalize(p)| + 1 && k[..|Normalize(p)|] == Normalize(p) ==>
              k[|Normalize(p)|] in Entries(start, p).value
  {
    var q := Normalize(p);
    forall k | k in nodes && |k| == |q| + 1 && k[..|q|] == q
      ensures k[|q|] in Entries(start, p).value
    {
      assert k == q + [k[|q|]];
      ChildIsChildName(start, q, k[|q|]);
      assert k[|q|] in SortedElements(ChildNames(start, q));
    }
  }

  /** Once every listed entry is gone, the directory has no children left. */
  lemma NoEntryLeft(start: Nodes, nodes: Nodes, p: Path)
    requires OnlyRemoved(start, nodes)
    requires Entries(start, p).Some?
    requires DoneGone(nodes, Normalize(p), Entries(start, p).value)
    ensures !HasChildren(nodes, Normalize(p))
  {
    ChildrenListed(start, nodes, p);
  }

  /** The filesystem as the running program sees it. Paths in `locked` are
      those whose permissions make unlink, rmdir, mkdir and writes there fail. */
  class Fs {
    var nodes: Nodes
    const locked: set<Path>

    constructor(nodes0: Nodes, locked0: set<Path>)
      requires WellFormed(nodes0)
      ensures nodes == nodes0 && locked == locked0
    {
      nodes := nodes0;
      locked := locked0;
    }

    ghost predicate Valid()
      reads this
    {
      WellFormed(nodes)
    }

    method Unlink(p: Path) returns (ok: bool)
      requires Valid()
      modifies this
      ensures Valid()
      ensures (nodes, ok) == UnlinkSpec(old(nodes), locked, p)
    {
      UnlinkKeepsWellFormed(nodes, locked, p);
      var r := UnlinkSpec(nodes, locked, p);
      nodes, ok := r.0, r.1;
    }

    method Rmdir(p: Path) returns (ok: bool)
      requires Valid()
      modifies this
      ensures Valid()
      ensures (nodes, ok) == RmdirSpec(old(nodes), locked, p)
    {
      RmdirKeepsWellFormed(nodes, locked, p);
      var r := RmdirSpec(nodes, locked, p);
      nodes, ok := r.0, r.1;
    }

    method Mkdirs(p: Path) returns (ok: bool)
      requires Valid()
      modifies this
      ensures Valid()
      ensures (nodes, ok) == MkdirsSpec(old(nodes), locked, p)
    {
      MkdirsKeepsWellFormed(nodes, locked, p);
      var r := MkdirsSpec(nodes, locked, p);
      nodes, ok := r.0, r.1;
    }

    method Write(p: Path, data: string) returns (ok: bool)
      requires Valid()
      modifies this
      ensures Valid()
      ensures (nodes, ok) == WriteSpec(old(nodes), locked, p, data)
    {
      WriteKeepsWellFormed(nodes, locked, p, data);
      var r := WriteSpec(nodes, locked, p, data);
      nodes, ok := r.0, r.1;
    }
  }
}
