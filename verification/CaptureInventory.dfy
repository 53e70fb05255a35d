/** The bounded inventory of capture files on an SD card or in a host archive (installer/capture_state.py). */
module CaptureInventory {
  import opened Common

  /** A name below the root, component by component. */
  type Path = seq<string>

  datatype Node = Directory | File(content: Bytes)

  type Tree = map<Path, Node>

  datatype Entry = DirectoryEntry | FileEntry(size: nat, digest: Bytes)

  /**
   * The fixed contract: the root names, directories and size limits that may be archived, the predicate for updater
   * and rollback names that must not be around, and the folding under which two spellings are the same name.
   */
  datatype Rules = Rules(
    roots: set<string>, directories: set<Path>, limits: map<Path, nat>, maxTotal: nat,
    updater: string -> bool, fold: string -> string, hash: Hasher)

  function Parent(p: Path): Path { if p == [] then [] else p[..|p| - 1] }

  /** What a file system guarantees: every entry below the root level lies in a directory. */
  ghost predicate IsTree(t: Tree) {
    forall p <- t :: |p| > 0 && (|p| > 1 ==> Parent(p) in t && t[Parent(p)] == Directory)
  }

  predicate Captured(rules: Rules, p: Path) {
    |p| > 0 && p[0] in rules.roots
  }

  function Capture(rules: Rules, t: Tree): Tree {
    map p <- t | Captured(rules, p) :: t[p]
  }

  function Identify(rules: Rules, n: Node): Entry {
    match n
    case Directory => DirectoryEntry
    case File(content) => FileEntry(|content|, rules.hash(content))
  }

  function Entries(rules: Rules, t: Tree): (m: map<Path, Entry>)
    ensures m.Keys == t.Keys
  {
    map p <- t :: Identify(rules, t[p])
  }

  predicate Permitted(rules: Rules, p: Path, n: Node) {
    match n
    case Directory => p in rules.directories
    case File(content) => p in rules.limits && |content| <= rules.limits[p]
  }

  ghost predicate AllPermitted(rules: Rules, t: Tree) {
    forall p <- t :: Permitted(rules, p, t[p])
  }

  function Size(e: Entry): nat { if e.FileEntry? then e.size else 0 }

  ghost function Total(m: map<Path, Entry>): nat {
    if m == map[] then 0 else var k :| k in m; Size(m[k]) + Total(m - {k})
  }

  lemma {:induction false} TotalStep(m: map<Path, Entry>, k: Path)
    requires k in m
    ensures Total(m) == Size(m[k]) + Total(m - {k})
  {
    var j :| j in m && Total(m) == Size(m[j]) + Total(m - {j});
    if j != k {
      TotalStep(m - {j}, k);
      TotalStep(m - {k}, j);
      assert m - {j} - {k} == m - {k} - {j};
    }
  }

  ghost predicate Within(part: Tree, whole: Tree) {
    forall p <- part :: p in whole && whole[p] == part[p]
  }

  lemma {:induction false} TotalWithin(part: map<Path, Entry>, whole: map<Path, Entry>)
    requires forall p <- part :: p in whole && whole[p] == part[p]
    ensures Total(part) <= Total(whole)
  {
    if part != map[] {
      var k :| k in part;
      TotalStep(part, k);
      TotalStep(whole, k);
      TotalWithin(part - {k}, whole - {k});
    }
  }

  /** Not a contract name, but the same name as one once folded. */
  predicate Misspelt(rules: Rules, name: string) {
    name !in rules.roots && exists r <- rules.roots :: rules.fold(name) == rules.fold(r)
  }

  /** No updater or interrupted handoff at the root, and no misspelt root name. */
  ghost predicate Clean(rules: Rules, t: Tree) {
    forall p <- t | |p| == 1 :: !rules.updater(p[0]) && !Misspelt(rules, p[0])
  }

  /** The inventory in closed form: every captured path at once, refused as a whole or accepted as a whole. */
  ghost function Inventory(rules: Rules, t: Tree): (m: Option<map<Path, Entry>>)
    ensures m.Some? ==> m.value.Keys == Capture(rules, t).Keys
  {
    var found := Capture(rules, t);
    if Clean(rules, t) && AllPermitted(rules, found) && Total(Entries(rules, found)) <= rules.maxTotal
    then Some(Entries(rules, found))
    else None
  }

  /** The identity of one entry: a directory, or a file by its size and digest. */
  lemma IdentifyExactly(rules: Rules, n: Node)
    ensures n.Directory? ==> Identify(rules, n).DirectoryEntry?
    ensures n.File? ==> Identify(rules, n) == FileEntry(|n.content|, rules.hash(n.content))
  {
  }

  /** What counts against the total: the sizes of the files. */
  lemma TotalExactly(m: map<Path, Entry>, p: Path, e: Entry)
    requires p !in m
    ensures Total(map[]) == 0 && Total(m[p := e]) == Total(m) + if e.FileEntry? then e.size else 0
  {
    TotalStep(m[p := e], p);
    assert m[p := e] - {p} == m;
  }

  /**
   * Which trees are inventoried: no updater and no misspelt contract name at the root, below the contract names only
   * directories and files of the contract, no file larger than its limit, and no more than the total. The inventory is
   * everything below the contract names.
   */
  lemma InventoryExactly(rules: Rules, t: Tree)
    ensures Inventory(rules, t).Some? <==>
              && (forall p <- t | |p| == 1 ::
                    && !rules.updater(p[0])
                    && (p[0] in rules.roots || forall r <- rules.roots :: rules.fold(p[0]) != rules.fold(r)))
              && (forall p <- t | |p| > 0 && p[0] in rules.roots ::
                    if t[p].Directory? then p in rules.directories
                    else p in rules.limits && |t[p].content| <= rules.limits[p])
              && Total(map p <- t | |p| > 0 && p[0] in rules.roots :: Identify(rules, t[p])) <= rules.maxTotal
    ensures Inventory(rules, t).Some? ==>
              Inventory(rules, t).value == map p <- t | |p| > 0 && p[0] in rules.roots :: Identify(rules, t[p])
  {
    hide Total, Identify;
    var found := Capture(rules, t);
    assert Entries(rules, found) == map p <- t | |p| > 0 && p[0] in rules.roots :: Identify(rules, t[p]);
    assert AllPermitted(rules, found) <==>
             forall p <- t | |p| > 0 && p[0] in rules.roots ::
               if t[p].Directory? then p in rules.directories
               else p in rules.limits && |t[p].content| <= rules.limits[p] by {
      assert forall p <- t | |p| > 0 && p[0] in rules.roots :: p in found && found[p] == t[p];
    }
  }

  /** What is left of an inventoried capture is itself an inventoried capture. */
  lemma PartInventoried(rules: Rules, t: Tree, whole: Tree)
    requires Clean(rules, t) && Capture(rules, whole) == whole && Inventory(rules, whole).Some?
    requires Within(Capture(rules, t), whole)
    ensures Inventory(rules, t) == Some(Entries(rules, Capture(rules, t)))
  {
    hide Clean, Total, Permitted, Identify;
    TotalWithin(Entries(rules, Capture(rules, t)), Entries(rules, whole));
  }

  /* The walk. */

  predicate IsChild(parent: Path, p: Path) {
    |p| == |parent| + 1 && Parent(p) == parent
  }

  method Roots(rules: Rules, t: Tree) returns (found: Option<seq<Path>>)
    ensures found.None? <==> !Clean(rules, t)
    ensures found.Some? ==> Distinct(found.value)
    ensures found.Some? ==> Members(found.value) == set p <- Capture(rules, t) | |p| == 1
  {
    hide Misspelt;
    var listing := Listed(set p <- t | |p| == 1);
    for i := 0 to |listing|
      invariant forall p <- listing[..i] :: |p| == 1 && !rules.updater(p[0])
    {
      assert listing[i] in Members(listing);
      if rules.updater(listing[i][0]) {
        return None;
      }
    }
    assert listing[..|listing|] == listing;
    var pending: seq<Path> := [];
    for i := 0 to |listing|
      invariant forall p <- listing[..i] :: !Misspelt(rules, p[0])
      invariant Members(pending) == set p <- listing[..i] | p[0] in rules.roots
      invariant Distinct(pending)
    {
      var p := listing[i];
      assert p in Members(listing) && listing[..i + 1] == listing[..i] + [p];
      if Misspelt(rules, p[0]) {
        return None;
      }
      if p[0] in rules.roots {
        assert p !in Members(pending);
        DistinctJoin(pending, [p]);
        MembersJoin(pending, [p]);
        pending := pending + [p];
      }
    }
    assert listing[..|listing|] == listing;
    forall p <- t | |p| == 1 ensures p in listing && !rules.updater(p[0]) && !Misspelt(rules, p[0]) {
      assert p in Members(listing);
    }
    assert forall p :: p in Members(pending) <==> p in Members(listing) && p[0] in rules.roots;
    return Some(pending);
  }

  /** Where the walk stands: `done` is closed upwards, and what borders on it is waiting. */
  ghost predicate Walking(found: Tree, done: set<Path>, waiting: set<Path>) {
    && done <= found.Keys && waiting <= found.Keys && done !! waiting
    && (forall p <- done + waiting | |p| > 1 :: Parent(p) in done)
    && (forall p <- found :: |p| == 1 || Parent(p) in done ==> p in done + waiting)
  }

  lemma {:induction false} AllWalked(found: Tree, done: set<Path>, p: Path)
    requires IsTree(found) && Walking(found, done, {}) && p in found
    ensures p in done
    decreases |p|
  {
    if |p| > 1 {
      AllWalked(found, done, Parent(p));
    }
  }

  /** One step of the walk: a waiting path is done, and its children wait. */
  lemma Walked(found: Tree, done: set<Path>, waiting: set<Path>, p: Path, children: set<Path>)
    requires IsTree(found) && Walking(found, done, waiting) && p in waiting
    requires children == set c <- found | IsChild(p, c)
    ensures Walking(found, done + {p}, waiting - {p} + children) && children !! waiting
  {
  }

  lemma CaptureIsTree(rules: Rules, t: Tree)
    requires IsTree(t)
    ensures IsTree(Capture(rules, t))
  {
    forall p <- Capture(rules, t) | |p| > 1 ensures Parent(p) in Capture(rules, t) {
      assert Parent(p)[0] == p[0];
    }
  }

  lemma SubsetSize<T>(a: set<T>, b: set<T>)
    requires a <= b
    ensures |a| <= |b|
  {
    assert b == a + (b - a);
  }

  lemma ChildrenOf(rules: Rules, t: Tree, p: Path)
    requires IsTree(t) && p in Capture(rules, t)
    ensures (set c <- Capture(rules, t) | IsChild(p, c)) == if t[p].File? then {} else set c <- t | IsChild(p, c)
  {
    forall c <- t | IsChild(p, c) ensures c[0] == p[0] && t[p].Directory? {
      assert Parent(c)[0] == c[0];
    }
  }

  /** What one path off the worklist adds to it; nothing if the path or a child of it is not in the contract. */
  method Visit(rules: Rules, t: Tree, relative: Path) returns (children: Option<seq<Path>>)
    requires IsTree(t) && relative in Capture(rules, t)
    ensures children.None? ==> !AllPermitted(rules, Capture(rules, t))
    ensures children.Some? ==> Permitted(rules, relative, t[relative]) && Distinct(children.value)
    ensures children.Some? ==> Members(children.value) == set c <- Capture(rules, t) | IsChild(relative, c)
  {
    ghost var found := Capture(rules, t);
    ChildrenOf(rules, t, relative);
    if t[relative].File? {
      assert Permitted(rules, relative, found[relative]) <==> Permitted(rules, relative, t[relative]);
      return if Permitted(rules, relative, t[relative]) then Some([]) else None;
    }
    if relative !in rules.directories {
      assert !Permitted(rules, relative, found[relative]);
      return None;
    }
    var list := Listed(set p <- t | IsChild(relative, p));
    for i := 0 to |list| {
      assert list[i] in Members(list);
      if list[i] !in rules.directories && list[i] !in rules.limits {
        assert !Permitted(rules, list[i], found[list[i]]);
        return None;
      }
    }
    return Some(list);
  }

  /** The step on the worklist itself: off the end comes one path, on go its children. */
  lemma WorklistStep(found: Tree, done: set<Path>, pending: seq<Path>, children: seq<Path>)
    requires IsTree(found) && Walking(found, done, Members(pending)) && Distinct(pending) && |pending| > 0
    requires Distinct(children) && Members(children) == set c <- found | IsChild(pending[|pending| - 1], c)
    ensures var p, next := pending[|pending| - 1], pending[..|pending| - 1] + children;
            && Walking(found, done + {p}, Members(next)) && Distinct(next)
            && p in found && p !in done && |found.Keys - (done + {p})| < |found.Keys - done|
  {
    var p := pending[|pending| - 1];
    MembersDropLast(pending);
    hide Distinct;
    Walked(found, done, Members(pending), p, Members(children));
    MembersJoin(pending[..|pending| - 1], children);
    DistinctJoin(pending[..|pending| - 1], children);
    assert found.Keys - done == found.Keys - (done + {p}) + {p};
  }

  method CaptureWalk(rules: Rules, t: Tree) returns (inventory: Option<map<Path, Entry>>)
    requires IsTree(t)
    ensures inventory == Inventory(rules, t)
  {
    hide *;
    ghost var found := Capture(rules, t);
    CaptureIsTree(rules, t);
    RefusedOrListed(rules, t);
    var roots := Roots(rules, t);
    if roots.None? {
      return None;
    }
    var pending := roots.value;
    var entries: map<Path, Entry> := map[];
    WalkStarts(rules, t, Members(pending));
    while |pending| > 0
      invariant Walking(found, entries.Keys, Members(pending)) && Distinct(pending)
      invariant Identified(rules, t, entries)
      decreases |found.Keys - entries.Keys|
    {
      var relative := pending[|pending| - 1];
      ghost var done, waiting := entries.Keys, pending;
      InFound(rules, t, done, pending);
      var children := Visit(rules, t, relative);
      if children.None? {
        return None;
      }
      WorklistStep(found, done, pending, children.value);
      pending := pending[..|pending| - 1] + children.value;
      IdentifiedOne(rules, t, entries, relative);
      entries := entries[relative := Identify(rules, t[relative])];
      BoundHolds(rules, t, entries);
      if |entries| > |rules.limits| + |rules.directories| {
        return None;
      }
    }
    WalkEnds(rules, t, entries, pending);
    var total := SumOf(entries);
    return if total > rules.maxTotal then None else Some(entries);
  }

  /** What has been entered so far is permitted, and entered with its size and digest. */
  ghost predicate Identified(rules: Rules, t: Tree, entries: map<Path, Entry>) {
    forall p <- entries :: p in t && Permitted(rules, p, t[p]) && entries[p] == Identify(rules, t[p])
  }

  lemma IdentifiedOne(rules: Rules, t: Tree, entries: map<Path, Entry>, p: Path)
    requires Identified(rules, t, entries) && p in t && Permitted(rules, p, t[p])
    ensures var next := entries[p := Identify(rules, t[p])];
            Identified(rules, t, next) && next.Keys == entries.Keys + {p}
  {
    hide Permitted, Identify;
  }

  lemma WalkStarts(rules: Rules, t: Tree, roots: set<Path>)
    requires IsTree(Capture(rules, t)) && roots == set p <- Capture(rules, t) | |p| == 1
    ensures Walking(Capture(rules, t), {}, roots) && Identified(rules, t, map[])
  {
    hide Capture;
  }

  /** The four ways an inventory can come out. */
  lemma RefusedOrListed(rules: Rules, t: Tree)
    ensures var listed := Entries(rules, Capture(rules, t));
            Inventory(rules, t) ==
            if !Clean(rules, t) || !AllPermitted(rules, Capture(rules, t)) || Total(listed) > rules.maxTotal then None
            else Some(listed)
  {
  }

  lemma WalkEnds(rules: Rules, t: Tree, entries: map<Path, Entry>, pending: seq<Path>)
    requires IsTree(Capture(rules, t)) && Walking(Capture(rules, t), entries.Keys, Members(pending)) && pending == []
    requires Identified(rules, t, entries)
    ensures entries == Entries(rules, Capture(rules, t)) && AllPermitted(rules, Capture(rules, t))
  {
    forall p <- Capture(rules, t) ensures p in entries {
      AllWalked(Capture(rules, t), entries.Keys, p);
    }
    hide Permitted, Identify, IsTree;
  }

  lemma InFound(rules: Rules, t: Tree, done: set<Path>, pending: seq<Path>)
    requires Walking(Capture(rules, t), done, Members(pending)) && |pending| > 0
    ensures pending[|pending| - 1] in Capture(rules, t) && pending[|pending| - 1] in t
  {
    assert pending[|pending| - 1] in Members(pending);
  }

  /** The bound on the number of entries is never the reason for a refusal: contract names cannot outnumber it. */
  lemma BoundHolds(rules: Rules, found: Tree, entries: map<Path, Entry>)
    requires Identified(rules, found, entries)
    ensures |entries| <= |rules.limits| + |rules.directories|
  {
    assert |entries| == |entries.Keys| && |rules.limits| == |rules.limits.Keys|;
    SubsetSize(entries.Keys, rules.limits.Keys + rules.directories);
  }

  method SumOf(entries: map<Path, Entry>) returns (total: nat)
    ensures total == Total(entries)
  {
    total := 0;
    var rest := entries;
    while rest != map[]
      invariant total + Total(rest) == Total(entries)
      decreases |rest|
    {
      var p :| p in rest;
      TotalStep(rest, p);
      total, rest := total + Size(rest[p]), rest - {p};
    }
  }
}
