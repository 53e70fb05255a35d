/** The pass over the members of an archive, with what it remembers of the ones before (installer/local_build_archive.py). */
module TarPass {
  import opened Common
  import opened TarMembers

  /** The dictionaries and counters of the pass. */
  datatype Memory = Memory(names: set<Path>, kinds: map<Path, Kind>, required: set<Path>, folded: map<Path, Member>,
                           digests: map<Path, Bytes>, total: nat)

  ghost predicate AliasName(p: Policy, x: Path) { exists a <- p.aliases :: x in a }

  ghost predicate Above(ms: seq<Member>, d: Path) { d != [] && exists m <- ms :: ProperPrefix(d, m.path) }

  /** The memory is that of the members passed so far. */
  ghost predicate Remembers(p: Policy, ms: seq<Member>, y: Memory) {
    && (forall x :: x in y.names <==> exists m <- ms :: m.path == x) && [] !in y.names
    && y.kinds.Keys == y.names && (forall m <- ms :: y.kinds[m.path] == m.kind)
    && (forall d :: d in y.required <==> Above(ms, d))
    && (forall m <- ms :: m.kind == Regular && AliasName(p, m.path) ==> Get(y.digests, m.path) == Some(m.digest))
    && y.total == Total(ms)
  }

  /** The folded names lead to the first member that has them. */
  ghost predicate Folds(p: Policy, ms: seq<Member>, folded: map<Path, Member>) {
    && (forall f <- folded :: exists i :: 0 <= i < |ms| && folded[f] == ms[i] && Folded(p, ms[i].path) == f && Leads(p, ms, i))
    && (forall m <- ms :: p.unique && Selected(p, m.path) ==> Folded(p, m.path) in folded)
  }

  ghost predicate Leads(p: Policy, ms: seq<Member>, i: nat)
    requires i < |ms|
  {
    p.unique && Selected(p, ms[i].path) && forall k | 0 <= k < i :: !Collide(p, ms[k], ms[i])
  }

  /** What one more member must meet. */
  ghost predicate Next(p: Policy, ms: seq<Member>, m: Member) {
    && |ms| + 1 <= p.maxMembers && Total(ms) + Size(m) <= p.maxBytes && Proper(p, m)
    && (forall a <- ms :: Compatible(a, m)) && CaseFits(p, ms, m)
  }

  ghost predicate CaseFits(p: Policy, ms: seq<Member>, m: Member) {
    forall i | 0 <= i < |ms| && Collide(p, ms[i], m) && (forall k | 0 <= k < i :: !Collide(p, ms[k], m)) :: Aliased(p, ms[i], m)
  }

  lemma TotalJoined(ms: seq<Member>, m: Member)
    ensures Total(ms + [m]) == Total(ms) + Size(m)
  {
    assert (ms + [m])[..|ms|] == ms;
  }

  lemma AcceptedNext(p: Policy, ms: seq<Member>, m: Member)
    ensures Accepted(p, ms + [m]) <==> Accepted(p, ms) && Next(p, ms, m)
  {
    var all, n := ms + [m], |ms|;
    assert all[..n] == ms && all[n] == m;
    assert Total(all) == Total(ms) + Size(m);
    if Accepted(p, all) {
      AcceptedBefore(p, ms, m);
      NextAccepted(p, ms, m);
    }
    if Accepted(p, ms) && Next(p, ms, m) {
      hide AliasesValid, Proper, Compatible, Collide, Aliased, Total, Size;
      assert forall i, j | 0 <= i < j < n :: FirstOfName(p, all, i, j) ==> FirstOfName(p, ms, i, j);
      assert forall x :: x in all <==> x in ms || x == m;
      assert Accepted(p, all);
    }
  }

  lemma AcceptedBefore(p: Policy, ms: seq<Member>, m: Member)
    requires Accepted(p, ms + [m])
    ensures Accepted(p, ms)
  {
    hide AliasesValid, Proper, Compatible, Collide, Aliased, Total, Size;
    var all, n := ms + [m], |ms|;
    TotalJoined(ms, m);
    assert forall i | 0 <= i < n :: all[i] == ms[i];
    assert forall i, j | 0 <= i < j < n :: FirstOfName(p, ms, i, j) ==> FirstOfName(p, all, i, j);
    assert forall x <- ms :: x in all;
  }

  lemma NextAccepted(p: Policy, ms: seq<Member>, m: Member)
    requires Accepted(p, ms + [m])
    ensures Next(p, ms, m)
  {
    hide AliasesValid, Proper, Compatible, Collide, Aliased, Total, Size;
    var all, n := ms + [m], |ms|;
    TotalJoined(ms, m);
    assert all[n] == m && m in all;
    forall a <- ms ensures Compatible(a, m) {
      var i :| 0 <= i < n && ms[i] == a;
      assert all[i] == a;
    }
    forall i | 0 <= i < n && Collide(p, ms[i], m) && (forall k | 0 <= k < i :: !Collide(p, ms[k], m))
      ensures Aliased(p, ms[i], m)
    {
      assert FirstOfName(p, all, i, n);
    }
  }

  lemma {:induction false} RefusedStays(p: Policy, ms: seq<Member>, n: nat)
    requires n <= |ms| && !Accepted(p, ms[..n])
    ensures !Accepted(p, ms)
    decreases |ms| - n
  {
    hide Accepted, Next;
    if n == |ms| {
      assert ms[..n] == ms;
    } else {
      assert ms[..n + 1] == ms[..n] + [ms[n]];
      AcceptedNext(p, ms[..n], ms[n]);
      RefusedStays(p, ms, n + 1);
    }
  }

  /** The alias policy itself: pairs of different spellings of one name. */
  method AliasNames(p: Policy) returns (valid: bool, names: set<Path>)
    ensures valid == AliasesValid(p)
    ensures valid ==> forall x :: x in names <==> AliasName(p, x)
  {
    names := {};
    var rest := p.aliases;
    while rest != {}
      invariant rest <= p.aliases
      invariant forall a <- p.aliases - rest :: |a| == 2 && forall x, y | x in a && y in a :: Folded(p, x) == Folded(p, y)
      invariant forall x :: x in names <==> exists a <- p.aliases - rest :: x in a
      decreases |rest|
    {
      var a :| a in rest;
      if |a| != 2 || exists x, y | x in a && y in a :: Folded(p, x) != Folded(p, y) {
        return false, {};
      }
      ghost var seen := p.aliases - rest;
      names, rest := names + a, rest - {a};
      assert p.aliases - rest == seen + {a};
    }
    valid := true;
  }

  /** No parent of the new member is anything but a directory, and it is one if it is a parent itself. */
  method CheckParents(ghost p: Policy, ghost ms: seq<Member>, y: Memory, m: Member) returns (ok: bool,
                      required: set<Path>)
    requires Remembers(p, ms, y) && m.path !in y.names && m.path != []
    ensures ok <==> forall a <- ms :: Compatible(a, m)
    ensures ok ==> forall d :: d in required <==> Above(ms + [m], d)
  {
    required := y.required;
    for length := 1 to |m.path|
      invariant forall d :: d in required <==> d in y.required || exists k :: 1 <= k < length && d == m.path[..k]
      invariant forall k | 1 <= k < length :: Get(y.kinds, m.path[..k]) in {None, Some(Folder)}
    {
      var parent := m.path[..length];
      if Get(y.kinds, parent) != None && Get(y.kinds, parent) != Some(Folder) {
        ParentIsFile(p, ms, y, m, length);
        return false, required;
      }
      required := required + {parent};
    }
    ok := !(m.path in required && m.kind != Folder);
    ParentsFit(p, ms, y, m);
    AboveBoth(ms, m);
    assert forall k | 1 <= k < |m.path| :: |m.path[..k]| < |m.path|;
  }

  lemma ParentIsFile(p: Policy, ms: seq<Member>, y: Memory, m: Member, length: nat)
    requires Remembers(p, ms, y) && 1 <= length < |m.path|
    requires Get(y.kinds, m.path[..length]) !in {None, Some(Folder)}
    ensures !forall a <- ms :: Compatible(a, m)
  {
    var a :| a in ms && a.path == m.path[..length];
    assert ProperPrefix(a.path, m.path);
  }

  lemma ParentsFit(p: Policy, ms: seq<Member>, y: Memory, m: Member)
    requires Remembers(p, ms, y) && m.path !in y.names && m.path != []
    ensures (forall a <- ms :: Compatible(a, m)) <==>
              (forall k | 1 <= k < |m.path| :: Get(y.kinds, m.path[..k]) in {None, Some(Folder)})
              && (m.path in y.required ==> m.kind == Folder)
  {
    if forall a <- ms :: Compatible(a, m) {
      forall k | 1 <= k < |m.path| ensures Get(y.kinds, m.path[..k]) in {None, Some(Folder)} {
        if m.path[..k] in y.names {
          var a :| a in ms && a.path == m.path[..k];
          assert ProperPrefix(a.path, m.path);
        }
      }
    }
    if (forall k | 1 <= k < |m.path| :: Get(y.kinds, m.path[..k]) in {None, Some(Folder)})
       && (m.path in y.required ==> m.kind == Folder) {
      forall a <- ms ensures Compatible(a, m) {
        assert a.path in y.names && a.path != [];
        if ProperPrefix(a.path, m.path) {
          assert a.path == m.path[..|a.path|];
        }
        if ProperPrefix(m.path, a.path) {
          assert Above(ms, m.path);
        }
      }
    }
  }

  lemma AboveBoth(ms: seq<Member>, m: Member)
    ensures forall d :: Above(ms + [m], d) <==> Above(ms, d) || exists k :: 1 <= k < |m.path| && d == m.path[..k]
  {
    forall d ensures Above(ms + [m], d) <==> Above(ms, d) || exists k :: 1 <= k < |m.path| && d == m.path[..k] {
      assert forall x :: x in ms + [m] <==> x in ms || x == m;
      if d != [] && ProperPrefix(d, m.path) {
        assert d == m.path[..|d|];
      }
      if k :| 1 <= k < |m.path| && d == m.path[..k] {
        assert ProperPrefix(d, m.path) && m in ms + [m];
      }
    }
  }

  /** The first member of the same folded name, if there is one, is an alias with the same digest. */
  method CheckCase(p: Policy, ghost ms: seq<Member>, y: Memory, digests: map<Path, Bytes>, m: Member) returns (ok: bool)
    requires Remembers(p, ms, y) && Folds(p, ms, y.folded)
    requires AliasName(p, m.path) && m.kind == Regular ==> digests == y.digests[m.path := m.digest]
    requires !(AliasName(p, m.path) && m.kind == Regular) ==> digests == y.digests
    requires m.path !in y.names
    ensures ok <==> CaseFits(p, ms, m)
  {
    hide Remembers, Folds, CaseFits, AliasName, Folded, Selected;
    var folded := Folded(p, m.path);
    if !(Selected(p, m.path) && p.unique && folded in y.folded) {
      NobodyFirst(p, ms, y, m);
      return true;
    }
    var previous := y.folded[folded];
    var i := FirstIs(p, ms, y, m);
    DigestsKnown(p, ms, y, digests, m, previous);
    ok := {previous.path, m.path} in p.aliases && previous.kind == Regular && m.kind == Regular
          && previous.size == m.size && previous.mode == m.mode
          && Get(digests, previous.path) == Get(digests, m.path);
  }

  lemma NobodyFirst(p: Policy, ms: seq<Member>, y: Memory, m: Member)
    requires Folds(p, ms, y.folded) && !(Selected(p, m.path) && p.unique && Folded(p, m.path) in y.folded)
    ensures CaseFits(p, ms, m)
  {
    hide Aliased, Folded, Selected, Leads;
  }

  lemma FirstIs(p: Policy, ms: seq<Member>, y: Memory, m: Member) returns (i: nat)
    requires Folds(p, ms, y.folded) && Selected(p, m.path) && p.unique && Folded(p, m.path) in y.folded
    ensures i < |ms| && ms[i] == y.folded[Folded(p, m.path)]
    ensures CaseFits(p, ms, m) <==> Aliased(p, ms[i], m)
  {
    i :| 0 <= i < |ms| && y.folded[Folded(p, m.path)] == ms[i] && Folded(p, ms[i].path) == Folded(p, m.path) && Leads(p, ms, i);
    assert Collide(p, ms[i], m);
    hide Aliased, Folded, Selected;
    assert forall k | 0 <= k < i :: Collide(p, ms[k], m) ==> Collide(p, ms[k], ms[i]);
  }

  lemma DigestsKnown(p: Policy, ms: seq<Member>, y: Memory, digests: map<Path, Bytes>, m: Member, previous: Member)
    requires Remembers(p, ms, y) && m.path !in y.names && previous in ms
    requires AliasName(p, m.path) && m.kind == Regular ==> digests == y.digests[m.path := m.digest]
    requires !(AliasName(p, m.path) && m.kind == Regular) ==> digests == y.digests
    ensures {previous.path, m.path} in p.aliases && previous.kind == Regular && m.kind == Regular ==>
              Get(digests, previous.path) == Some(previous.digest) && Get(digests, m.path) == Some(m.digest)
  {
    if {previous.path, m.path} in p.aliases && previous.kind == Regular && m.kind == Regular {
      var a := {previous.path, m.path};
      assert a in p.aliases && previous.path in a && m.path in a;
      assert previous.path in y.names;
    }
  }

  /** The memory with one more member in it. */
  function Noted(p: Policy, y: Memory, required: set<Path>, digests: map<Path, Bytes>, m: Member): Memory {
    var folded := if Selected(p, m.path) && p.unique && Folded(p, m.path) !in y.folded
                  then y.folded[Folded(p, m.path) := m] else y.folded;
    Memory(y.names + {m.path}, y.kinds[m.path := m.kind], required, folded, digests, y.total + Size(m))
  }

  lemma NotedRemembers(p: Policy, ms: seq<Member>, y: Memory, required: set<Path>, digests: map<Path, Bytes>, m: Member)
    requires Remembers(p, ms, y) && m.path !in y.names && m.path != []
    requires forall d :: d in required <==> Above(ms + [m], d)
    requires AliasName(p, m.path) && m.kind == Regular ==> digests == y.digests[m.path := m.digest]
    requires !(AliasName(p, m.path) && m.kind == Regular) ==> digests == y.digests
    ensures Remembers(p, ms + [m], Noted(p, y, required, digests, m))
  {
    hide AliasName, Above, Folded, Selected, Size, Total;
    TotalJoined(ms, m);
    NotedNames(p, ms, y, required, digests, m);
    NotedDigests(p, ms, y, digests, m);
  }

  lemma NotedNames(p: Policy, ms: seq<Member>, y: Memory, required: set<Path>, digests: map<Path, Bytes>, m: Member)
    requires Remembers(p, ms, y) && m.path !in y.names && m.path != []
    ensures var all, next := ms + [m], Noted(p, y, required, digests, m);
            && (forall x :: x in next.names <==> exists a <- all :: a.path == x) && [] !in next.names
            && next.kinds.Keys == next.names && (forall a <- all :: next.kinds[a.path] == a.kind)
  {
    var all, next := ms + [m], Noted(p, y, required, digests, m);
    hide AliasName, Above, Folded, Selected, Size, Total;
    assert forall x :: x in all <==> x in ms || x == m;
    assert forall a <- ms :: a.path in y.names && a.path != m.path;
  }

  lemma NotedDigests(p: Policy, ms: seq<Member>, y: Memory, digests: map<Path, Bytes>, m: Member)
    requires Remembers(p, ms, y) && m.path !in y.names
    requires AliasName(p, m.path) && m.kind == Regular ==> digests == y.digests[m.path := m.digest]
    requires !(AliasName(p, m.path) && m.kind == Regular) ==> digests == y.digests
    ensures forall a <- ms + [m] :: a.kind == Regular && AliasName(p, a.path) ==> Get(digests, a.path) == Some(a.digest)
  {
    hide AliasName, Above, Total;
    assert forall x :: x in ms + [m] <==> x in ms || x == m;
    assert forall a <- ms :: a.path in y.names && a.path != m.path;
  }

  lemma NotedFolds(p: Policy, ms: seq<Member>, y: Memory, required: set<Path>, digests: map<Path, Bytes>, m: Member)
    requires Folds(p, ms, y.folded)
    ensures Folds(p, ms + [m], Noted(p, y, required, digests, m).folded)
  {
    hide Folded, Selected;
    var all, n, folded := ms + [m], |ms|, Noted(p, y, required, digests, m).folded;
    assert all[n] == m && forall x :: x in all <==> x in ms || x == m;
    forall f <- folded
      ensures exists i :: 0 <= i < |all| && folded[f] == all[i] && Folded(p, all[i].path) == f && Leads(p, all, i)
    {
      if f in y.folded {
        var i :| 0 <= i < n && y.folded[f] == ms[i] && Folded(p, ms[i].path) == f && Leads(p, ms, i);
        assert all[i] == ms[i] && Leads(p, all, i);
      } else {
        assert forall k | 0 <= k < n :: all[k] == ms[k] && ms[k] in ms;
        assert Leads(p, all, n);
      }
    }
  }

  method CheckName(p: Policy, m: Member) returns (ok: bool)
    ensures ok <==> ProperName(p, m)
  {
    var normalized := NormalizeParts(m.path);
    if m.absolute || normalized.None? || normalized.value == [] || normalized.value[0] != p.top || m.path != normalized.value {
      return false;
    }
    return normalized.value != [p.top, p.reserved];
  }

  method CheckKind(p: Policy, m: Member, total: nat) returns (ok: bool)
    requires total <= p.maxBytes
    ensures ok <==> ProperKind(p, m) && total + Size(m) <= p.maxBytes
  {
    hide Normalize;
    if m.kind == Regular {
      return m.size >= 0 && total + m.size <= p.maxBytes;
    }
    if m.kind == Symlink {
      var target := NormalizeParts(LinkTarget(m));
      return target.Some? && target.value != [] && target.value[0] == p.top;
    }
    return m.kind == Folder;
  }

  /** What one member adds, or nothing if it breaks the policy. */
  method Pass(p: Policy, aliasNames: set<Path>, ghost ms: seq<Member>, y: Memory, count: nat, m: Member)
    returns (next: Option<Memory>)
    requires Remembers(p, ms, y) && Folds(p, ms, y.folded) && count == |ms| + 1 && Total(ms) <= p.maxBytes
    requires forall x :: x in aliasNames <==> AliasName(p, x)
    ensures next.Some? <==> Next(p, ms, m)
    ensures next.Some? ==> Remembers(p, ms + [m], next.value) && Folds(p, ms + [m], next.value.folded)
  {
    hide Remembers, Folds, AliasName, CaseFits, Compatible, ProperName, ProperKind, Total, Noted, Size;
    if count > p.maxMembers {
      return None;
    }
    var proper := CheckName(p, m);
    if !proper {
      return None;
    }
    NamesTell(p, ms, y, m);
    if m.path in y.names {
      return None;
    }
    var digests := if m.path in aliasNames && m.kind == Regular then y.digests[m.path := m.digest] else y.digests;
    var fits := CheckCase(p, ms, y, digests, m);
    if !fits {
      return None;
    }
    var under, required := CheckParents(p, ms, y, m);
    if !under {
      return None;
    }
    TotalTold(p, ms, y);
    var kind := CheckKind(p, m, y.total);
    if !kind {
      return None;
    }
    NotedRemembers(p, ms, y, required, digests, m);
    NotedFolds(p, ms, y, required, digests, m);
    return Some(Noted(p, y, required, digests, m));
  }

  lemma NamesTell(p: Policy, ms: seq<Member>, y: Memory, m: Member)
    requires Remembers(p, ms, y)
    ensures ProperName(p, m) ==> m.path != []
    ensures m.path in y.names ==> exists a <- ms :: !Compatible(a, m)
    ensures m.path in y.names ==> !Next(p, ms, m)
  {
    if m.path in y.names {
      var a :| a in ms && a.path == m.path;
      assert !Compatible(a, m);
    }
  }

  lemma TotalTold(p: Policy, ms: seq<Member>, y: Memory)
    requires Remembers(p, ms, y)
    ensures y.total == Total(ms)
  {
  }

  /** The whole pass decides exactly the policy. */
  method ValidateMembers(p: Policy, members: seq<Member>) returns (ok: bool)
    ensures ok <==> Accepted(p, members)
  {
    hide Remembers, Folds, AliasName, Accepted, Next;
    var valid, aliasNames := AliasNames(p);
    AliasesFirst(p, members);
    if !valid {
      return false;
    }
    var y := Memory({}, map[], {}, map[], map[], 0);
    NothingYet(p, y);
    for i := 0 to |members|
      invariant Accepted(p, members[..i]) && Remembers(p, members[..i], y) && Folds(p, members[..i], y.folded)
    {
      assert members[..i + 1] == members[..i] + [members[i]];
      AliasesFirst(p, members[..i]);
      var next := Pass(p, aliasNames, members[..i], y, i + 1, members[i]);
      AcceptedNext(p, members[..i], members[i]);
      if next.None? {
        RefusedStays(p, members, i + 1);
        return false;
      }
      y := next.value;
    }
    assert members[..|members|] == members;
    ok := true;
  }

  lemma NothingYet(p: Policy, y: Memory)
    requires y == Memory({}, map[], {}, map[], map[], 0)
    ensures Remembers(p, [], y) && Folds(p, [], y.folded)
    ensures AliasesValid(p) ==> Accepted(p, [])
  {
  }

  lemma AliasesFirst(p: Policy, ms: seq<Member>)
    ensures Accepted(p, ms) ==> AliasesValid(p) && Total(ms) <= p.maxBytes
  {
  }

  /**
   * What acceptance means for the archive: distinct plain paths under the top, none of them that of the receipt,
   * directories above everything, links that stay below the top, a bounded total, and no two selected members of one
   * folded name other than files of one size and digest that are aliases of its first spelling.
   */
  lemma AcceptedArchive(p: Policy, ms: seq<Member>, i: nat, j: nat)
    requires Accepted(p, ms) && i < j < |ms|
    ensures && !ms[i].absolute && Plain(ms[i].path) && ms[i].path != [] && ms[i].path[0] == p.top
            && ms[i].path != [p.top, p.reserved] && ms[i].path != ms[j].path
    ensures ms[i].path < ms[j].path ==> ms[i].kind == Folder
    ensures ms[j].path < ms[i].path ==> ms[j].kind == Folder
    ensures ms[i].kind == Symlink ==>
              var target := Normalize(LinkTarget(ms[i]));
              target.Some? && Plain(target.value) && target.value != [] && target.value[0] == p.top
    ensures Total(ms) <= p.maxBytes
    ensures Collide(p, ms[i], ms[j]) ==>
              ms[i].kind == ms[j].kind == Regular && ms[i].size == ms[j].size && ms[i].digest == ms[j].digest
              && exists f | 0 <= f <= i :: Allies(p, ms[f].path, ms[j].path)
  {
    assert Proper(p, ms[i]) && Compatible(ms[i], ms[j]);
    NormalForm(ms[i].path);
    NormalForm(LinkTarget(ms[i]));
    hide Accepted, Normalize, Plain, Total, Folded;
    CollidingFiles(p, ms, i, j);
  }

  lemma CollidingFiles(p: Policy, ms: seq<Member>, i: nat, j: nat)
    requires Accepted(p, ms) && i < j < |ms|
    ensures Collide(p, ms[i], ms[j]) ==>
              ms[i].kind == ms[j].kind == Regular && ms[i].size == ms[j].size && ms[i].digest == ms[j].digest
              && exists f | 0 <= f <= i :: Allies(p, ms[f].path, ms[j].path)
  {
    if Collide(p, ms[i], ms[j]) {
      hide Proper, Compatible, Total, AliasesValid, Collide;
      var f := First(p, ms, i, j);
      assert Aliased(p, ms[f], ms[j]) && Allies(p, ms[f].path, ms[j].path);
      if f != i {
        FirstToo(p, ms, f, i, j);
        assert Aliased(p, ms[f], ms[i]);
      }
    }
  }
}
