/** The one-pass member policy of locked archives against an order-free one (installer/local_build_archive.py). */
module TarMembers {
  import opened Common

  type Path = seq<string>

  /* Lexical normalization. */

  predicate Skipped(part: string) { part == "" || part == "." }

  /** The path below the starting point, or None if it climbs above it. */
  function Normalize(parts: Path): Option<Path> {
    if parts == [] then Some([])
    else
      var last, before := parts[|parts| - 1], Normalize(parts[..|parts| - 1]);
      if before.None? then None
      else if Skipped(last) then before
      else if last == ".." then if before.value == [] then None else Some(before.value[..|before.value| - 1])
      else Some(before.value + [last])
  }

  method NormalizeParts(path: Path) returns (normalized: Option<Path>)
    ensures normalized == Normalize(path)
  {
    var parts: Path := [];
    for i := 0 to |path|
      invariant Normalize(path[..i]) == Some(parts)
    {
      var part := path[i];
      assert path[..i + 1][..i] == path[..i];
      if Skipped(part) {
        continue;
      }
      if part == ".." {
        if parts == [] {
          ClimbsStay(path, i + 1);
          return None;
        }
        parts := parts[..|parts| - 1];
      } else {
        parts := parts + [part];
      }
    }
    assert path[..|path|] == path;
    return Some(parts);
  }

  lemma {:induction false} ClimbsStay(path: Path, n: nat)
    requires n <= |path| && Normalize(path[..n]).None?
    ensures Normalize(path).None?
  {
    if n == |path| {
      assert path[..n] == path;
    } else {
      var shorter := path[..|path| - 1];
      assert shorter[..n] == path[..n];
      ClimbsStay(shorter, n);
    }
  }

  predicate Plain(path: Path) {
    forall part <- path :: !Skipped(part) && part != ".."
  }

  /** What comes out is plain, and a plain path is its own normal form. */
  lemma {:induction false} NormalForm(path: Path)
    ensures Normalize(path).Some? ==> Plain(Normalize(path).value)
    ensures Normalize(path) == Some(path) <==> Plain(path)
  {
    if path != [] {
      var shorter, last := path[..|path| - 1], path[|path| - 1];
      NormalForm(shorter);
      Shrinks(shorter);
      assert path == shorter + [last];
    }
  }

  lemma {:induction false} Shrinks(path: Path)
    ensures Normalize(path).Some? ==> |Normalize(path).value| <= |path|
  {
    if path != [] {
      Shrinks(path[..|path| - 1]);
    }
  }

  /** A path goes on from where its beginning leads. */
  lemma {:induction false} NormalizeJoin(a: Path, b: Path)
    ensures Normalize(a + b) == if Normalize(a).None? then None else Normalize(Normalize(a).value + b)
  {
    if b == [] {
      assert a + b == a;
      NormalForm(a);
      if Normalize(a).Some? {
        assert Normalize(a).value + b == Normalize(a).value;
        NormalForm(Normalize(a).value);
      }
    } else {
      var shorter := b[..|b| - 1];
      NormalizeJoin(a, shorter);
      assert (a + b)[..|a + b| - 1] == a + shorter;
      if Normalize(a).Some? {
        var c := Normalize(a).value;
        assert (c + b)[..|c + b| - 1] == c + shorter;
      }
    }
  }

  /**
   * Empty parts and dots are left out, a name and the two dots after it cancel out, and two dots at the start climb.
   * With plain paths as normal forms these rules decide every path.
   */
  lemma NormalizeRules(a: Path, name: string, b: Path)
    ensures Normalize(a + [""] + b) == Normalize(a + ["."] + b) == Normalize(a + b)
    ensures name !in {"", ".", ".."} ==> Normalize(a + [name, ".."] + b) == Normalize(a + b)
    ensures Normalize([".."] + b) == None
  {
    NormalizeJoin(a, b);
    OneStep(a, "");
    NormalizeJoin(a + [""], b);
    OneStep(a, ".");
    NormalizeJoin(a + ["."], b);
    OneStep(a, name);
    OneStep(a + [name], "..");
    assert a + [name, ".."] == a + [name] + [".."];
    NormalizeJoin(a + [name, ".."], b);
    OneStep([], "..");
    assert [] + [".."] == [".."];
    NormalizeJoin([".."], b);
  }

  lemma OneStep(a: Path, last: string)
    ensures Normalize(a + [last]) ==
              if Normalize(a).None? then None
              else if last == "" || last == "." then Normalize(a)
              else if last == ".." then
                if Normalize(a).value == [] then None else Some(Normalize(a).value[..|Normalize(a).value| - 1])
              else Some(Normalize(a).value + [last])
  {
    assert (a + [last])[..|a|] == a;
  }

  /* The policy. */

  datatype Kind = Regular | Folder | Symlink | Unsupported

  /** A member as the pass sees it: of its content only the size and the SHA-256 digest. */
  datatype Member = Member(path: Path, absolute: bool, kind: Kind, size: int, mode: int, digest: Bytes, link: Path)

  datatype Policy = Policy(
    top: string, maxMembers: nat, maxBytes: nat, reserved: string, included: Option<set<string>>,
    aliases: set<set<Path>>, unique: bool, fold: string -> string)

  function Folded(p: Policy, path: Path): Path {
    seq(|path|, i requires 0 <= i < |path| => p.fold(path[i]))
  }

  predicate AliasesValid(p: Policy) {
    forall a <- p.aliases :: |a| == 2 && forall x, y | x in a && y in a :: Folded(p, x) == Folded(p, y)
  }

  function LinkTarget(m: Member): Path {
    if m.link != [] && m.link[0] in {"/", "//"} then m.link
    else (if m.path == [] then [] else m.path[..|m.path| - 1]) + m.link
  }

  /** A plain relative path under the top, and not that of the receipt. */
  predicate ProperName(p: Policy, m: Member) {
    && !m.absolute && Normalize(m.path) == Some(m.path) && m.path != [] && m.path[0] == p.top
    && m.path != [p.top, p.reserved]
  }

  /** A file, a directory, or a link that lexically stays below the top. */
  predicate ProperKind(p: Policy, m: Member) {
    && m.kind != Unsupported && (m.kind == Regular ==> m.size >= 0)
    && (m.kind == Symlink ==>
          var target := Normalize(LinkTarget(m));
          target.Some? && target.value != [] && target.value[0] == p.top)
  }

  /** What a member must be like whatever else is in the archive. */
  predicate Proper(p: Policy, m: Member) { ProperName(p, m) && ProperKind(p, m) }

  predicate Selected(p: Policy, path: Path) {
    p.included.None? || |path| == 1 || (|path| > 1 && path[1] in p.included.value)
  }

  predicate ProperPrefix(a: Path, b: Path) { a < b }

  /** Different paths, and whatever lies above something else is a directory. */
  predicate Compatible(a: Member, b: Member) {
    && a.path != b.path
    && (ProperPrefix(a.path, b.path) ==> a.kind == Folder)
    && (ProperPrefix(b.path, a.path) ==> b.kind == Folder)
  }

  predicate Collide(p: Policy, a: Member, b: Member) {
    p.unique && Selected(p, a.path) && Selected(p, b.path) && Folded(p, a.path) == Folded(p, b.path)
  }

  /** Two spellings that may share a folded name: an allowed pair of regular files alike in size, mode and digest. */
  predicate Aliased(p: Policy, a: Member, b: Member) {
    && {a.path, b.path} in p.aliases && a.kind == Regular && b.kind == Regular
    && a.size == b.size && a.mode == b.mode && a.digest == b.digest
  }

  function Size(m: Member): nat { if m.kind == Regular && m.size >= 0 then m.size else 0 }

  function Total(ms: seq<Member>): nat {
    if ms == [] then 0 else Total(ms[..|ms| - 1]) + Size(ms[|ms| - 1])
  }

  /** Member j is compared with the first one that has its folded name. */
  ghost predicate FirstOfName(p: Policy, ms: seq<Member>, i: nat, j: nat)
    requires i < j < |ms|
  {
    Collide(p, ms[i], ms[j]) && forall k | 0 <= k < i :: !Collide(p, ms[k], ms[j])
  }

  /** The policy as the pass over the members enforces it. */
  ghost predicate Accepted(p: Policy, ms: seq<Member>) {
    && AliasesValid(p) && |ms| <= p.maxMembers && Total(ms) <= p.maxBytes
    && (forall m <- ms :: Proper(p, m))
    && (forall i, j | 0 <= i < j < |ms| :: Compatible(ms[i], ms[j]))
    && (forall i, j | 0 <= i < j < |ms| && FirstOfName(p, ms, i, j) :: Aliased(p, ms[i], ms[j]))
  }

  /** The same without regard to order: every two colliding members are aliases. */
  ghost predicate Acceptable(p: Policy, ms: seq<Member>) {
    && AliasesValid(p) && |ms| <= p.maxMembers && Total(ms) <= p.maxBytes
    && (forall m <- ms :: Proper(p, m))
    && (forall i, j | 0 <= i < j < |ms| :: Compatible(ms[i], ms[j]) && (Collide(p, ms[i], ms[j]) ==> Aliased(p, ms[i], ms[j])))
  }

  /* The policy in its own terms. */

  /** Two paths that differ at most in the case of their parts. */
  ghost predicate Alike(p: Policy, x: Path, y: Path) {
    |x| == |y| && forall k | 0 <= k < |x| :: p.fold(x[k]) == p.fold(y[k])
  }

  lemma AlikeIsFolded(p: Policy, x: Path, y: Path)
    ensures Alike(p, x, y) <==> Folded(p, x) == Folded(p, y)
  {
    var f, g := Folded(p, x), Folded(p, y);
    if f == g {
      assert |f| == |g|;
      forall k | 0 <= k < |x| ensures p.fold(x[k]) == p.fold(y[k]) {
        assert f[k] == g[k];
      }
    }
  }

  lemma AliasesExactly(p: Policy)
    ensures AliasesValid(p) <==> PairsAlike(p)
  {
    forall x, y ensures Alike(p, x, y) <==> Folded(p, x) == Folded(p, y) {
      AlikeIsFolded(p, x, y);
    }
    hide Alike, Folded;
  }

  lemma ProperExactly(p: Policy, m: Member)
    ensures Proper(p, m) <==>
              && !m.absolute && m.path != [] && m.path[0] == p.top && m.path != [p.top, p.reserved]
              && (forall part <- m.path :: part !in {"", ".", ".."})
              && m.kind != Unsupported && (m.kind == Regular ==> m.size >= 0)
              && (m.kind == Symlink ==>
                    var from := if m.link != [] && m.link[0] in {"/", "//"} then [] else m.path[..|m.path| - 1];
                    var target := Normalize(from + m.link);
                    target.Some? && target.value != [] && target.value[0] == p.top)
  {
    NormalForm(m.path);
    assert [] + m.link == m.link;
    hide Normalize;
  }

  lemma CollideExactly(p: Policy, a: Member, b: Member)
    ensures Collide(p, a, b) <==>
              && p.unique && Alike(p, a.path, b.path)
              && (p.included.None? || |a.path| == 1
                  || (|a.path| > 1 && a.path[1] in p.included.value && b.path[1] in p.included.value))
  {
    AlikeIsFolded(p, a.path, b.path);
    hide Alike, Folded;
    assert Alike(p, a.path, b.path) ==> |a.path| == |b.path| by { SameLengths(p, a.path, b.path); }
  }

  lemma SameLengths(p: Policy, x: Path, y: Path)
    ensures Alike(p, x, y) ==> |x| == |y|
  {
  }

  lemma TotalRules(ms: seq<Member>, m: Member)
    ensures Total([]) == 0
    ensures Total(ms + [m]) == Total(ms) + if m.kind == Regular && m.size >= 0 then m.size else 0
  {
    assert (ms + [m])[..|ms|] == ms;
  }

  /** Aliases are pairs of spellings of one name. */
  ghost predicate PairsAlike(p: Policy) {
    forall a <- p.aliases :: |a| == 2 && forall x, y | x in a && y in a :: Alike(p, x, y)
  }

  /** No path comes twice, and whatever lies above another one is a directory. */
  ghost predicate FoldersAbove(ms: seq<Member>) {
    forall i, j | 0 <= i < j < |ms| ::
      && ms[i].path != ms[j].path
      && (ms[i].path < ms[j].path ==> ms[i].kind == Folder)
      && (ms[j].path < ms[i].path ==> ms[j].kind == Folder)
  }

  /** Each member and the first one it collides with are an allowed pair of files, alike but for their names. */
  ghost predicate FirstsAllied(p: Policy, ms: seq<Member>) {
    forall i, j | 0 <= i < j < |ms| && Collide(p, ms[i], ms[j]) ::
      || (exists k | 0 <= k < i :: Collide(p, ms[k], ms[j]))
      || (&& {ms[i].path, ms[j].path} in p.aliases && ms[i].kind == Regular == ms[j].kind
          && ms[i].size == ms[j].size && ms[i].mode == ms[j].mode && ms[i].digest == ms[j].digest)
  }

  /** The policy without the predicates it is made of; Proper and Collide are told by the two lemmas above. */
  lemma AcceptedExactly(p: Policy, ms: seq<Member>)
    ensures Accepted(p, ms) <==>
              && PairsAlike(p) && |ms| <= p.maxMembers && Total(ms) <= p.maxBytes
              && (forall m <- ms :: Proper(p, m)) && FoldersAbove(ms) && FirstsAllied(p, ms)
  {
    AliasesExactly(p);
    hide AliasesValid, Alike, Total, Proper, Collide;
    FoldersExactly(ms);
    FirstsExactly(p, ms);
    hide PairsAlike, FoldersAbove, FirstsAllied, Compatible, Aliased, FirstOfName;
  }

  lemma FoldersExactly(ms: seq<Member>)
    ensures (forall i, j | 0 <= i < j < |ms| :: Compatible(ms[i], ms[j])) <==> FoldersAbove(ms)
  {
  }

  lemma FirstsExactly(p: Policy, ms: seq<Member>)
    ensures (forall i, j | 0 <= i < j < |ms| && FirstOfName(p, ms, i, j) :: Aliased(p, ms[i], ms[j])) <==> FirstsAllied(p, ms)
  {
    hide Collide;
    forall i, j | 0 <= i < j < |ms|
      ensures FirstOfName(p, ms, i, j) <==>
                Collide(p, ms[i], ms[j]) && !(exists k | 0 <= k < i :: Collide(p, ms[k], ms[j]))
    {
    }
    hide FirstOfName;
  }

  predicate Allies(p: Policy, x: Path, y: Path) { {x, y} in p.aliases }

  /** Aliases of one name are aliases of each other. */
  ghost predicate Transitive(p: Policy) {
    forall x, y, z :: Allies(p, x, y) && Allies(p, x, z) && y != z ==> Allies(p, y, z)
  }

  function Empty(path: Path): Member { Member(path, false, Regular, 0, 0, [], []) }

  /** An alias name that an archive under this policy could contain. */
  predicate Usable(p: Policy, x: Path) { Proper(p, Empty(x)) && Selected(p, x) }

  /** Three spellings of one name that an archive can contain, the first of them an alias of the other two. */
  ghost predicate Star(p: Policy, x: Path, y: Path, z: Path) {
    && AliasesValid(p) && p.unique && p.maxMembers >= 3 && Usable(p, x) && Usable(p, y) && Usable(p, z)
    && Allies(p, x, y) && Allies(p, x, z) && y != z && !Allies(p, y, z)
  }

  /** Without such a star comparing with the first of a name is as good as comparing all with all. */
  lemma FirstSuffices(p: Policy, ms: seq<Member>)
    requires forall x, y, z :: !Star(p, x, y, z)
    ensures Accepted(p, ms) <==> Acceptable(p, ms)
  {
    hide Proper, Total, Compatible, AliasesValid, Star, Usable;
    if Accepted(p, ms) {
      forall i, j | 0 <= i < j < |ms| && Collide(p, ms[i], ms[j]) ensures Aliased(p, ms[i], ms[j]) {
        var f := First(p, ms, i, j);
        if f != i {
          CollideOn(p, ms[f], ms[i], ms[j]);
          FirstToo(p, ms, f, i, j);
          assert Aliased(p, ms[f], ms[i]) && Aliased(p, ms[f], ms[j]);
          Apart(ms[i], ms[j]);
          AliasOn(p, ms[f], ms[i], ms[j]);
        }
      }
    }
  }

  /** The first member that collides with j, no later than i. */
  lemma {:induction false} First(p: Policy, ms: seq<Member>, i: nat, j: nat) returns (f: nat)
    requires i < j < |ms| && Collide(p, ms[i], ms[j])
    ensures f <= i && FirstOfName(p, ms, f, j)
  {
    hide Collide;
    if k :| 0 <= k < i && Collide(p, ms[k], ms[j]) {
      f := First(p, ms, k, j);
    } else {
      f := i;
    }
  }

  lemma CollideOn(p: Policy, f: Member, a: Member, b: Member)
    requires Collide(p, f, b) && Collide(p, a, b)
    ensures Collide(p, f, a)
  {
  }

  lemma FirstToo(p: Policy, ms: seq<Member>, f: nat, i: nat, j: nat)
    requires f < i < j < |ms| && FirstOfName(p, ms, f, j) && Collide(p, ms[i], ms[j])
    ensures FirstOfName(p, ms, f, i)
  {
    CollideOn(p, ms[f], ms[i], ms[j]);
    assert forall k | 0 <= k < f :: Collide(p, ms[k], ms[i]) ==> Collide(p, ms[k], ms[j]);
  }

  lemma Apart(a: Member, b: Member)
    requires Compatible(a, b)
    ensures a.path != b.path
  {
  }

  /** Two aliases of one member are aliases of each other, or the three of them are a star. */
  lemma AliasOn(p: Policy, f: Member, a: Member, b: Member)
    requires Aliased(p, f, a) && Aliased(p, f, b) && a.path != b.path
    requires AliasesValid(p) && p.maxMembers >= 3 && Proper(p, f) && Proper(p, a) && Proper(p, b)
    requires Collide(p, f, a) && Collide(p, f, b)
    requires !Star(p, f.path, a.path, b.path)
    ensures Aliased(p, a, b)
  {
    hide AliasesValid, Normalize;
    assert Usable(p, f.path) && Usable(p, a.path) && Usable(p, b.path);
    assert Allies(p, f.path, a.path) && Allies(p, f.path, b.path);
    assert Allies(p, a.path, b.path);
  }

  /* Permutations. */

  function Without<T>(s: seq<T>, k: nat): (r: seq<T>)
    requires k < |s|
    ensures |r| == |s| - 1 && forall i :: 0 <= i < |r| ==> r[i] == if i < k then s[i] else s[i + 1]
  {
    s[..k] + s[k + 1..]
  }

  lemma MultisetWithout<T>(s: seq<T>, k: nat)
    requires k < |s|
    ensures multiset(Without(s, k)) == multiset(s) - multiset{s[k]}
  {
    assert s == s[..k] + [s[k]] + s[k + 1..];
  }

  lemma {:induction false} TotalWithout(ms: seq<Member>, k: nat)
    requires k < |ms|
    ensures Total(ms) == Total(Without(ms, k)) + Size(ms[k])
  {
    hide Size;
    var n := |ms| - 1;
    if k == n {
      assert Without(ms, k) == ms[..n];
    } else {
      TotalWithout(ms[..n], k);
      var rest := Without(ms, k);
      assert rest[..n - 1] == Without(ms[..n], k);
    }
  }

  lemma Occurs<T>(s: seq<T>, x: T) returns (k: nat)
    requires x in multiset(s)
    ensures k < |s| && s[k] == x
  {
    assert x in s;
    k :| 0 <= k < |s| && s[k] == x;
  }

  lemma {:induction false} TotalOfPermutation(a: seq<Member>, b: seq<Member>)
    requires multiset(a) == multiset(b)
    ensures |a| == |b| && Total(a) == Total(b)
    decreases |a|
  {
    assert |multiset(a)| == |a| && |multiset(b)| == |b|;
    hide Size, Total;
    if a != [] {
      var k := Occurs(b, a[0]);
      MultisetWithout(a, 0);
      MultisetWithout(b, k);
      TotalOfPermutation(Without(a, 0), Without(b, k));
      TotalWithout(a, 0);
      TotalWithout(b, k);
    } else {
      assert b == [];
    }
  }

  lemma PairIn(a: seq<Member>, b: seq<Member>, i: nat, j: nat) returns (k: nat, l: nat)
    requires multiset(a) == multiset(b) && i < j < |b|
    ensures k < |a| && l < |a| && k != l && a[k] == b[i] && a[l] == b[j]
  {
    hide *;
    assert b[i] in multiset(b);
    k := Occurs(a, b[i]);
    MultisetWithout(a, k);
    MultisetWithout(b, i);
    WithoutAt(b, i, j - 1);
    assert b[j] in multiset(Without(b, i));
    var t := Occurs(Without(a, k), b[j]);
    WithoutAt(a, k, t);
    l := if t < k then t else t + 1;
  }

  lemma WithoutAt<T>(s: seq<T>, k: nat, t: nat)
    requires k < |s| && t < |s| - 1
    ensures Without(s, k)[t] == s[if t < k then t else t + 1]
  {
  }

  lemma TotalOfThree(a: Member, b: Member, c: Member)
    ensures Total([a, b, c]) == Size(a) + Size(b) + Size(c)
  {
    assert [a][..0] == [] && [a, b][..1] == [a] && [a, b, c][..2] == [a, b];
    assert Total([a]) == Size(a);
    assert Total([a, b]) == Size(a) + Size(b);
  }

  lemma Symmetric(p: Policy, a: Member, b: Member)
    ensures Compatible(a, b) == Compatible(b, a) && Collide(p, a, b) == Collide(p, b, a) && Aliased(p, a, b) == Aliased(p, b, a)
  {
    assert {a.path, b.path} == {b.path, a.path};
  }

  lemma AcceptableInAnyOrder(p: Policy, a: seq<Member>, b: seq<Member>)
    requires multiset(a) == multiset(b) && Acceptable(p, a)
    ensures Acceptable(p, b)
  {
    hide AliasesValid, Proper, Compatible, Collide, Aliased, Total;
    TotalOfPermutation(a, b);
    forall m <- b ensures Proper(p, m) {
      assert m in multiset(b) && m in multiset(a);
    }
    forall i, j | 0 <= i < j < |b| ensures Compatible(b[i], b[j]) && (Collide(p, b[i], b[j]) ==> Aliased(p, b[i], b[j])) {
      var k, l := PairIn(a, b, i, j);
      Symmetric(p, a[k], a[l]);
    }
  }

  /** Whether an archive is accepted does not depend on the order of its members. */
  ghost predicate OrderFree(p: Policy) {
    forall a, b :: multiset(a) == multiset(b) && Accepted(p, a) ==> Accepted(p, b)
  }

  lemma StarlessIsOrderFree(p: Policy)
    requires forall x, y, z :: !Star(p, x, y, z)
    ensures OrderFree(p)
  {
    hide Accepted, Acceptable, Star;
    forall a, b | multiset(a) == multiset(b) && Accepted(p, a) ensures Accepted(p, b) {
      FirstSuffices(p, a);
      AcceptableInAnyOrder(p, a, b);
      FirstSuffices(p, b);
    }
  }

  lemma StarFacts(p: Policy, x: Path, y: Path, z: Path)
    requires Star(p, x, y, z)
    ensures x != y && x != z && Folded(p, x) == Folded(p, y) == Folded(p, z)
  {
    assert |{x, y}| == 2 && |{x, z}| == 2;
    assert x in {x, y} && y in {x, y} && x in {x, z} && z in {x, z};
  }

  lemma StarAccepted(p: Policy, x: Path, y: Path, z: Path)
    requires Star(p, x, y, z)
    ensures Accepted(p, [Empty(x), Empty(y), Empty(z)])
  {
    var ms := [Empty(x), Empty(y), Empty(z)];
    StarFacts(p, x, y, z);
    SameLength(p, x, y);
    SameLength(p, x, z);
    SameLength(p, y, z);
    TotalOfThree(ms[0], ms[1], ms[2]);
    hide AliasesValid, Proper, Folded, Total;
    assert Collide(p, ms[0], ms[2]);
    assert !FirstOfName(p, ms, 1, 2);
  }

  lemma StarRefused(p: Policy, x: Path, y: Path, z: Path)
    requires Star(p, x, y, z)
    ensures !Accepted(p, [Empty(y), Empty(x), Empty(z)])
  {
    var ms := [Empty(y), Empty(x), Empty(z)];
    StarFacts(p, x, y, z);
    hide AliasesValid, Proper, Folded;
    assert Collide(p, ms[0], ms[2]);
    assert FirstOfName(p, ms, 0, 2);
    assert !Aliased(p, ms[0], ms[2]);
  }

  /** A name with two aliases that are not aliases of each other is accepted first, and refused second. */
  lemma OrderMatters(p: Policy, x: Path, y: Path, z: Path)
    requires Star(p, x, y, z)
    ensures var a, b := [Empty(x), Empty(y), Empty(z)], [Empty(y), Empty(x), Empty(z)];
            multiset(a) == multiset(b) && Accepted(p, a) && !Accepted(p, b)
  {
    hide *;
    StarAccepted(p, x, y, z);
    StarRefused(p, x, y, z);
    assert multiset([Empty(x), Empty(y), Empty(z)]) == multiset{Empty(x), Empty(y), Empty(z)};
    assert multiset([Empty(y), Empty(x), Empty(z)]) == multiset{Empty(x), Empty(y), Empty(z)};
  }

  /** A case folding of the names below. */
  function FoldAb(s: string): string { if s in {"Ab", "aB"} then "ab" else s }

  /** A policy with two aliases for one name, which are not aliases of each other. */
  const STARRED :=
    Policy("t", 3, 0, "receipt", None, {{["t", "ab"], ["t", "Ab"]}, {["t", "ab"], ["t", "aB"]}}, true, FoldAb)

  /** There are such policies, and with them archives that are accepted in one order only. */
  lemma StarExists()
    ensures Star(STARRED, ["t", "ab"], ["t", "Ab"], ["t", "aB"]) && !OrderFree(STARRED)
  {
    hide Usable, AliasesValid, OrderFree;
    StarredAliases();
    StarredUsable("ab");
    StarredUsable("Ab");
    StarredUsable("aB");
    NotOrderFree(STARRED, ["t", "ab"], ["t", "Ab"], ["t", "aB"]);
  }

  lemma StarredUsable(name: string)
    requires name in {"ab", "Ab", "aB"}
    ensures Usable(STARRED, ["t", name])
  {
    assert |name| == 2;
    NormalForm(["t", name]);
    hide Normalize;
  }

  lemma StarredAliases()
    ensures AliasesValid(STARRED) && Allies(STARRED, ["t", "ab"], ["t", "Ab"]) && Allies(STARRED, ["t", "ab"], ["t", "aB"])
    ensures ["t", "Ab"] != ["t", "aB"] && !Allies(STARRED, ["t", "Ab"], ["t", "aB"])
  {
    var x, y, z: Path := ["t", "ab"], ["t", "Ab"], ["t", "aB"];
    assert x[1][0] != y[1][0] && x[1][1] != z[1][1] && y[1][0] != z[1][0];
    assert Folded(STARRED, x) == Folded(STARRED, y) == Folded(STARRED, z) == x;
    assert |{x, y}| == 2 && |{x, z}| == 2 && x !in {y, z};
  }

  lemma SameLength(p: Policy, x: Path, y: Path)
    requires Folded(p, x) == Folded(p, y) && x != y
    ensures !ProperPrefix(x, y) && !ProperPrefix(y, x)
  {
    assert |x| == |Folded(p, x)| == |Folded(p, y)| == |y|;
  }

  lemma NotOrderFree(p: Policy, x: Path, y: Path, z: Path)
    requires Star(p, x, y, z)
    ensures !OrderFree(p)
  {
    hide Star, Accepted;
    OrderMatters(p, x, y, z);
  }

  /** For every policy: acceptance is free of order exactly if the policy has no star. */
  lemma OrderFreeExactly(p: Policy)
    ensures OrderFree(p) <==> forall x, y, z :: !Star(p, x, y, z)
  {
    hide OrderFree, Star;
    if x, y, z :| Star(p, x, y, z) {
      NotOrderFree(p, x, y, z);
    } else {
      StarlessIsOrderFree(p);
    }
  }

  /** Transitive aliases are enough, and needed where every alias name can occur. */
  lemma TransitiveSuffices(p: Policy)
    ensures Transitive(p) ==> OrderFree(p)
    ensures AliasesValid(p) && p.unique && p.maxMembers >= 3 && (forall x, y :: Allies(p, x, y) ==> Usable(p, x) && Usable(p, y)) ==>
              (OrderFree(p) <==> Transitive(p))
  {
    hide OrderFree, AliasesValid, Usable;
    OrderFreeExactly(p);
    if !Transitive(p) && AliasesValid(p) && p.unique && p.maxMembers >= 3
       && (forall x, y :: Allies(p, x, y) ==> Usable(p, x) && Usable(p, y)) {
      var x, y, z :| Allies(p, x, y) && Allies(p, x, z) && y != z && !Allies(p, y, z);
      assert Star(p, x, y, z);
    }
  }
}
