/** Byte strings and the small vocabulary every other module shares. */
module Common {
  type Bytes = seq<bv8>

  /** A hash is a function; which one is a parameter wherever only its agreement on equal input matters. */
  type Hasher = Bytes -> Bytes

  datatype Option<+T> = None | Some(value: T)

  /** The value under a key, if there is one. */
  function Get<K, V>(m: map<K, V>, key: K): Option<V> { if key in m then Some(m[key]) else None }

  /** The byte of a value, by counting up to it. */
  function Byte(n: int): (b: bv8)
    requires 0 <= n < 256
    ensures b as int == n
  {
    if n == 0 then 0 else Byte(n - 1) + 1
  }

  /** n erased flash bytes. */
  function Erased(n: nat): (r: Bytes)
    ensures |r| == n
    ensures forall i :: 0 <= i < n ==> r[i] == 0xff
  {
    seq(n, _ => 0xff)
  }

  /** c with x laid over it from position `at`. */
  function Put(c: Bytes, at: nat, x: Bytes): (d: Bytes)
    requires at + |x| <= |c|
    ensures |d| == |c|
    ensures forall i :: 0 <= i < |c| ==> d[i] == if at <= i < at + |x| then x[i - at] else c[i]
  {
    seq(|c|, i requires 0 <= i < |c| => if at <= i < at + |x| then x[i - at] else c[i])
  }

  lemma PutNothing(c: Bytes, at: nat)
    requires at <= |c|
    ensures Put(c, at, []) == c && Put(c, at, Erased(0)) == c
  {
  }

  lemma PutReads(c: Bytes, at: nat, x: Bytes)
    requires at + |x| <= |c|
    ensures Put(c, at, x)[at..at + |x|] == x
  {
  }

  /** Two byte strings agree everywhere except, possibly, on [lo, hi). */
  ghost predicate AgreeOutside(c: Bytes, d: Bytes, lo: int, hi: int) {
    |c| == |d| && forall i :: 0 <= i < |c| && !(lo <= i < hi) ==> d[i] == c[i]
  }

  ghost predicate Distinct<T>(s: seq<T>) {
    forall i, j :: 0 <= i < j < |s| ==> s[i] != s[j]
  }

  lemma DistinctJoin<T>(s: seq<T>, u: seq<T>)
    requires Distinct(s) && Distinct(u) && Members(s) !! Members(u)
    ensures Distinct(s + u)
  {
    forall i, j | 0 <= i < j < |s + u| ensures (s + u)[i] != (s + u)[j] {
      if i < |s| <= j {
        assert s[i] in Members(s) && u[j - |s|] in Members(u);
      }
    }
  }

  function Members<T(==)>(s: seq<T>): set<T> { set x <- s }

  lemma MembersJoin<T>(s: seq<T>, u: seq<T>)
    ensures Members(s + u) == Members(s) + Members(u)
  {
  }

  lemma MembersAdd<T>(s: seq<T>, n: nat)
    requires n < |s|
    ensures Members(s[..0]) == {} && Members(s[..n + 1]) == Members(s[..n]) + {s[n]}
  {
    assert s[..n + 1] == s[..n] + [s[n]];
  }

  lemma MembersDropLast<T>(s: seq<T>)
    requires |s| > 0 && Distinct(s)
    ensures Distinct(s[..|s| - 1]) && s[|s| - 1] in Members(s)
    ensures Members(s[..|s| - 1]) == Members(s) - {s[|s| - 1]}
  {
    assert s == s[..|s| - 1] + [s[|s| - 1]];
  }

  /** A directory listing: every name once, in whatever order. */
  method Listed<T(==)>(names: set<T>) returns (list: seq<T>)
    ensures Members(list) == names && Distinct(list)
  {
    list := [];
    var rest := names;
    while rest != {}
      invariant rest <= names && Members(list) == names - rest && Distinct(list)
      decreases |rest|
    {
      var p :| p in rest;
      assert p !in Members(list);
      DistinctJoin(list, [p]);
      MembersJoin(list, [p]);
      hide Distinct;
      list, rest := list + [p], rest - {p};
    }
  }
}
