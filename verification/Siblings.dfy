/**
 Lists of distinct siblings, edited the way a DOM node edits its children: removing a child, and putting
 a node, attached or not, in front of another one.
 */
module Siblings {
  import opened Common

  predicate Distinct<T(==)>(s: seq<T>) {
    forall i, j :: 0 <= i < j < |s| ==> s[i] != s[j]
  }

  function Position<T(==)>(s: seq<T>, x: T): (p: nat)
    requires x in s
    ensures p < |s| && s[p] == x && x !in s[..p]
  {
    if s[0] == x then 0 else 1 + Position(s[1..], x)
  }

  function Without<T(==)>(s: seq<T>, x: T): seq<T> {
    if x in s then s[..Position(s, x)] + s[Position(s, x) + 1..] else s
  }

  /** `x` moved, or newly put, in front of `ref`, or at the end. */
  function Inserted<T(==)>(s: seq<T>, x: T, ref: Option<T>): seq<T>
    requires ref.Some? ==> ref.value in s && ref.value != x
  {
    var rest := Without(s, x);
    if ref.None? then rest + [x]
    else
      WithoutKeeps(s, x, ref.value);
      rest[..Position(rest, ref.value)] + [x] + rest[Position(rest, ref.value)..]
  }

  function Next<T(==)>(s: seq<T>, x: T): Option<T> {
    if x in s && Position(s, x) + 1 < |s| then Some(s[Position(s, x) + 1]) else None
  }

  /** `x` comes before `y`. */
  predicate InOrder<T(==)>(s: seq<T>, x: T, y: T) {
    x in s && y in s && Position(s, x) < Position(s, y)
  }

  /** The first of the siblings in the middle, moved to the front part or to the back part. */
  lemma FirstOut<T>(a: seq<T>, m: seq<T>, b: seq<T>)
    requires m != []
    ensures a + m + b == a + [m[0]] + (m[1..] + b)
    ensures a + m + b == (a + [m[0]]) + m[1..] + b
  {
  }

  lemma Regroup<T>(a: seq<T>, x: T, m: seq<T>, y: T, b: seq<T>)
    ensures a + [x] + m + [y] + b == a + [x] + (m + [y] + b)
  {
  }

  lemma Split<T>(s: seq<T>, x: T)
    requires x in s
    ensures var p := Position(s, x); s == s[..p] + [x] + s[p + 1..]
  {
  }

  lemma PositionAt<T>(a: seq<T>, x: T, b: seq<T>)
    requires x !in a
    ensures x in a + [x] + b && Position(a + [x] + b, x) == |a|
    ensures Without(a + [x] + b, x) == a + b
  {
    var s := a + [x] + b;
    assert s[|a|] == x;
    assert s[..|a|] == a;
    assert Position(s, x) <= |a|;
  }

  /** Putting the sibling that was taken out back in its place. */
  lemma WithoutSplit<T>(s: seq<T>, x: T)
    requires x in s
    ensures var w, k := Without(s, x), Position(s, x);
            k <= |w| && s == w[..k] + [x] + w[k..]
  {
    hide Position;
    var w, k := Without(s, x), Position(s, x);
    assert w[..k] == s[..k] && w[k..] == s[k + 1..];
  }

  lemma WithoutKeeps<T>(s: seq<T>, x: T, y: T)
    requires y != x
    ensures y in s <==> y in Without(s, x)
  {
    if x in s {
      Split(s, x);
    }
  }

  lemma WithoutGone<T>(s: seq<T>, x: T)
    requires Distinct(s)
    ensures x !in Without(s, x) && Distinct(Without(s, x))
    ensures forall y :: y in Without(s, x) ==> y in s
  {
  }

  lemma InsertedAt<T>(s: seq<T>, x: T, a: seq<T>, b: seq<T>)
    requires Distinct(s) && Without(s, x) == a + b
    ensures b == [] ==> Inserted(s, x, None) == a + [x] + b
    ensures b != [] ==> b[0] in s && b[0] != x && Inserted(s, x, Some(b[0])) == a + [x] + b
    ensures Distinct(a + [x] + b)
  {
    WithoutGone(s, x);
    if b != [] {
      assert (a + b)[|a|] == b[0];
      forall i | 0 <= i < |a| ensures a[i] != b[0] {
        assert (a + b)[i] != (a + b)[|a|];
      }
      assert b == [b[0]] + b[1..];
      assert a + b == a + [b[0]] + b[1..];
      PositionAt(a, b[0], b[1..]);
    }
    DistinctInsert(a, x, b);
  }

  lemma DistinctInsert<T>(a: seq<T>, x: T, b: seq<T>)
    requires Distinct(a + b) && x !in a + b
    ensures Distinct(a + [x] + b)
  {
    var s := a + [x] + b;
    forall i, j | 0 <= i < j < |s| ensures s[i] != s[j] {
      var i', j' := if i < |a| then i else i - 1, if j < |a| then j else j - 1;
      assert i != |a| ==> s[i] == (a + b)[i'];
      assert j != |a| ==> s[j] == (a + b)[j'];
    }
  }

  lemma NextAt<T>(a: seq<T>, x: T, b: seq<T>)
    requires x !in a
    ensures Next(a + [x] + b, x) == if b == [] then None else Some(b[0])
  {
    PositionAt(a, x, b);
  }

  lemma DistinctAround<T>(a: seq<T>, x: T, b: seq<T>)
    requires Distinct(a + [x] + b)
    ensures x !in a && x !in b && Distinct(a + b)
  {
    var s := a + [x] + b;
    assert s[|a|] == x;
    forall i | 0 <= i < |a| ensures a[i] != x { assert s[i] != s[|a|]; }
    forall j | 0 <= j < |b| ensures b[j] != x { assert s[|a|] != s[|a| + 1 + j]; }
    var r := a + b;
    forall i, j | 0 <= i < j < |r| ensures r[i] != r[j] {
      assert s[if i < |a| then i else i + 1] != s[if j < |a| then j else j + 1];
    }
  }

  lemma DistinctPart<T>(a: seq<T>, m: seq<T>, b: seq<T>)
    requires Distinct(a + m + b)
    ensures Distinct(m) && Distinct(a + b)
    ensures forall y :: y in m ==> y !in a && y !in b
  {
    var s := a + m + b;
    forall y | y in m ensures y !in a && y !in b {
      var k :| 0 <= k < |m| && m[k] == y;
      forall i | 0 <= i < |a| ensures a[i] != y { assert s[i] != s[|a| + k]; }
      forall j | 0 <= j < |b| ensures b[j] != y { assert s[|a| + k] != s[|a| + |m| + j]; }
    }
    forall i, j | 0 <= i < j < |m| ensures m[i] != m[j] { assert s[|a| + i] != s[|a| + j]; }
    var r := a + b;
    forall i, j | 0 <= i < j < |r| ensures r[i] != r[j] {
      assert r[i] == s[if i < |a| then i else i + |m|];
      assert r[j] == s[if j < |a| then j else j + |m|];
    }
  }

  /** The parts around two siblings. */
  lemma OrderSplit<T>(s: seq<T>, x: T, y: T)
    requires InOrder(s, x, y)
    ensures var p, q := Position(s, x), Position(s, y);
            s == s[..p] + [x] + s[p + 1..q] + [y] + s[q + 1..]
  {
  }

  /** Taking a third sibling out does not change the order of two. */
  lemma OrderWithout<T>(s: seq<T>, x: T, y: T, z: T)
    requires InOrder(s, x, y) && z != x && z != y && Distinct(s)
    ensures InOrder(Without(s, z), x, y)
  {
    WithoutKeeps(s, z, x);
    WithoutKeeps(s, z, y);
    WithoutGone(s, z);
    if z in s {
      PositionWithout(s, x, z);
      PositionWithout(s, y, z);
    }
  }

  lemma PositionWithout<T>(s: seq<T>, x: T, z: T)
    requires Distinct(s) && x in s && z in s && x != z
    ensures x in Without(s, z)
    ensures Position(Without(s, z), x) == if Position(s, x) < Position(s, z) then Position(s, x) else Position(s, x) - 1
  {
    WithoutGone(s, z);
    var r, p, k := Without(s, z), Position(s, x), Position(s, z);
    assert r[if p < k then p else p - 1] == x;
  }

  /** A sibling has one place. */
  lemma SplitOnce<T>(a: seq<T>, x: T, b: seq<T>, a': seq<T>, b': seq<T>)
    requires Distinct(a + [x] + b) && a + [x] + b == a' + [x] + b'
    ensures a == a' && b == b'
  {
    DistinctAround(a, x, b);
    DistinctAround(a', x, b');
    PositionAt(a, x, b);
    PositionAt(a', x, b');
    assert a == (a + [x] + b)[..|a|] && a' == (a' + [x] + b')[..|a'|];
    assert b == (a + [x] + b)[|a| + 1..] && b' == (a' + [x] + b')[|a'| + 1..];
  }
}
