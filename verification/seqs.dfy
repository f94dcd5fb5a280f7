/** Sequence vocabulary shared by the grouping, report and verdict modules:
    duplicate-freedom, concatenation of groups and Python's `list.index`. */
module Seqs {

  /** No element occurs twice. */
  predicate Distinct<T(==)>(s: seq<T>) {
    forall i, j :: 0 <= i < j < |s| ==> s[i] != s[j]
  }

  /** The concatenation of all groups, in group order. */
  function Flatten<T>(gs: seq<seq<T>>): seq<T> {
    if |gs| == 0 then [] else Flatten(gs[..|gs| - 1]) + gs[|gs| - 1]
  }

  /** The total number of members over all groups. */
  function TotalSize<T>(gs: seq<seq<T>>): nat {
    if |gs| == 0 then 0 else TotalSize(gs[..|gs| - 1]) + |gs[|gs| - 1]|
  }

  /** Python's `list.index`: the position of the first occurrence of `x`. */
  function IndexOf<T(==)>(s: seq<T>, x: T): (k: nat)
    requires x in s
    ensures k < |s| && s[k] == x
    ensures forall j :: 0 <= j < k ==> s[j] != x
  {
    if s[0] == x then 0 else 1 + IndexOf(s[1..], x)
  }

  /** In a duplicate-free sequence `IndexOf` inverts indexing. */
  lemma IndexOfDistinct<T>(s: seq<T>, k: nat)
    requires Distinct(s) && k < |s|
    ensures IndexOf(s, s[k]) == k
  {
  }

  lemma FlattenAppend<T>(gs: seq<seq<T>>, g: seq<T>)
    ensures Flatten(gs + [g]) == Flatten(gs) + g
  {
    assert (gs + [g])[..|gs|] == gs;
  }

  /** An element is in the concatenation exactly when some group holds it. */
  lemma {:induction false} FlattenMember<T>(gs: seq<seq<T>>, x: T)
    ensures x in Flatten(gs) <==> exists g :: 0 <= g < |gs| && x in gs[g]
  {
    if |gs| > 0 {
      var init := gs[..|gs| - 1];
      FlattenMember(init, x);
      if x in Flatten(init) {
        var g :| 0 <= g < |init| && x in init[g];
        assert x in gs[g];
      }
      if exists g :: 0 <= g < |gs| && x in gs[g] {
        var g :| 0 <= g < |gs| && x in gs[g];
        if g < |gs| - 1 {
          assert x in init[g];
        }
      }
    }
  }

  lemma {:induction false} FlattenLength<T>(gs: seq<seq<T>>)
    ensures |Flatten(gs)| == TotalSize(gs)
  {
    if |gs| > 0 {
      FlattenLength(gs[..|gs| - 1]);
    }
  }

  /** Two duplicate-free sequences with disjoint elements concatenate to a
      duplicate-free sequence. */
  lemma DistinctConcat<T>(a: seq<T>, b: seq<T>)
    requires Distinct(a) && Distinct(b)
    requires forall x :: x in a ==> x !in b
    ensures Distinct(a + b)
  {
    forall i, j | 0 <= i < j < |a + b|
      ensures (a + b)[i] != (a + b)[j]
    {
      if j < |a| {
        assert (a + b)[i] == a[i] && (a + b)[j] == a[j];
      } else if i >= |a| {
        assert (a + b)[i] == b[i - |a|] && (a + b)[j] == b[j - |a|];
      } else {
        assert (a + b)[i] == a[i] && (a + b)[j] == b[j - |a|];
        assert b[j - |a|] in b;
      }
    }
  }

  /** A duplicate-free sequence has as many elements as its set. */
  lemma {:induction false} DistinctCard<T>(s: seq<T>)
    requires Distinct(s)
    ensures |set x | x in s| == |s|
  {
    if |s| > 0 {
      var t := s[1..];
      assert Distinct(t) by {
        forall i, j | 0 <= i < j < |t| ensures t[i] != t[j] {
          assert t[i] == s[i + 1] && t[j] == s[j + 1];
        }
      }
      DistinctCard(t);
      assert s[0] !in t by {
        forall k | 0 <= k < |t| ensures t[k] != s[0] {
          assert t[k] == s[k + 1];
        }
      }
      assert (set x | x in s) == (set x | x in t) + {s[0]} by {
        assert s == [s[0]] + t;
      }
    }
  }

  /** Two duplicate-free sequences with the same elements have the same length. */
  lemma SameElementsSameLength<T>(a: seq<T>, b: seq<T>)
    requires Distinct(a) && Distinct(b)
    requires forall x :: x in a <==> x in b
    ensures |a| == |b|
  {
    DistinctCard(a);
    DistinctCard(b);
    assert (set x | x in a) == (set x | x in b);
  }

  /** Two strictly increasing integer sequences with the same elements are equal. */
  lemma {:induction false} IncreasingUnique(p: seq<int>, q: seq<int>)
    requires forall i, j :: 0 <= i < j < |p| ==> p[i] < p[j]
    requires forall i, j :: 0 <= i < j < |q| ==> q[i] < q[j]
    requires forall x :: x in p <==> x in q
    ensures p == q
  {
    if |p| > 0 {
      assert p[0] in p;
      assert p[0] in q;
    }
    if |q| > 0 {
      assert q[0] in q;
      assert q[0] in p;
    }
    if |p| > 0 {
      var ip :| 0 <= ip < |q| && q[ip] == p[0];
      var iq :| 0 <= iq < |p| && p[iq] == q[0];
      assert p[0] == q[0];
      forall x | x in p[1..] ensures x in q[1..] {
        assert x in p;
        var m :| 0 <= m < |q| && q[m] == x;
      }
      forall x | x in q[1..] ensures x in p[1..] {
        assert x in q;
        var m :| 0 <= m < |p| && p[m] == x;
      }
      IncreasingUnique(p[1..], q[1..]);
      assert p == [p[0]] + p[1..] && q == [q[0]] + q[1..];
    }
  }

  /** A prefix of a suffix is a slice. */
  lemma DropTake<T>(s: seq<T>, a: nat, m: nat)
    requires a + m <= |s|
    ensures s[a..][..m] == s[a..a + m]
  {
  }

  /** A non-empty sequence is its head in front of its tail. */
  lemma ConsTail<T>(s: seq<T>)
    requires |s| > 0
    ensures [s[0]] + s[1..] == s
  {
    var r := [s[0]] + s[1..];
    forall i | 0 <= i < |s| ensures r[i] == s[i] {
      if i > 0 {
        assert r[i] == s[1..][i - 1];
      }
    }
  }

  /** A sequence is its prefix followed by the rest. */
  lemma TakeDrop<T>(s: seq<T>, k: nat)
    requires k <= |s|
    ensures s[..k] + s[k..] == s
  {
    var r := s[..k] + s[k..];
    forall i | 0 <= i < |s| ensures r[i] == s[i] {
      if i >= k {
        assert r[i] == s[k..][i - k];
      }
    }
  }

  /** A slice of the second part of a concatenation, seen from the whole. */
  lemma AppendSlice<T>(a: seq<T>, b: seq<T>, x: nat, y: nat)
    requires x <= y <= |b|
    ensures (a + b)[|a| + x..|a| + y] == b[x..y]
  {
    var l := (a + b)[|a| + x..|a| + y];
    forall i | 0 <= i < y - x ensures l[i] == b[x..y][i] {
      assert l[i] == (a + b)[|a| + x + i] == b[x + i];
    }
  }

  /** A slice of the first part of a concatenation, seen from the whole. */
  lemma PrefixSlice<T>(a: seq<T>, b: seq<T>, x: nat, y: nat)
    requires x <= y <= |a|
    ensures (a + b)[x..y] == a[x..y]
  {
    var l := (a + b)[x..y];
    forall i | 0 <= i < y - x ensures l[i] == a[x..y][i] {
      assert l[i] == (a + b)[x + i] == a[x + i];
    }
  }

  /** Dropping a prefix of the first part of a concatenation. */
  lemma AppendDrop<T>(a: seq<T>, b: seq<T>, k: nat)
    requires k <= |a|
    ensures (a + b)[k..] == a[k..] + b
  {
    var l, r := (a + b)[k..], a[k..] + b;
    forall i | 0 <= i < |l| ensures l[i] == r[i] {
      if i < |a| - k {
        assert l[i] == a[k + i] == r[i];
      } else {
        assert l[i] == b[i - (|a| - k)] == r[i];
      }
    }
  }

  /** Taking a prefix of the first part of a concatenation. */
  lemma AppendTake<T>(a: seq<T>, b: seq<T>, k: nat)
    requires k <= |a|
    ensures (a + b)[..k] == a[..k]
  {
    var l := (a + b)[..k];
    forall i | 0 <= i < k ensures l[i] == a[..k][i] {
      assert l[i] == a[i];
    }
  }
}
