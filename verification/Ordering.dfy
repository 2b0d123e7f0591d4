/** The order of the keys of an ordered map or set of strings. */
module Orderings {
  import opened Spellings

  /** `a` comes before `b` in lexicographic order. */
  predicate Before(a: string, b: string) {
    b != "" && (a == "" || a[0] < b[0] || (a[0] == b[0] && Before(a[1..], b[1..])))
  }

  lemma {:induction false} BeforeTotal(a: string, b: string)
    ensures a == b || Before(a, b) || Before(b, a)
    ensures !(Before(a, b) && Before(b, a)) && !Before(a, a)
  {
    if a != "" && b != "" {
      BeforeTotal(a[1..], b[1..]);
      assert a == [a[0]] + a[1..] && b == [b[0]] + b[1..];
    }
    if a != "" { BeforeIrreflexive(a); }
  }

  /** One string comes before another just when it is a beginning of it, or has the smaller character where they first
      differ. */
  lemma {:induction false} BeforeExactly(a: string, b: string)
    ensures Before(a, b)
       <==> exists n: nat :: n <= |a| && n < |b| && a[..n] == b[..n] && (n == |a| || a[n] < b[n])
  {
    if a != "" && b != "" && a[0] == b[0] {
      BeforeExactly(a[1..], b[1..]);
      forall n: nat | n < |a| && n + 1 < |b|
        ensures a[..n + 1] == b[..n + 1] <==> a[1..][..n] == b[1..][..n]
      {
        assert a[..n + 1] == [a[0]] + a[1..][..n] && b[..n + 1] == [b[0]] + b[1..][..n];
      }
      if n: nat :| n <= |a| && n < |b| && a[..n] == b[..n] && (n == |a| || a[n] < b[n]) {
        assert n > 0 && a[1..][..n - 1] == b[1..][..n - 1];
      }
      var c, d := a[1..], b[1..];
      if n: nat :| n <= |c| && n < |d| && c[..n] == d[..n] && (n == |c| || c[n] < d[n]) {
        assert a[..n + 1] == b[..n + 1];
      }
    } else if Before(a, b) {
      assert a[..0] == b[..0];
    }
  }

  lemma {:induction false} BeforeIrreflexive(a: string)
    ensures !Before(a, a)
  {
    if a != "" { BeforeIrreflexive(a[1..]); }
  }

  lemma {:induction false} BeforeTransitive(a: string, b: string, c: string)
    requires Before(a, b) && Before(b, c)
    ensures Before(a, c)
  {
    if a != "" && a[0] == b[0] == c[0] {
      BeforeTransitive(a[1..], b[1..], c[1..]);
    }
  }

  ghost predicate Ascending(ks: seq<string>) {
    forall i, j :: 0 <= i < j < |ks| ==> Before(ks[i], ks[j])
  }

  lemma AscendingDistinct(ks: seq<string>, i: nat, j: nat)
    requires Ascending(ks) && i < |ks| && j < |ks| && ks[i] == ks[j]
    ensures i == j
  {
    BeforeIrreflexive(ks[i]);
  }

  function InsertKey(k: string, ks: seq<string>): seq<string> {
    if ks == [] || Before(k, ks[0]) then [k] + ks else [ks[0]] + InsertKey(k, ks[1..])
  }

  lemma {:induction false} InsertKeyElements(k: string, ks: seq<string>)
    ensures forall x :: x in InsertKey(k, ks) <==> x == k || x in ks
    ensures |InsertKey(k, ks)| == |ks| + 1
  {
    if ks != [] && !Before(k, ks[0]) {
      InsertKeyElements(k, ks[1..]);
      assert ks == [ks[0]] + ks[1..];
    }
  }

  lemma {:induction false} InsertKeyAscends(k: string, ks: seq<string>)
    requires Ascending(ks) && k !in ks
    ensures Ascending(InsertKey(k, ks))
  {
    if ks != [] {
      if Before(k, ks[0]) {
        forall j | 0 <= j < |ks| ensures Before(k, ks[j]) {
          if j > 0 { BeforeTransitive(k, ks[0], ks[j]); }
        }
      } else {
        InsertKeyAscends(k, ks[1..]);
        InsertKeyElements(k, ks[1..]);
        BeforeTotal(k, ks[0]);
        forall x | x in InsertKey(k, ks[1..])
          ensures Before(ks[0], x)
        {
        }
      }
    }
  }

  lemma {:induction false} AscendingUnique(ks: seq<string>, ls: seq<string>)
    requires Ascending(ks) && Ascending(ls) && forall x :: x in ks <==> x in ls
    ensures ks == ls
    decreases |ks|
  {
    assert ls != [] ==> ls[0] in ls;
    if ks != [] {
      assert ks[0] in ls && ls != [] && ls[0] in ks;
      var i :| 0 <= i < |ls| && ls[i] == ks[0];
      var j :| 0 <= j < |ks| && ks[j] == ls[0];
      if i > 0 { BeforeTotal(ls[0], ls[i]); }
      assert ks[0] == ls[0];
      forall x
        ensures x in ks[1..] <==> x in ls[1..]
      {
        BeforeIrreflexive(x);
        if x in ks[1..] { assert x in ks && x != ks[0]; }
        if x in ls[1..] { assert x in ls && x != ls[0]; }
      }
      AscendingUnique(ks[1..], ls[1..]);
    }
  }

  lemma {:induction false} AscendingExists(s: set<string>) returns (ks: seq<string>)
    ensures Ascending(ks) && (forall x :: x in ks <==> x in s) && |ks| == |s|
    decreases s
  {
    if s == {} {
      return [];
    }
    var k :| k in s;
    var rest := AscendingExists(s - {k});
    InsertKeyAscends(k, rest);
    InsertKeyElements(k, rest);
    ks := InsertKey(k, rest);
  }

  /** The keys in ascending order. */
  ghost function SortedKeys(s: set<string>): (ks: seq<string>)
    ensures Ascending(ks) && (forall x :: x in ks <==> x in s) && |ks| == |s|
  {
    assert exists ks :: Ascending(ks) && (forall x :: x in ks <==> x in s) && |ks| == |s| by {
      var ks := AscendingExists(s);
    }
    var ks :| Ascending(ks) && (forall x :: x in ks <==> x in s) && |ks| == |s|;
    ks
  }

  /** Visits the keys in ascending order. */
  method InOrder(s: set<string>) returns (ks: seq<string>)
    ensures ks == SortedKeys(s)
  {
    ks := [];
    var todo := s;
    while todo != {}
      invariant todo <= s && Ascending(ks) && forall x :: x in ks <==> x in s && x !in todo
      decreases todo
    {
      var k := Pick(todo);
      InsertKeyAscends(k, ks);
      InsertKeyElements(k, ks);
      ks := InsertKey(k, ks);
      todo := todo - {k};
    }
    AscendingUnique(ks, SortedKeys(s));
  }
}
