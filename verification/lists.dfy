// Small facts about lists that several modules share.
module Lists {

  /** The list without its n-th element. */
  function RemoveAt<T>(s: seq<T>, n: nat): (r: seq<T>)
    ensures |r| == if n < |s| then |s| - 1 else |s|
    ensures n < |s| ==> forall k {:trigger r[k]} | 0 <= k < |r| :: r[k] == if k < n then s[k] else s[k + 1]
  {
    if n < |s| then s[..n] + s[n + 1..] else s
  }

  lemma Assoc<T>(a: seq<T>, b: seq<T>, c: seq<T>)
    ensures a + (b + c) == a + b + c
  {
  }

  lemma Rejoin<T>(s: seq<T>, k: nat)
    requires k <= |s|
    ensures s[..k] + s[k..] == s
  {
  }

  lemma DropFirst<T>(a: seq<T>, b: seq<T>)
    requires a != []
    ensures (a + b)[0] == a[0] && (a + b)[1..] == a[1..] + b
  {
  }

  ghost predicate Distinct<T>(s: seq<T>) {
    forall i, j | 0 <= i < j < |s| :: s[i] != s[j]
  }

  lemma {:induction false} DistinctFits<T>(s: seq<T>, m: set<T>)
    requires Distinct(s) && forall i | 0 <= i < |s| :: s[i] in m
    ensures |s| <= |m|
    decreases |s|
  {
    if s != [] {
      var n := |s| - 1;
      forall i | 0 <= i < n ensures s[..n][i] in m - {s[n]} {
      }
      DistinctFits(s[..n], m - {s[n]});
    }
  }

  /** Different elements of a set that are as many as the set are all of it. */
  lemma DistinctCovers<T>(s: seq<T>, m: set<T>, x: T)
    requires Distinct(s) && (forall i | 0 <= i < |s| :: s[i] in m) && |s| == |m| && x in m
    ensures x in s
  {
    if x !in s {
      DistinctFits(s, m - {x});
      assert false;
    }
  }

  /** Moving the border of two parts by one element. */
  lemma AppendNext<T>(a: seq<T>, s: seq<T>, k: nat)
    requires k < |s|
    ensures a + s[..k] + [s[k]] == a + s[..k + 1]
  {
  }
}
