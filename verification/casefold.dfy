// Case-insensitive comparison (mycasecmp in Sources/match.c, the toupper macro of
// Sources/globalvar.h) and the hash functions that have to agree with it.
module CaseFold {

  /** The character that ends every C string. */
  const NUL: char := '\0'

  predicate NulFree(s: string) {
    forall i | 0 <= i < |s| :: s[i] != NUL
  }

  /** What C reads at offset `i` of `s`. */
  function At(s: string, i: nat): char {
    if i < |s| then s[i] else NUL
  }

  /** toupper(): 'a'..'~' follow section 2.2 of RFC 1459, 0xe0..0xff are Latin-1 letters except 0xf7. */
  function Fold(c: char): (u: char)
    ensures u in "*?\0" ==> u == c
  {
    if 'a' <= c <= '~' || (0xe0 <= c as int <= 0xff && c as int != 0xf7)
    then (c as int - 32) as char
    else c
  }

  /** The two spellings of one letter: those of RFC 1459, where braces are small brackets, and Latin-1. */
  predicate TwoCases(upper: char, lower: char) {
    && lower as int == upper as int + 0x20
    && ('A' <= upper <= '^' || (0xc0 <= upper as int <= 0xdf && upper as int != 0xd7))
  }

  /** Characters are folded together exactly if they are the same or two cases of one letter. */
  lemma FoldPairs(c: char, d: char)
    ensures Fold(c) == Fold(d) <==> c == d || TwoCases(c, d) || TwoCases(d, c)
  {
  }

  /** The spelling that all fold-equal strings share. */
  function Folded(s: string): (r: string)
    ensures |r| == |s|
  {
    seq(|s|, i requires 0 <= i < |s| => Fold(s[i]))
  }

  predicate FoldEq(a: string, b: string) {
    Folded(a) == Folded(b)
  }

  lemma FoldEqPointwise(a: string, b: string)
    ensures FoldEq(a, b) <==> |a| == |b| && forall i | 0 <= i < |a| :: Fold(a[i]) == Fold(b[i])
  {
    if FoldEq(a, b) {
      forall i | 0 <= i < |a| ensures Fold(a[i]) == Fold(b[i]) {
        assert Folded(a)[i] == Folded(b)[i];
      }
    }
  }

  /** mycasecmp(): zero exactly for fold-equal strings, otherwise the difference of the
      folded characters at the first position where the strings differ. */
  method MyCaseCmp(s1: string, s2: string) returns (d: int)
    requires NulFree(s1) && NulFree(s2)
    ensures d == 0 <==> FoldEq(s1, s2)
    ensures d != 0 ==> exists k: nat | k <= |s1| && k <= |s2| ::
      FoldEq(s1[..k], s2[..k]) && d == Fold(At(s1, k)) as int - Fold(At(s2, k)) as int
  {
    var i := 0;
    d := Fold(At(s1, i)) as int - Fold(At(s2, i)) as int;
    while d == 0 && At(s1, i) != NUL
      invariant 0 <= i <= |s1| && i <= |s2|
      invariant FoldEq(s1[..i], s2[..i])
      invariant d == Fold(At(s1, i)) as int - Fold(At(s2, i)) as int
      decreases |s1| - i
    {
      assert s1[..i + 1] == s1[..i] + [s1[i]] && s2[..i + 1] == s2[..i] + [s2[i]];
      FoldEqPointwise(s1[..i], s2[..i]);
      FoldEqPointwise(s1[..i + 1], s2[..i + 1]);
      i := i + 1;
      d := Fold(At(s1, i)) as int - Fold(At(s2, i)) as int;
    }
    FoldEqPointwise(s1, s2);
    if d == 0 {
      assert s1 == s1[..i] && s2 == s2[..i];
    }
  }

  /** The sum all hash functions of the service are built on. */
  function FoldSum(s: string): nat {
    if s == [] then 0 else FoldSum(s[..|s| - 1]) + Fold(s[|s| - 1]) as nat
  }

  /** The bucket of a channel name in the channel table. */
  function ClHash(channel: string): nat {
    FoldSum(channel) % 1000
  }

  /** The bucket of a channel name in the user list: the leading '#' is skipped. */
  function UlHash(channel: string): nat {
    FoldSum(if channel == [] then [] else channel[1..]) % 1000
  }

  /** cl_hash() as the source computes it. */
  method ComputeClHash(channel: string) returns (h: nat)
    ensures h == ClHash(channel)
  {
    var i, j := 0, 0;
    while i < |channel|
      invariant 0 <= i <= |channel|
      invariant j == FoldSum(channel[..i])
    {
      assert channel[..i + 1][..i] == channel[..i];
      j := j + Fold(channel[i]) as nat;
      i := i + 1;
    }
    assert channel[..i] == channel;
    h := j % 1000;
  }

  /** ul_hash() as the source computes it. */
  method ComputeUlHash(channel: string) returns (h: nat)
    ensures h == UlHash(channel)
  {
    ghost var tail := if channel == [] then [] else channel[1..];
    var i, j := 1, 0;
    while i < |channel|
      invariant 1 <= i && i - 1 <= |tail|
      invariant j == FoldSum(tail[..i - 1])
    {
      assert tail[..i][..i - 1] == tail[..i - 1];
      j := j + Fold(channel[i]) as nat;
      i := i + 1;
    }
    assert tail[..|tail|] == tail;
    h := j % 1000;
  }

  lemma {:induction false} FoldSumRespectsFold(a: string, b: string)
    requires FoldEq(a, b)
    ensures FoldSum(a) == FoldSum(b)
    decreases |a|
  {
    FoldEqPointwise(a, b);
    if a != [] {
      FoldEqPointwise(a[..|a| - 1], b[..|b| - 1]);
      assert Fold(a[|a| - 1]) == Fold(b[|b| - 1]);
      FoldSumRespectsFold(a[..|a| - 1], b[..|b| - 1]);
    }
  }

  /** Every spelling of a channel name is looked up in the same bucket. */
  lemma HashesRespectFold(a: string, b: string)
    requires FoldEq(a, b)
    ensures ClHash(a) == ClHash(b) && UlHash(a) == UlHash(b)
  {
    FoldSumRespectsFold(a, b);
    FoldEqPointwise(a, b);
    if a != [] {
      FoldEqPointwise(a[1..], b[1..]);
      FoldSumRespectsFold(a[1..], b[1..]);
    }
  }
}
