// Can two masks match a common string? xmatch() and matchX() of Sources/match.c.
module Overlap {
  import opened CaseFold
  import Glob

  /** The language xmatch() is about: '*' is any run, '?' any one character, and every other
      character, the backslash included, stands for itself up to case. */
  ghost predicate Wild(pat: string, s: string)
    decreases |pat|
  {
    if pat == [] then s == []
    else if pat[0] == '*' then exists k: nat | k <= |s| :: Wild(pat[1..], s[k..])
    else s != [] && CharFits(pat[0], s[0]) && Wild(pat[1..], s[1..])
  }

  predicate CharFits(p: char, c: char) {
    p == '?' || Fold(p) == Fold(c)
  }

  /** Two masks have a string in common. */
  ghost predicate Meet(p: string, q: string) {
    exists s | NulFree(s) :: Wild(p, s) && Wild(q, s)
  }

  // --- the code -------------------------------------------------------------------------

  predicate CharsMeet(p: char, q: char) {
    p == '?' || q == '?' || Fold(p) == Fold(q)
  }

  /** The answer of xmatch(). */
  predicate XMatches(p: string, q: string)
    decreases |p| + |q|, 0
  {
    if p == "*" || q == "*" then true
    else if p == [] || q == [] then p == q
    else if p[0] == '*' && q[0] == '*' then XMatchesLater(p[1..], q[1..]) || XMatchesLater(q[1..], p[1..])
    else if p[0] == '*' then XMatchesLater(p[1..], q)
    else if q[0] == '*' then XMatchesLater(q[1..], p)
    else CharsMeet(p[0], q[0]) && XMatches(p[1..], q[1..])
  }

  /** The answer of matchX(): `p` against some suffix of `q`. */
  predicate XMatchesLater(p: string, q: string)
    decreases |p| + |q|, 1
  {
    XMatches(p, q) || (q != [] && XMatchesLater(p, q[1..]))
  }

  method IsStar(p: string) returns (b: bool)
    requires NulFree(p)
    ensures b <==> p == "*"
  {
    var d := MyCaseCmp(p, "*");
    FoldEqPointwise(p, "*");
    b := d == 0;
  }

  method XMatch(pat1: string, pat2: string) returns (r: bool)
    requires NulFree(pat1) && NulFree(pat2)
    ensures r <==> XMatches(pat1, pat2)
    decreases |pat1| + |pat2|, 0
  {
    var star1 := IsStar(pat1);
    var star2 := IsStar(pat2);
    if star1 || star2 {
      return true;
    }
    var p, q := pat1, pat2;
    while p != [] && q != []
      invariant |p| <= |pat1| && |q| <= |pat2| && NulFree(p) && NulFree(q)
      invariant XMatches(pat1, pat2) <==> XMatches(p, q)
      invariant !(p == [] && q == "*") && !(q == [] && p == "*")
      decreases |p|
    {
      EmptyMeetsSuffix(p[1..]);
      EmptyMeetsSuffix(q[1..]);
      if p[0] == '*' && q[0] == '*' {
        r := MatchX(p[1..], q[1..]);
        if !r {
          r := MatchX(q[1..], p[1..]);
        }
        return;
      }
      if p[0] == '*' {
        r := MatchX(p[1..], q);
        return;
      }
      if q[0] == '*' {
        r := MatchX(q[1..], p);
        return;
      }
      if p[0] == '?' || q[0] == '?' || Fold(p[0]) == Fold(q[0]) {
        p, q := p[1..], q[1..];
        star1 := IsStar(p);
        star2 := IsStar(q);
        if (p == [] && star2) || (q == [] && star1) {
          return true;
        }
      } else {
        return false;
      }
    }
    if p != [] || q != [] {
      return false;
    }
    return true;
  }

  method MatchX(pat1: string, pat2: string) returns (r: bool)
    requires NulFree(pat1) && NulFree(pat2)
    ensures r <==> XMatchesLater(pat1, pat2)
    decreases |pat1| + |pat2|, 1
  {
    var q := pat2;
    while true
      invariant |q| <= |pat2| && NulFree(q)
      invariant XMatchesLater(pat1, pat2) <==> XMatchesLater(pat1, q)
      decreases |q|
    {
      r := XMatch(pat1, q);
      if r || q == [] {
        return;
      }
      q := q[1..];
    }
  }

  lemma {:induction false} EmptyMeetsSuffix(q: string)
    ensures XMatchesLater([], q)
    decreases |q|
  {
    if q != [] {
      EmptyMeetsSuffix(q[1..]);
    }
  }

  lemma {:induction false} LaterIntro(p: string, q: string, j: nat)
    requires j <= |q| && XMatches(p, q[j..])
    ensures XMatchesLater(p, q)
    decreases j
  {
    if j == 0 {
      assert q[0..] == q;
    } else {
      assert q[1..][j - 1..] == q[j..];
      LaterIntro(p, q[1..], j - 1);
    }
  }

  lemma {:induction false} LaterElim(p: string, q: string) returns (j: nat)
    requires XMatchesLater(p, q)
    ensures j <= |q| && XMatches(p, q[j..])
    decreases |q|
  {
    if XMatches(p, q) {
      j := 0;
      assert q[0..] == q;
    } else {
      j := LaterElim(p, q[1..]);
      assert q[1..][j..] == q[j + 1..];
      j := j + 1;
    }
  }

  // --- what the code decides, for all masks ----------------------------------------------

  predicate AllStars(pat: string) {
    forall i | 0 <= i < |pat| :: pat[i] == '*'
  }

  /** The language the code really intersects: a closing run of two or more stars has to
      absorb at least one character. */
  ghost predicate Strict(pat: string, s: string)
    decreases |pat|
  {
    if pat == [] then s == []
    else if AllStars(pat) then |pat| == 1 || s != []
    else if pat[0] == '*' then exists k: nat | k <= |s| :: Strict(pat[1..], s[k..])
    else s != [] && CharFits(pat[0], s[0]) && Strict(pat[1..], s[1..])
  }

  /** A string of the strict language, as short as possible. */
  function Sample(pat: string): (s: string)
    requires NulFree(pat)
    ensures NulFree(s) && Strict(pat, s)
    ensures pat != [] && pat != "*" ==> s != []
    decreases |pat|
  {
    if pat == [] || pat == "*" then []
    else if AllStars(pat) then "x"
    else if pat[0] == '*' then
      var s := Sample(pat[1..]);
      assert s[0..] == s && Strict(pat[1..], s[0..]);
      s
    else
      var s := Sample(pat[1..]);
      assert ([FillChar(pat[0])] + s)[1..] == s;
      [FillChar(pat[0])] + s
  }

  function FillChar(p: char): char {
    if p == '?' then 'x' else p
  }

  /** The mask with its stars left empty. */
  function Fill(pat: string): (s: string)
    ensures NulFree(pat) ==> NulFree(s)
    decreases |pat|
  {
    if pat == [] then []
    else if pat[0] == '*' then Fill(pat[1..])
    else [FillChar(pat[0])] + Fill(pat[1..])
  }

  lemma MoreThanStars(pat: string, s: string)
    requires !AllStars(pat) && Strict(pat, s)
    ensures s != []
    decreases |pat|
  {
    if pat[0] == '*' {
      var k: nat :| k <= |s| && Strict(pat[1..], s[k..]);
      MoreThanStars(pat[1..], s[k..]);
    }
  }

  lemma OnlyEmptyFits(pat: string, s: string)
    requires Strict(pat, s)
    ensures s == [] ==> pat == [] || pat == "*"
  {
    if !AllStars(pat) {
      MoreThanStars(pat, s);
    }
  }

  lemma {:induction false} StrictPrefix(u: string, t: string, s: string)
    requires Strict(t, s) && s != []
    ensures Strict(u + t, Fill(u) + s)
    decreases |u|
  {
    if u == [] {
      assert u + t == t && Fill(u) + s == s;
    } else {
      StrictPrefix(u[1..], t, s);
      assert (u + t)[1..] == u[1..] + t;
      if u[0] == '*' {
        assert (Fill(u) + s)[0..] == Fill(u[1..]) + s;
      } else {
        assert (Fill(u) + s)[1..] == Fill(u[1..]) + s;
      }
    }
  }

  /** Soundness for a star on the left: it absorbs the part of the other mask before `j`. */
  lemma SoundStar(p: string, q: string, j: nat) returns (s: string)
    requires NulFree(p) && NulFree(q)
    requires p != [] && p[0] == '*' && q != [] && q != "*"
    requires j <= |q| && XMatches(p[1..], q[j..])
    ensures NulFree(s) && Strict(p, s) && Strict(q, s)
    decreases |p| + |q|, 0
  {
    if AllStars(p) {
      s := Sample(q);
    } else {
      var t := Sound(p[1..], q[j..]);
      MoreThanStars(p[1..], t);
      StrictPrefix(q[..j], q[j..], t);
      assert q[..j] + q[j..] == q;
      s := Fill(q[..j]) + t;
      assert s[|Fill(q[..j])|..] == t;
    }
  }

  lemma {:induction false} Sound(p: string, q: string) returns (s: string)
    requires NulFree(p) && NulFree(q)
    requires XMatches(p, q)
    ensures NulFree(s) && Strict(p, s) && Strict(q, s)
    decreases |p| + |q|, 1
  {
    if p == "*" {
      s := Sample(q);
    } else if q == "*" {
      s := Sample(p);
    } else if p == [] {
      s := [];
    } else if p[0] == '*' && q[0] == '*' {
      if XMatchesLater(p[1..], q[1..]) {
        var j := LaterElim(p[1..], q[1..]);
        assert q[1..][j..] == q[j + 1..];
        s := SoundStar(p, q, j + 1);
      } else {
        var j := LaterElim(q[1..], p[1..]);
        assert p[1..][j..] == p[j + 1..];
        s := SoundStar(q, p, j + 1);
      }
    } else if p[0] == '*' {
      var j := LaterElim(p[1..], q);
      s := SoundStar(p, q, j);
    } else if q[0] == '*' {
      var j := LaterElim(q[1..], p);
      s := SoundStar(q, p, j);
    } else {
      var t := Sound(p[1..], q[1..]);
      s := [if p[0] == '?' then FillChar(q[0]) else p[0]] + t;
      assert s[1..] == t;
    }
  }

  /** Cutting a matched string cuts the mask: some suffix of it matches the rest. */
  lemma {:induction false} StrictSuffix(pat: string, s: string, k: nat) returns (j: nat)
    requires Strict(pat, s) && k <= |s|
    ensures j <= |pat| && Strict(pat[j..], s[k..])
    decreases |pat|
  {
    if k == 0 {
      assert pat[0..] == pat && s[0..] == s;
      j := 0;
    } else if AllStars(pat) {
      j := |pat| - 1;
    } else if pat[0] == '*' {
      var i: nat :| i <= |s| && Strict(pat[1..], s[i..]);
      if k <= i {
        assert s[k..][i - k..] == s[i..] && pat[0..] == pat;
        j := 0;
      } else {
        assert s[i..][k - i..] == s[k..];
        j := StrictSuffix(pat[1..], s[i..], k - i);
        assert pat[1..][j..] == pat[j + 1..];
        j := j + 1;
      }
    } else {
      assert s[1..][k - 1..] == s[k..];
      j := StrictSuffix(pat[1..], s[1..], k - 1);
      assert pat[1..][j..] == pat[j + 1..];
      j := j + 1;
    }
  }

  /** Completeness for a star on the left that leaves the string at `k`. */
  lemma CompleteStar(p: string, q: string, s: string, k: nat)
    requires p != [] && p[0] == '*'
    requires k <= |s| && Strict(p[1..], s[k..]) && Strict(q, s)
    ensures XMatchesLater(p[1..], q)
    decreases |p| + |q|, 0
  {
    var j := StrictSuffix(q, s, k);
    Complete(p[1..], q[j..], s[k..]);
    LaterIntro(p[1..], q, j);
  }

  lemma {:induction false} Complete(p: string, q: string, s: string)
    requires Strict(p, s) && Strict(q, s)
    ensures XMatches(p, q)
    decreases |p| + |q|, 1
  {
    if p == "*" || q == "*" {
    } else if p == [] || q == [] {
      OnlyEmptyFits(p, s);
      OnlyEmptyFits(q, s);
    } else if p[0] == '*' && q[0] == '*' {
      CompleteTwoStars(p, q, s);
    } else if p[0] == '*' {
      if AllStars(p) {
        assert s[0..] == s;
        CompleteStar(p, q, s, 0);
      } else {
        var k: nat :| k <= |s| && Strict(p[1..], s[k..]);
        CompleteStar(p, q, s, k);
      }
    } else if q[0] == '*' {
      if AllStars(q) {
        assert s[0..] == s;
        CompleteStar(q, p, s, 0);
      } else {
        var k: nat :| k <= |s| && Strict(q[1..], s[k..]);
        CompleteStar(q, p, s, k);
      }
    } else {
      Complete(p[1..], q[1..], s[1..]);
    }
  }

  /** Two leading stars: the one that absorbs less lets go first. */
  lemma CompleteTwoStars(p: string, q: string, s: string)
    requires |p| >= 2 && |q| >= 2 && p[0] == '*' && q[0] == '*'
    requires Strict(p, s) && Strict(q, s)
    ensures XMatchesLater(p[1..], q[1..]) || XMatchesLater(q[1..], p[1..])
    decreases |p| + |q|, 0
  {
    if AllStars(p) {
      assert p[1..][|p| - 2..] == "*";
      LaterIntro(q[1..], p[1..], |p| - 2);
    } else if AllStars(q) {
      assert q[1..][|q| - 2..] == "*";
      LaterIntro(p[1..], q[1..], |q| - 2);
    } else {
      var k: nat :| k <= |s| && Strict(p[1..], s[k..]);
      var l: nat :| l <= |s| && Strict(q[1..], s[l..]);
      if k <= l {
        assert s[k..][l - k..] == s[l..];
        CompleteStar(q, p[1..], s[k..], l - k);
      } else {
        assert s[l..][k - l..] == s[k..];
        CompleteStar(p, q[1..], s[l..], k - l);
      }
    }
  }

  /** For all masks, xmatch() decides whether the strict languages meet. */
  lemma XMatchDecidesStrict(p: string, q: string)
    requires NulFree(p) && NulFree(q)
    ensures XMatches(p, q) <==> exists s | NulFree(s) :: Strict(p, s) && Strict(q, s)
  {
    if XMatches(p, q) {
      var s := Sound(p, q);
    }
    if s :| NulFree(s) && Strict(p, s) && Strict(q, s) {
      Complete(p, q, s);
    }
  }

  /** The order of the masks does not matter. */
  lemma {:induction false} XMatchSymmetric(p: string, q: string)
    requires NulFree(p) && NulFree(q)
    ensures XMatches(p, q) <==> XMatches(q, p)
  {
    XMatchDecidesStrict(p, q);
    XMatchDecidesStrict(q, p);
  }

  // --- when that is the promised answer ---------------------------------------------------

  /** The mask ends in two stars: the family on which xmatch() can miss an overlap. */
  predicate EndsInTwoStars(pat: string) {
    |pat| >= 2 && pat[|pat| - 2] == '*' && pat[|pat| - 1] == '*'
  }

  lemma {:induction false} StrictIsWild(pat: string, s: string)
    requires Strict(pat, s)
    ensures Wild(pat, s)
    decreases |pat|
  {
    if pat == [] {
    } else if AllStars(pat) {
      StarsAreWild(pat, s);
    } else if pat[0] == '*' {
      var k: nat :| k <= |s| && Strict(pat[1..], s[k..]);
      StrictIsWild(pat[1..], s[k..]);
    } else {
      StrictIsWild(pat[1..], s[1..]);
    }
  }

  lemma {:induction false} StarsAreWild(pat: string, s: string)
    requires pat != [] && AllStars(pat)
    ensures Wild(pat, s)
    decreases |pat|
  {
    if |pat| == 1 {
      assert s[|s|..] == [] && Wild(pat[1..], s[|s|..]);
    } else {
      StarsAreWild(pat[1..], s);
      assert s[0..] == s;
    }
  }

  lemma {:induction false} WildIsStrict(pat: string, s: string)
    requires Wild(pat, s) && !EndsInTwoStars(pat)
    ensures Strict(pat, s)
    decreases |pat|
  {
    if pat == [] {
    } else if AllStars(pat) {
      assert |pat| == 1;
    } else if pat[0] == '*' {
      var k: nat :| k <= |s| && Wild(pat[1..], s[k..]);
      WildIsStrict(pat[1..], s[k..]);
    } else {
      WildIsStrict(pat[1..], s[1..]);
    }
  }

  /** xmatch() never claims an overlap that is not there. */
  lemma XMatchSound(p: string, q: string)
    requires NulFree(p) && NulFree(q)
    ensures XMatches(p, q) ==> Meet(p, q)
  {
    if XMatches(p, q) {
      var s := Sound(p, q);
      StrictIsWild(p, s);
      StrictIsWild(q, s);
    }
  }

  /** The closing stars absorb any further text, and then they are not left empty. */
  lemma {:induction false} TwoStarsTakeMore(pat: string, s: string, t: string)
    requires Wild(pat, s) && EndsInTwoStars(pat) && t != []
    ensures Strict(pat, s + t)
    decreases |pat|
  {
    if !AllStars(pat) {
      if pat[0] == '*' {
        var k: nat :| k <= |s| && Wild(pat[1..], s[k..]);
        TwoStarsTakeMore(pat[1..], s[k..], t);
        assert (s + t)[k..] == s[k..] + t;
      } else {
        TwoStarsTakeMore(pat[1..], s[1..], t);
        assert (s + t)[1..] == s[1..] + t;
      }
    }
  }

  /** A mask with a star matches some longer text that begins with the same one: the star absorbs
      the old text to its end, and what followed the star follows once more. */
  lemma {:induction false} StarTakesMore(pat: string, s: string) returns (t: string)
    requires Wild(pat, s) && '*' in pat && NulFree(s)
    ensures NulFree(t) && t != [] && Wild(pat, s + t)
    decreases |pat|
  {
    if pat[0] == '*' {
      var k: nat :| k <= |s| && Wild(pat[1..], s[k..]);
      t := "x" + s[k..];
      assert (s + t)[|s| + 1..] == s[k..];
    } else {
      t := StarTakesMore(pat[1..], s[1..]);
      assert (s + t)[1..] == s[1..] + t;
    }
  }

  /** The pairs xmatch() is right about: a mask that ends in two stars needs a partner with a star. */
  predicate Trusted(p: string, q: string) {
    (EndsInTwoStars(p) ==> '*' in q) && (EndsInTwoStars(q) ==> '*' in p)
  }

  /** If one mask ends in two stars and the other has a star, a common string can be made longer
      until no star is left empty at the end. */
  lemma MeetStrictly(p: string, q: string, s: string) returns (r: string)
    requires Wild(p, s) && Wild(q, s) && NulFree(s) && EndsInTwoStars(p) && '*' in q
    ensures NulFree(r) && Strict(p, r) && Strict(q, r)
  {
    var t := "x";
    if EndsInTwoStars(q) {
      TwoStarsTakeMore(q, s, t);
    } else {
      t := StarTakesMore(q, s);
      WildIsStrict(q, s + t);
    }
    TwoStarsTakeMore(p, s, t);
    r := s + t;
  }

  lemma XMatchExact(p: string, q: string)
    requires NulFree(p) && NulFree(q) && Trusted(p, q)
    ensures XMatches(p, q) <==> Meet(p, q)
  {
    XMatchSound(p, q);
    if s :| NulFree(s) && Wild(p, s) && Wild(q, s) {
      if EndsInTwoStars(p) {
        var r := MeetStrictly(p, q, s);
        Complete(p, q, r);
      } else if EndsInTwoStars(q) {
        var r := MeetStrictly(q, p, s);
        Complete(p, q, r);
      } else {
        WildIsStrict(p, s);
        WildIsStrict(q, s);
        Complete(p, q, s);
      }
    }
  }

  lemma {:induction false} FillIsWild(pat: string)
    ensures Wild(pat, Fill(pat)) && Wild(Fill(pat), Fill(pat))
    ensures !EndsInTwoStars(Fill(pat))
    ensures forall i | 0 <= i < |Fill(pat)| :: Fill(pat)[i] !in "*?"
    decreases |pat|
  {
    if pat != [] {
      FillIsWild(pat[1..]);
      var s := Fill(pat);
      if pat[0] == '*' {
        assert s[0..] == s;
      } else {
        assert s[1..] == Fill(pat[1..]);
      }
    }
  }

  lemma {:induction false} FillLength(pat: string, s: string)
    requires Strict(pat, s)
    ensures |s| >= |Fill(pat)|
    ensures EndsInTwoStars(pat) ==> |s| > |Fill(pat)|
    ensures (forall i | 0 <= i < |pat| :: pat[i] != '*') ==> |s| == |Fill(pat)| == |pat|
    decreases |pat|
  {
    if pat == [] {
    } else if AllStars(pat) {
      FillOfStars(pat);
    } else if pat[0] == '*' {
      var k: nat :| k <= |s| && Strict(pat[1..], s[k..]);
      FillLength(pat[1..], s[k..]);
    } else {
      FillLength(pat[1..], s[1..]);
    }
  }

  lemma {:induction false} FillOfStars(pat: string)
    requires AllStars(pat)
    ensures Fill(pat) == []
    decreases |pat|
  {
    if pat != [] {
      FillOfStars(pat[1..]);
    }
  }

  /** Every mask that ends in two stars is missed by some partner: its own plain text. */
  lemma XMatchMisses(q: string)
    requires NulFree(q) && EndsInTwoStars(q)
    ensures Meet(Fill(q), q) && !XMatches(Fill(q), q)
  {
    var p := Fill(q);
    FillIsWild(q);
    assert NulFree(p) && Wild(p, p) && Wild(q, p);
    if XMatches(p, q) {
      var s := Sound(p, q);
      FillLength(q, s);
      FillLength(p, s);
    }
  }

  /** The smallest such pair, in both orders. */
  lemma OneLetterMissed()
    ensures Meet("a", "a**") && !XMatches("a", "a**") && !XMatches("a**", "a")
  {
    FillOfStars("**");
    assert "a**"[1..] == "**" && Fill("a**") == ['a'] + Fill("**") == "a";
    XMatchMisses("a**");
    XMatchSymmetric("a", "a**");
  }

  lemma {:induction false} PlainThenStars(u: string)
    requires forall i | 0 <= i < |u| :: u[i] !in "*?"
    ensures Wild(u + "**", u) && |Fill(u + "**")| == |u|
  {
    if u == [] {
      assert u + "**" == "**";
      StarsAreWild("**", []);
      FillOfStars("**");
    } else {
      assert (u + "**")[1..] == u[1..] + "**";
      PlainThenStars(u[1..]);
    }
  }

  /** A mask without a star is missed by its own plain text with two stars behind it. */
  lemma XMatchMissesPlain(q: string)
    requires NulFree(q) && '*' !in q
    ensures Meet(Fill(q) + "**", q) && !XMatches(Fill(q) + "**", q)
  {
    var p := Fill(q) + "**";
    FillIsWild(q);
    PlainThenStars(Fill(q));
    assert NulFree(Fill(q)) && Wild(p, Fill(q)) && Wild(q, Fill(q));
    if XMatches(p, q) {
      var s := Sound(p, q);
      FillLength(p, s);
      FillLength(q, s);
    }
  }

  /** The exact condition under which a mask can be trusted with every partner. */
  lemma XMatchTrustedIff(q: string)
    requires NulFree(q)
    ensures (forall p | NulFree(p) :: XMatches(p, q) <==> Meet(p, q)) <==> '*' in q && !EndsInTwoStars(q)
  {
    if EndsInTwoStars(q) {
      XMatchMisses(q);
      assert NulFree(Fill(q)) && !(XMatches(Fill(q), q) <==> Meet(Fill(q), q));
    } else if '*' !in q {
      XMatchMissesPlain(q);
      var p := Fill(q) + "**";
      assert NulFree(p) && !(XMatches(p, q) <==> Meet(p, q));
    } else {
      forall p | NulFree(p) ensures XMatches(p, q) <==> Meet(p, q) {
        XMatchExact(p, q);
      }
    }
  }

  // --- agreement with match() --------------------------------------------------------------

  lemma {:induction false} WildIsLang(pat: string, s: string)
    requires '\\' !in pat
    ensures Wild(pat, s) <==> Glob.Lang(pat, s)
    decreases |pat|
  {
    if pat == [] {
    } else if pat[0] == '*' {
      forall k: nat | k <= |s| ensures Wild(pat[1..], s[k..]) <==> Glob.Lang(pat[1..], s[k..]) {
        WildIsLang(pat[1..], s[k..]);
      }
    } else if s != [] {
      WildIsLang(pat[1..], s[1..]);
    }
  }

  /** If xmatch() denies an overlap, no string passes match() under both masks. */
  lemma NoOverlapNoCommonMatch(p: string, q: string, s: string)
    requires NulFree(p) && NulFree(q) && NulFree(s)
    requires '\\' !in p && '\\' !in q
    requires Trusted(p, q) && !XMatches(p, q)
    ensures !(Glob.Lang(p, s) && Glob.Lang(q, s))
  {
    XMatchExact(p, q);
    WildIsLang(p, s);
    WildIsLang(q, s);
  }
}
