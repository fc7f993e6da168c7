// Mask matching: match() of Sources/match.c.
module Glob {
  import opened CaseFold

  /** Room in the scratch buffers match() copies its arguments into. */
  const BUFFER_SIZE := 200

  /** A C string that fits match()'s buffers. */
  predicate FitsBuffer(s: string) {
    NulFree(s) && |s| < BUFFER_SIZE
  }

  const STACK_SIZE := 200
  const NULL := -1

  /** The language of a mask: '*' is any run of characters, an unquoted '?' is any one
      character, '\c' is the character c, every other character stands for itself up to
      case. A mask that ends in a lone backslash matches nothing at the backslash. */
  ghost predicate Lang(mask: string, text: string)
    decreases |mask|
  {
    if mask == [] then text == []
    else if mask[0] == '*' then
      exists k: nat | k <= |text| :: Lang(mask[1..], text[k..])
    else if mask[0] == '\\' then
      |mask| >= 2 && text != [] && Fold(mask[1]) == Fold(text[0]) && Lang(mask[2..], text[1..])
    else
      text != [] && (mask[0] == '?' || Fold(mask[0]) == Fold(text[0])) && Lang(mask[1..], text[1..])
  }

  /** What is left of the text is in the language of what is left of the mask. */
  ghost predicate LangAt(mask: string, text: string, m: int, s: int) {
    0 <= m <= |mask| && 0 <= s <= |text| && Lang(mask[m..], text[s..])
  }

  /** Some later part of the text is in the language of what is left of the mask. */
  ghost predicate Reaches(mask: string, text: string, m: int, s: int) {
    exists u | s <= u :: LangAt(mask, text, m, u)
  }

  /** Where the character that a mask position stands for is found: after a backslash. */
  function Unquoted(mask: string, m: nat): nat {
    if At(mask, m) == '\\' then m + 1 else m
  }

  /** One character of the text against one, possibly quoted, character of the mask. */
  predicate Accepts(mask: string, m: nat, c: char) {
    var u := Unquoted(mask, m);
    Fold(c) == Fold(At(mask, u)) || (At(mask, u) == '?' && u == m)
  }

  // --- properties of the language -------------------------------------------------------

  lemma StarAt(mask: string, text: string, m: nat, s: nat)
    requires m < |mask| && mask[m] == '*' && s <= |text|
    ensures LangAt(mask, text, m, s) <==> Reaches(mask, text, m + 1, s)
  {
    assert mask[m..][1..] == mask[m + 1..];
    if LangAt(mask, text, m, s) {
      var k: nat :| k <= |text[s..]| && Lang(mask[m..][1..], text[s..][k..]);
      assert text[s..][k..] == text[s + k..];
      assert LangAt(mask, text, m + 1, s + k);
    }
    if Reaches(mask, text, m + 1, s) {
      var u :| s <= u && LangAt(mask, text, m + 1, u);
      assert text[s..][u - s..] == text[u..];
      assert Lang(mask[m..][1..], text[s..][u - s..]);
    }
  }

  /** A star that matches from a later position matches from an earlier one. */
  lemma StarAbsorbs(mask: string, text: string, m: nat, s: nat, u: nat)
    requires m < |mask| && mask[m] == '*' && s <= u
    requires LangAt(mask, text, m, u)
    ensures LangAt(mask, text, m, s)
  {
    StarAt(mask, text, m, u);
    StarAt(mask, text, m, s);
  }

  lemma LiteralAt(mask: string, text: string, m: nat, s: nat)
    requires m <= |mask| && s <= |text| && At(mask, m) != '*'
    requires NulFree(text) && NulFree(mask)
    ensures LangAt(mask, text, m, s) <==>
            if s == |text| then m == |mask|
            else Accepts(mask, m, text[s]) && LangAt(mask, text, Unquoted(mask, m) + 1, s + 1)
  {
    if m < |mask| && s < |text| {
      assert text[s..][1..] == text[s + 1..];
      assert mask[m..][1..] == mask[m + 1..];
      if |mask| - m >= 2 {
        assert mask[m..][2..] == mask[m + 2..];
      }
    }
  }

  /** "'*' eats any following '*'": a run of stars means what its first star would mean. */
  lemma RunOfStars(mask: string, text: string, star: nat, rest: nat, s: nat)
    requires star < rest <= |mask| && s <= |text|
    requires forall i | star <= i < rest :: mask[i] == '*'
    ensures LangAt(mask, text, star, s) <==> Reaches(mask, text, rest, s)
    decreases rest - star
  {
    StarAt(mask, text, star, s);
    if star + 1 < rest {
      if Reaches(mask, text, star + 1, s) {
        var u :| s <= u && LangAt(mask, text, star + 1, u);
        RunOfStars(mask, text, star + 1, rest, u);
      }
      if Reaches(mask, text, rest, s) {
        var u :| s <= u && LangAt(mask, text, rest, u);
        RunOfStars(mask, text, star + 1, rest, u);
        assert LangAt(mask, text, star + 1, u);
      }
    }
  }

  /** A star at the end of the text can only match nothing. */
  lemma SkipStarAtEnd(mask: string, text: string, m: nat)
    requires m < |mask| && mask[m] == '*'
    ensures LangAt(mask, text, m, |text|) <==> LangAt(mask, text, m + 1, |text|)
  {
    StarAt(mask, text, m, |text|);
  }

  // --- the stack matcher ----------------------------------------------------------------

  /** The claim that carries the matcher from one newest star to the next. `rest` is the
      mask after the star, tried from `from`; `m` and `s` are where that attempt stands.
      A match from here is a match from the star, and any later attempt that would succeed
      passes through `m`, the same distance further on. */
  ghost predicate FollowsStar(mask: string, text: string, rest: nat, from: nat, m: nat, s: nat) {
    && (LangAt(mask, text, m, s) ==> LangAt(mask, text, rest, from))
    && (forall u | from <= u && LangAt(mask, text, rest, u) :: LangAt(mask, text, m, s + u - from))
  }

  /** The matcher is trying the star `star` at the text position `from`. */
  ghost predicate Trying(mask: string, text: string, star: nat, rest: nat, from: nat, m: nat, s: nat) {
    && star < rest <= m <= |mask| && from <= s <= |text|
    && (forall i | star <= i < rest :: mask[i] == '*')
    && (rest < |mask| ==> mask[rest] != '*')
    && FollowsStar(mask, text, rest, from, m, s)
  }

  /** One more literal character matched. */
  lemma TryingStep(mask: string, text: string, star: nat, rest: nat, from: nat, m: nat, s: nat)
    requires NulFree(text) && NulFree(mask)
    requires s < |text| && Trying(mask, text, star, rest, from, m, s)
    requires At(mask, m) != '*'
    requires Accepts(mask, m, text[s])
    ensures Trying(mask, text, star, rest, from, Unquoted(mask, m) + 1, s + 1)
  {
    var m' := Unquoted(mask, m) + 1;
    LiteralAt(mask, text, m, s);
    assert m' <= |mask|;
    forall u | from <= u && LangAt(mask, text, rest, u)
      ensures LangAt(mask, text, m', s + 1 + u - from)
    {
      LiteralAt(mask, text, m, s + u - from);
      assert m < |mask|;
    }
  }

  /** A new star may replace the old one as the only place to come back to: whatever the
      old star could reach by absorbing more text, the new one can reach by absorbing it. */
  lemma NewestStarSuffices(mask: string, text: string, star: nat, rest: nat, from: nat, m: nat, s: nat)
    requires Trying(mask, text, star, rest, from, m, s)
    requires m < |mask| && mask[m] == '*'
    ensures LangAt(mask, text, star, from) <==> LangAt(mask, text, m, s)
  {
    RunOfStars(mask, text, star, rest, from);
    if u :| from <= u <= |text| && LangAt(mask, text, rest, u) {
      StarAbsorbs(mask, text, m, s, s + u - from);
    }
  }

  /** Giving up an attempt: the star has to absorb one more character. */
  lemma RetryStar(mask: string, text: string, star: nat, rest: nat, from: nat, m: nat, s: nat)
    requires s < |text| && Trying(mask, text, star, rest, from, m, s)
    requires !LangAt(mask, text, m, s)
    ensures LangAt(mask, text, star, from) <==> LangAt(mask, text, star, from + 1)
  {
    RunOfStars(mask, text, star, rest, from);
    RunOfStars(mask, text, star, rest, from + 1);
  }

  /** Once the text is used up there is no point in going back to the star. */
  lemma TextUsedUp(mask: string, text: string, star: nat, rest: nat, from: nat, m: nat)
    requires Trying(mask, text, star, rest, from, m, |text|)
    ensures LangAt(mask, text, star, from) <==> LangAt(mask, text, m, |text|)
  {
    RunOfStars(mask, text, star, rest, from);
  }

  /** Where the matcher stands: the mask and text positions, the number of stars on the
      stack, and the newest star with the mask after it and the text position it is being
      tried at. After a mismatch that star is popped and about to be pushed again (`retry`). */
  datatype Search = Search(m: nat, s: nat, level: nat, star: nat, rest: nat, from: nat, retry: bool)
  {
    ghost predicate Inv(mask: string, text: string) {
      && m <= |mask| && s <= |text| && 2 * level <= m + 1
      && (level == 0 || retry ==> (Lang(mask, text) <==> LangAt(mask, text, m, s)))
      && (retry ==> m < |mask| && mask[m] == '*' && m == star && s == from && 2 * level <= m)
      && (level > 0 && !retry ==>
            && 2 * (level - 1) <= star
            && (Lang(mask, text) <==> LangAt(mask, text, star, from))
            && Trying(mask, text, star, rest, from, m, s))
    }

    function Push(m': nat): Search {
      Search(m', s, level + 1, m, m', s, false)
    }

    function Advance(mask: string): Search {
      this.(m := Unquoted(mask, m) + 1, s := s + 1, retry := false)
    }

    function Pop(): Search
      requires level > 0
    {
      Search(star, from + 1, level - 1, star, rest, from + 1, true)
    }

    function Progress(mask: string): nat {
      if level == 0 && !retry then |mask| + 1 else if star <= |mask| then |mask| - star else 0
    }
  }

  lemma PushStar(mask: string, text: string, at: Search, m': nat)
    requires at.Inv(mask, text)
    requires at.m < m' <= |mask| && (forall i | at.m <= i < m' :: mask[i] == '*')
    requires m' < |mask| ==> mask[m'] != '*'
    ensures at.Push(m').Inv(mask, text)
    ensures at.retry || at.Push(m').Progress(mask) < at.Progress(mask)
  {
    if at.level > 0 && !at.retry {
      NewestStarSuffices(mask, text, at.star, at.rest, at.from, at.m, at.s);
    }
  }

  lemma MatchLiteral(mask: string, text: string, at: Search)
    requires NulFree(text) && NulFree(mask) && at.s < |text|
    requires at.Inv(mask, text)
    requires At(mask, at.m) != '*' && Accepts(mask, at.m, text[at.s])
    ensures !at.retry && at.Advance(mask).Inv(mask, text)
  {
    var m' := Unquoted(mask, at.m) + 1;
    assert !at.retry;
    if at.level == 0 {
      LiteralAt(mask, text, at.m, at.s);
      assert m' <= |mask| || !LangAt(mask, text, m', at.s + 1);
    } else {
      TryingStep(mask, text, at.star, at.rest, at.from, at.m, at.s);
    }
  }

  lemma Mismatch(mask: string, text: string, at: Search)
    requires NulFree(text) && NulFree(mask) && at.s < |text|
    requires at.Inv(mask, text)
    requires At(mask, at.m) != '*' && !Accepts(mask, at.m, text[at.s])
    ensures !at.retry
    ensures at.level == 0 ==> !Lang(mask, text)
    ensures at.level > 0 ==> at.Pop().Inv(mask, text) && at.from < |text|
  {
    LiteralAt(mask, text, at.m, at.s);
    if at.level > 0 {
      RetryStar(mask, text, at.star, at.rest, at.from, at.m, at.s);
    }
  }

  lemma TextDone(mask: string, text: string, at: Search)
    requires at.Inv(mask, text) && at.s == |text|
    ensures Lang(mask, text) <==> LangAt(mask, text, at.m, |text|)
  {
    if at.level > 0 && !at.retry {
      TextUsedUp(mask, text, at.star, at.rest, at.from, at.m);
    }
  }

  /** The loop of match(): a backtrack stack of which only the top entry is ever used.
      Masks that fit the scratch buffer never reach the 200-entry cut-off. */
  method MatchMask(text: string, mask: string) returns (r: bool)
    requires NulFree(text) && NulFree(mask)
    requires |mask| < BUFFER_SIZE
    ensures r <==> Lang(mask, text)
  {
    var stack := new int[STACK_SIZE, 2]((i, j) => NULL);
    var level, m, s := 0, 0, 0;
    ghost var at := Search(0, 0, 0, 0, 0, 0, false);
    assert mask[0..] == mask && text[0..] == text;
    while s < |text|
      invariant at.Inv(mask, text) && at.m == m && at.s == s && at.level == level < STACK_SIZE
      invariant stack[0, 0] == NULL
      invariant level > 0 && !at.retry ==> stack[level, 0] == at.star && stack[level, 1] == at.from
      decreases at.Progress(mask), |text| - at.from, at.retry, |text| - s
    {
      if At(mask, m) == '*' {
        level := level + 1;
        if level == STACK_SIZE {
          return false;
        }
        stack[level, 0], stack[level, 1] := m, s;
        m := SkipStars(mask, m);
        PushStar(mask, text, at, m);
        at := at.Push(m);
      } else {
        if Accepts(mask, m, text[s]) {
          m := Unquoted(mask, m) + 1;
          MatchLiteral(mask, text, at);
          at := at.Advance(mask);
        } else {
          Mismatch(mask, text, at);
          level := TopEntry(stack, level);
          if level <= 0 {
            return false;
          }
          m, s := stack[level, 0], stack[level, 1];
          level := level - 1;
          at := at.Pop();
        }
        s := s + 1;
      }
    }
    TextDone(mask, text, at);
    r := OnlyStarsLeft(mask, m, text);
  }

  /** The tail of match(): skip everything that can match an empty string. */
  method OnlyStarsLeft(mask: string, start: nat, ghost text: string) returns (r: bool)
    requires start <= |mask| && NulFree(mask)
    ensures r <==> LangAt(mask, text, start, |text|)
  {
    var m := start;
    while At(mask, m) == '*'
      invariant 0 <= m <= |mask|
      invariant LangAt(mask, text, start, |text|) <==> LangAt(mask, text, m, |text|)
      decreases |mask| - m
    {
      SkipStarAtEnd(mask, text, m);
      m := m + 1;
    }
    r := At(mask, m) == NUL;
  }
  /** while (stack[level][0] == NULL && --level > 0); */
  method TopEntry(stack: array2<int>, level: int) returns (top: int)
    requires stack.Length0 == STACK_SIZE && stack.Length1 == 2
    requires 0 <= level < STACK_SIZE && stack[0, 0] == NULL
    ensures top <= level && (top > 0 ==> stack[top, 0] != NULL)
    ensures forall i | top < i <= level && 0 < i :: stack[i, 0] == NULL
    ensures stack[level, 0] != NULL ==> top == level
  {
    top := level;
    while stack[top, 0] == NULL
      invariant 0 <= top <= level
      invariant forall i | top < i <= level :: stack[i, 0] == NULL
      decreases top
    {
      top := top - 1;
      if top <= 0 {
        break;
      }
    }
  }

  /** while (*++mask == '*'); */
  method SkipStars(mask: string, m: nat) returns (r: nat)
    requires m < |mask| && mask[m] == '*'
    ensures m < r <= |mask| && (forall i | m <= i < r :: mask[i] == '*')
    ensures r < |mask| ==> mask[r] != '*'
  {
    r := m + 1;
    while At(mask, r) == '*'
      invariant m < r <= |mask|
      invariant forall i | m <= i < r :: mask[i] == '*'
      decreases |mask| - r
    {
      r := r + 1;
    }
  }

  // --- IPv6 block masks -----------------------------------------------------------------

  /** The block suffixes in the order match() looks for them. */
  const BLOCK_TAILS := [":/112", ":/96", ":/80", ":/64"]

  predicate OccursAt(s: string, pattern: string, i: nat) {
    i + |pattern| <= |s| && s[i..i + |pattern|] == pattern
  }

  /** strstr(): the offset of the first occurrence, or NULL. */
  function StrStr(s: string, pattern: string): (i: int)
    ensures i == NULL || (0 <= i <= |s| && OccursAt(s, pattern, i))
    ensures forall j: nat | OccursAt(s, pattern, j) :: 0 <= i <= j
  {
    if pattern <= s then 0
    else if s == [] then NULL
    else
      var i := StrStr(s[1..], pattern);
      assert forall j: nat | OccursAt(s, pattern, j) :: 0 < j && OccursAt(s[1..], pattern, j - 1) by {
        forall j: nat | OccursAt(s, pattern, j) ensures 0 < j && OccursAt(s[1..], pattern, j - 1) {
          OccursBehind(s, pattern, j);
        }
      }
      if i == NULL then NULL
      else
        OccursLater(s, pattern, i);
        i + 1
  }

  lemma OccursLater(s: string, pattern: string, i: nat)
    requires s != [] && OccursAt(s[1..], pattern, i)
    ensures OccursAt(s, pattern, i + 1)
  {
    assert s[1..][i..i + |pattern|] == s[i + 1..i + 1 + |pattern|];
  }

  lemma OccursBehind(s: string, pattern: string, j: nat)
    requires OccursAt(s, pattern, j)
    ensures if j == 0 then pattern <= s else OccursAt(s[1..], pattern, j - 1)
  {
    if j == 0 {
      assert s[..|pattern|] == pattern;
    } else {
      assert s[1..][j - 1..j - 1 + |pattern|] == s[j..j + |pattern|];
    }
  }

  /** Everything from the first block suffix on is replaced by one star. */
  function WithoutTail(s: string, tails: seq<string>): (r: string)
    requires forall i | 0 <= i < |tails| :: |tails[i]| > 0
    ensures |r| <= |s| && (NulFree(s) ==> NulFree(r))
    ensures (forall i | 0 <= i < |tails| :: StrStr(s, tails[i]) == NULL) ==> r == s
    decreases tails
  {
    if tails == [] then s
    else if StrStr(s, tails[0]) != NULL then s[..StrStr(s, tails[0])] + "*"
    else WithoutTail(s, tails[1..])
  }

  function Normalised(s: string): (r: string)
    ensures |r| <= |s| && (NulFree(s) ==> NulFree(r))
  {
    WithoutTail(s, BLOCK_TAILS)
  }

  ghost predicate Occurs(s: string, pattern: string) {
    exists i: nat :: OccursAt(s, pattern, i)
  }

  /** No block suffix before number `k` occurs in the string. */
  ghost predicate NoneBefore(s: string, k: nat)
    requires k <= |BLOCK_TAILS|
  {
    forall j | 0 <= j < k :: !Occurs(s, BLOCK_TAILS[j])
  }

  /** Suffix number `k` is the one the rewriting looks at, and it first occurs at `i`. */
  ghost predicate CutAt(s: string, k: nat, i: nat) {
    && k < |BLOCK_TAILS| && NoneBefore(s, k)
    && OccursAt(s, BLOCK_TAILS[k], i) && forall j: nat | j < i :: !OccursAt(s, BLOCK_TAILS[k], j)
  }

  /** What the rewriting means: the first of the four suffixes that occurs at all is replaced where
      it first occurs, with everything behind it, by one star; otherwise nothing changes. */
  ghost predicate Rewritten(s: string, r: string) {
    if NoneBefore(s, |BLOCK_TAILS|) then r == s
    else exists k: nat, i: nat | CutAt(s, k, i) :: r == s[..i] + "*"
  }

  lemma {:induction false} WithoutTailFrom(s: string, k: nat)
    requires k <= |BLOCK_TAILS| && NoneBefore(s, k)
    ensures Rewritten(s, WithoutTail(s, BLOCK_TAILS[k..]))
    decreases |BLOCK_TAILS| - k
  {
    if k < |BLOCK_TAILS| {
      var i := StrStr(s, BLOCK_TAILS[k]);
      assert BLOCK_TAILS[k..][0] == BLOCK_TAILS[k] && BLOCK_TAILS[k..][1..] == BLOCK_TAILS[k + 1..];
      if i == NULL {
        WithoutTailFrom(s, k + 1);
      } else {
        assert CutAt(s, k, i) && Occurs(s, BLOCK_TAILS[k]);
      }
    }
  }

  /** The rewriting function has this meaning, and no other string does. */
  lemma NormalisedMeans(s: string, r: string)
    ensures Rewritten(s, r) <==> r == Normalised(s)
  {
    assert BLOCK_TAILS[0..] == BLOCK_TAILS;
    WithoutTailFrom(s, 0);
    forall k: nat, i: nat, l: nat, j: nat | CutAt(s, k, i) && CutAt(s, l, j) ensures k == l && i == j {
    }
  }

  /** The rewriting that match() applies to its copies of both arguments. */
  method RewriteTail(s: string) returns (r: string)
    ensures Rewritten(s, r) && r == Normalised(s)
  {
    NormalisedMeans(s, Normalised(s));
    assert BLOCK_TAILS[1..] == [":/96", ":/80", ":/64"];
    assert BLOCK_TAILS[1..][1..] == [":/80", ":/64"];
    assert BLOCK_TAILS[1..][1..][1..] == [":/64"];
    r := s;
    if StrStr(s, ":/112") != NULL {
      r := s[..StrStr(s, ":/112")] + "*";
    } else if StrStr(s, ":/96") != NULL {
      r := s[..StrStr(s, ":/96")] + "*";
    } else if StrStr(s, ":/80") != NULL {
      r := s[..StrStr(s, ":/80")] + "*";
    } else if StrStr(s, ":/64") != NULL {
      r := s[..StrStr(s, ":/64")] + "*";
    }
  }

  /** The string is in the language of the mask, both read with their block suffixes as '*'. */
  ghost predicate Matches(instring: string, inmask: string) {
    Lang(Normalised(inmask), Normalised(instring))
  }

  /** match() */
  method Match(instring: string, inmask: string) returns (r: int)
    requires FitsBuffer(instring) && FitsBuffer(inmask)
    ensures r == if Matches(instring, inmask) then 1 else 0
  {
    var text := RewriteTail(instring);
    var mask := RewriteTail(inmask);
    var found := MatchMask(text, mask);
    return if found then 1 else 0;
  }

  // --- what the language means for the masks the service builds --------------------------

  /** No character of the mask has a special meaning. */
  predicate Plain(mask: string) {
    forall i | 0 <= i < |mask| :: mask[i] !in "*?\\"
  }

  lemma {:induction false} PlainPrefixThen(prefix: string, mask: string, text: string)
    requires Plain(prefix)
    ensures Lang(prefix + mask, text) <==>
            |prefix| <= |text| && FoldEq(prefix, text[..|prefix|]) && Lang(mask, text[|prefix|..])
    decreases |prefix|
  {
    if prefix == [] {
      assert prefix + mask == mask && text[|prefix|..] == text && text[..|prefix|] == prefix;
    } else {
      assert (prefix + mask)[1..] == prefix[1..] + mask;
      if text != [] {
        PlainPrefixThen(prefix[1..], mask, text[1..]);
        if |prefix| <= |text| {
          assert text[1..][|prefix| - 1..] == text[|prefix|..];
          assert text[1..][..|prefix| - 1] == text[..|prefix|][1..];
          FoldEqPointwise(prefix, text[..|prefix|]);
          FoldEqPointwise(prefix[1..], text[..|prefix|][1..]);
          if Fold(prefix[0]) == Fold(text[0]) && FoldEq(prefix[1..], text[..|prefix|][1..]) {
            forall i | 0 <= i < |prefix| ensures Fold(prefix[i]) == Fold(text[..|prefix|][i]) {
              if i > 0 {
                assert prefix[1..][i - 1] == prefix[i] && text[..|prefix|][1..][i - 1] == text[..|prefix|][i];
              }
            }
          }
        }
      }
    }
  }

  /** A mask without wildcards accepts exactly the other spellings of itself. */
  lemma PlainMask(mask: string, text: string)
    requires Plain(mask)
    ensures Lang(mask, text) <==> FoldEq(mask, text)
  {
    PlainPrefixThen(mask, [], text);
    assert mask + [] == mask;
    if |mask| <= |text| && Lang([], text[|mask|..]) {
      assert text[..|mask|] == text;
    }
    if FoldEq(mask, text) {
      assert text[..|mask|] == text;
    }
  }

  /** An unquoted '?' takes any one character. */
  lemma AnyOne(mask: string, text: string)
    ensures Lang("?" + mask, text) <==> text != [] && Lang(mask, text[1..])
  {
    assert ("?" + mask)[1..] == mask;
  }

  // --- quotation ----------------------------------------------------------------------------

  /** The mask that means the string itself: a backslash before every character. */
  function Quoted(s: string): (r: string)
    ensures |r| == 2 * |s|
  {
    if s == [] then [] else ['\\', s[0]] + Quoted(s[1..])
  }

  /** Behind a backslash every character stands for itself, '?', '*' and the backslash too. */
  lemma {:induction false} QuotedThen(s: string, mask: string, text: string)
    ensures Lang(Quoted(s) + mask, text) <==>
            |s| <= |text| && FoldEq(s, text[..|s|]) && Lang(mask, text[|s|..])
    decreases |s|
  {
    if s == [] {
      assert Quoted(s) + mask == mask && text[0..] == text && text[..0] == s;
    } else {
      assert (Quoted(s) + mask)[2..] == Quoted(s[1..]) + mask;
      if text != [] {
        QuotedThen(s[1..], mask, text[1..]);
        if |s| <= |text| {
          assert text[1..][|s| - 1..] == text[|s|..] && text[1..][..|s| - 1] == text[..|s|][1..];
          FoldEqCons(s, text[..|s|]);
        }
      }
    }
  }

  lemma FoldEqCons(a: string, b: string)
    requires a != [] && b != []
    ensures FoldEq(a, b) <==> Fold(a[0]) == Fold(b[0]) && FoldEq(a[1..], b[1..])
  {
    FoldEqPointwise(a, b);
    FoldEqPointwise(a[1..], b[1..]);
    if FoldEq(a[1..], b[1..]) && Fold(a[0]) == Fold(b[0]) {
      forall i | 0 <= i < |a| ensures |a| == |b| && Fold(a[i]) == Fold(b[i]) {
        if i > 0 {
          assert a[1..][i - 1] == a[i] && b[1..][i - 1] == b[i];
        }
      }
    }
    if FoldEq(a, b) {
      forall i | 0 <= i < |a| - 1 ensures Fold(a[1..][i]) == Fold(b[1..][i]) {
        assert Fold(a[i + 1]) == Fold(b[i + 1]);
      }
    }
  }

  lemma {:induction false} QuotedAt(s: string, k: nat)
    requires k < |s|
    ensures Quoted(s)[2 * k] == '\\' && Quoted(s)[2 * k + 1] == s[k]
    decreases k
  {
    if k > 0 {
      QuotedAt(s[1..], k - 1);
    }
  }

  /** A backslash is in between. */
  lemma NeverTogether(s: string, star: string, j: nat)
    requires (star == "" || star == "*") && j + 1 < |Quoted(s) + star|
    ensures (Quoted(s) + star)[j] != ':' || (Quoted(s) + star)[j + 1] != '/'
  {
    if j % 2 == 0 {
      QuotedAt(s, j / 2);
    } else if j + 1 < 2 * |s| {
      QuotedAt(s, (j + 1) / 2);
    }
  }

  lemma NoTailIn(s: string, star: string, k: nat, j: nat)
    requires (star == "" || star == "*") && k < |BLOCK_TAILS|
    ensures !OccursAt(Quoted(s) + star, BLOCK_TAILS[k], j)
  {
    var q, tail := Quoted(s) + star, BLOCK_TAILS[k];
    if j + |tail| <= |q| {
      assert tail[0] == ':' && tail[1] == '/';
      assert q[j..j + |tail|][0] == q[j] && q[j..j + |tail|][1] == q[j + 1];
      NeverTogether(s, star, j);
    }
  }

  /** No block suffix occurs in a quoted string, nor with a star behind it. */
  lemma QuotedStays(s: string, star: string)
    requires star == "" || star == "*"
    ensures Normalised(Quoted(s) + star) == Quoted(s) + star
  {
    forall k, j: nat | 0 <= k < |BLOCK_TAILS| ensures !OccursAt(Quoted(s) + star, BLOCK_TAILS[k], j) {
      NoTailIn(s, star, k, j);
    }
    NormalisedMeans(Quoted(s) + star, Quoted(s) + star);
  }

  lemma StarAlone(text: string)
    ensures Lang("*", text)
  {
    assert "*"[1..] == [] && text[|text|..] == [];
    assert Lang("*"[1..], text[|text|..]);
  }

  /** To match(), a quoted string accepts exactly its own spellings, whatever characters it has, */
  lemma QuotedMask(s: string, address: string)
    ensures Matches(address, Quoted(s)) <==> FoldEq(s, Normalised(address))
  {
    var a := Normalised(address);
    QuotedStays(s, "");
    assert Quoted(s) + "" == Quoted(s);
    QuotedThen(s, "", a);
    FoldEqPointwise(s, a);
    assert |a| == |s| ==> a[..|s|] == a;
  }

  /** and with a star behind it what begins with one of them. */
  lemma QuotedStart(s: string, address: string)
    ensures Matches(address, Quoted(s) + "*")
       <==> var a := Normalised(address); |s| <= |a| && FoldEq(s, a[..|s|])
  {
    var a := Normalised(address);
    QuotedStays(s, "*");
    QuotedThen(s, "*", a);
    if |s| <= |a| {
      StarAlone(a[|s|..]);
    }
  }

  /** A mask that ends in the middle of a quotation accepts nothing. */
  lemma {:induction false} LoneBackslash(mask: string, text: string)
    requires !Finished(mask)
    ensures !Lang(mask, text)
    decreases |mask|
  {
    if mask[0] == '\\' {
      if |mask| >= 2 && text != [] {
        LoneBackslash(mask[2..], text[1..]);
      }
    } else if mask[0] == '*' {
      forall k: nat | k <= |text| ensures !Lang(mask[1..], text[k..]) {
        LoneBackslash(mask[1..], text[k..]);
      }
    } else if text != [] {
      LoneBackslash(mask[1..], text[1..]);
    }
  }

  /** The mask does not end in the middle of a quotation. */
  predicate Finished(mask: string)
    decreases |mask|
  {
    mask == [] || if mask[0] == '\\' then |mask| >= 2 && Finished(mask[2..]) else Finished(mask[1..])
  }

  /** Some beginning of the text matches. */
  ghost predicate Begins(mask: string, text: string) {
    exists n: nat | n <= |text| :: Lang(mask, text[..n])
  }

  /** A star in front: the rest begins somewhere. */
  lemma BeginsStar(mask: string, text: string)
    requires mask != [] && mask[0] == '*'
    ensures Begins(mask, text) <==> exists k: nat | k <= |text| :: Begins(mask[1..], text[k..])
  {
    if k: nat :| k <= |text| && Begins(mask[1..], text[k..]) {
      var m: nat :| m <= |text[k..]| && Lang(mask[1..], text[k..][..m]);
      assert text[k..][..m] == text[..k + m][k..];
      assert Lang(mask, text[..k + m]);
    }
    if n: nat :| n <= |text| && Lang(mask, text[..n]) {
      var k: nat :| k <= |text[..n]| && Lang(mask[1..], text[..n][k..]);
      assert text[k..][..n - k] == text[..n][k..];
      assert Begins(mask[1..], text[k..]);
    }
  }

  lemma StarBehindStar(mask: string, text: string)
    requires mask != [] && mask[0] == '*'
    requires forall k: nat | k <= |text| :: Lang(mask[1..] + "*", text[k..]) <==> Begins(mask[1..], text[k..])
    ensures Lang(mask + "*", text) <==> exists k: nat | k <= |text| :: Begins(mask[1..], text[k..])
  {
    assert (mask + "*")[1..] == mask[1..] + "*";
  }

  lemma StarBehindOther(mask: string, text: string, w: nat)
    requires mask != [] && mask[0] != '*' && Finished(mask) && text != []
    requires w == (if mask[0] == '\\' then 2 else 1) && w <= |mask|
    requires Lang(mask[w..] + "*", text[1..]) <==> Begins(mask[w..], text[1..])
    ensures Lang(mask + "*", text) <==> Begins(mask, text)
  {
    assert (mask + "*")[w..] == mask[w..] + "*";
    if m: nat :| m <= |text[1..]| && Lang(mask[w..], text[1..][..m]) {
      assert text[..m + 1][1..] == text[1..][..m] && text[..m + 1][0] == text[0];
      assert Lang(mask + "*", text) ==> Lang(mask, text[..m + 1]);
    }
    if n: nat :| n <= |text| && Lang(mask, text[..n]) {
      assert n > 0 && text[..n][1..] == text[1..][..n - 1] && text[..n][0] == text[0];
    }
  }

  /** A star behind a mask accepts what begins with a string of the mask. */
  lemma {:induction false} StarBehind(mask: string, text: string)
    requires Finished(mask)
    ensures Lang(mask + "*", text) <==> Begins(mask, text)
    decreases |mask|
  {
    if mask == [] {
      assert mask + "*" == "*" && "*"[1..] == [] && text[|text|..] == [];
      assert Lang("*"[1..], text[|text|..]) && Lang(mask, text[..0]);
    } else if mask[0] == '*' {
      forall k: nat | k <= |text| ensures Lang(mask[1..] + "*", text[k..]) <==> Begins(mask[1..], text[k..]) {
        StarBehind(mask[1..], text[k..]);
      }
      StarBehindStar(mask, text);
      BeginsStar(mask, text);
    } else if text != [] {
      var w := if mask[0] == '\\' then 2 else 1;
      StarBehind(mask[w..], text[1..]);
      StarBehindOther(mask, text, w);
    } else {
      assert text[..0] == [];
    }
  }

  /** Where the rewriting cuts a mask that was built with a block suffix: the suffix does not reach
      into the prefix, and only a suffix that comes earlier in the list could win against it. */
  lemma CutBehind(prefix: string, k: nat, more: string)
    requires k < |BLOCK_TAILS| && !Occurs(prefix, BLOCK_TAILS[k])
    requires NoneBefore(prefix + BLOCK_TAILS[k] + more, k)
    ensures Normalised(prefix + BLOCK_TAILS[k] + more) == prefix + "*"
  {
    var tail := BLOCK_TAILS[k];
    var s := prefix + tail + more;
    assert s[|prefix|..|prefix| + |tail|] == tail;
    assert tail[0] == ':' && forall j | 1 <= j < |tail| :: tail[j] != ':';
    forall j: nat | j < |prefix| ensures !OccursAt(s, tail, j) {
      NoStraddle(prefix, tail, more, j);
    }
    assert CutAt(s, k, |prefix|) && s[..|prefix|] == prefix;
    assert Occurs(s, tail);
    NormalisedMeans(s, prefix + "*");
  }

  /** An occurrence that begins in the prefix lies within it: its other characters are no colons. */
  lemma NoStraddle(prefix: string, tail: string, more: string, j: nat)
    requires tail != [] && tail[0] == ':' && forall i | 1 <= i < |tail| :: tail[i] != ':'
    requires j < |prefix| && !Occurs(prefix, tail)
    ensures !OccursAt(prefix + tail + more, tail, j)
  {
    var s := prefix + tail + more;
    assert s[|prefix|] == ':';
    if j + |tail| <= |prefix| {
      assert prefix[j..j + |tail|] == s[j..j + |tail|] && !OccursAt(prefix, tail, j);
    } else if j + |tail| <= |s| {
      assert s[j..j + |tail|][|prefix| - j] == s[|prefix|];
    }
  }

  /** A prefix in which no block suffix occurs takes a block suffix: none is in front of it. */
  lemma NoneInFront(prefix: string, k: nat)
    requires k < |BLOCK_TAILS| && NoneBefore(prefix, |BLOCK_TAILS|)
    ensures NoneBefore(prefix + BLOCK_TAILS[k], k)
  {
    var s := prefix + BLOCK_TAILS[k];
    forall l | 0 <= l < k ensures !Occurs(s, BLOCK_TAILS[l]) {
      var tail := BLOCK_TAILS[l];
      assert s[|prefix|] == ':' && !Occurs(prefix, tail);
      forall j: nat ensures !OccursAt(s, tail, j) {
        if j + |tail| <= |prefix| {
          assert prefix[j..j + |tail|] == s[j..j + |tail|] && !OccursAt(prefix, tail, j);
        } else if j + |tail| <= |s| {
          assert j < |prefix| ==> s[j..j + |tail|][|prefix| - j] == s[|prefix|];
          assert s[j..j + |tail|][0] == s[j] && s[j..j + |tail|][2] == s[j + 2];
        }
      }
    }
  }

  /** What a block mask means to match(): an address passes exactly if it begins with a string of
      the mask in front of the suffix. */
  lemma BlockMask(mask: string, k: nat, address: string)
    requires k < |BLOCK_TAILS| && Finished(mask) && NoneBefore(mask, |BLOCK_TAILS|)
    ensures Matches(address, mask + BLOCK_TAILS[k])
       <==> exists n: nat | n <= |Normalised(address)| :: Lang(mask, Normalised(address)[..n])
  {
    NoneInFront(mask, k);
    assert mask + BLOCK_TAILS[k] + [] == mask + BLOCK_TAILS[k];
    CutBehind(mask, k, []);
    StarBehind(mask, Normalised(address));
  }

  /** For an address block without wildcards: the address begins with the block's prefix. */
  lemma PlainBlock(prefix: string, k: nat, address: string)
    requires k < |BLOCK_TAILS| && Plain(prefix) && NoneBefore(prefix, |BLOCK_TAILS|)
    ensures Matches(address, prefix + BLOCK_TAILS[k])
       <==> var a := Normalised(address); |prefix| <= |a| && FoldEq(prefix, a[..|prefix|])
  {
    var a := Normalised(address);
    PlainFinished(prefix);
    BlockMask(prefix, k, address);
    forall n: nat | n <= |a| ensures Lang(prefix, a[..n]) <==> n == |prefix| && FoldEq(prefix, a[..n]) {
      PlainMask(prefix, a[..n]);
      FoldEqPointwise(prefix, a[..n]);
    }
  }

  lemma {:induction false} PlainFinished(mask: string)
    requires Plain(mask)
    ensures Finished(mask)
  {
    if mask != [] {
      PlainFinished(mask[1..]);
    }
  }
}
