// Mode changes: the set they denote, the text flushmode() prints and the walk of
// ModeChange() that reads such text back (Sources/modes.c).
module ModeLine {
  import opened CaseFold
  import opened Words
  import opened Lists

  const MAX_MODE_PER_LINE := 6

  /** A queued change; `asServer` says whether it is sent in the server's name. */
  datatype Change = Change(sign: char, letter: char, arg: string, asServer: int) {
    function Key(): (char, string) { (letter, arg) }

    function ToEvent(): Event { Event(sign, letter, arg) }
  }

  /** What the reader of a mode line sees. */
  datatype Event = Event(sign: char, letter: char, arg: string)

  function Events(q: seq<Change>): (r: seq<Event>)
    ensures |r| == |q|
  {
    seq(|q|, i requires 0 <= i < |q| => q[i].ToEvent())
  }

  const ADD_WITH_ARG: string := "blkov"
  const ADD_PLAIN: string := "imntpsrDdRCcuM"
  const REM_WITH_ARG: string := "bkov"
  const REM_PLAIN: string := "ilkmntpsrDdRCcuM"

  predicate TakesArg(sign: char, letter: char) {
    if sign == '+' then letter in ADD_WITH_ARG else letter in REM_WITH_ARG
  }

  predicate Known(sign: char, letter: char) {
    TakesArg(sign, letter) || (if sign == '+' then letter in ADD_PLAIN else letter in REM_PLAIN)
  }

  predicate IsSign(c: char) {
    c == '+' || c == '-'
  }

  /** The modes of section 4.2.3.1 of RFC 1459 that take an argument: bans, keys, operators and voices
      always, the user limit only when it is set. */
  lemma ArgumentLetters(c: char)
    ensures TakesArg('+', c) <==> c == 'b' || c == 'k' || c == 'o' || c == 'v' || c == 'l'
    ensures TakesArg('-', c) <==> c == 'b' || c == 'k' || c == 'o' || c == 'v'
  {
  }

  /** What can be set can be taken back, and nothing else. */
  lemma SameLetters(c: char)
    ensures Known('+', c) <==> Known('-', c)
    ensures Known('+', c) <==> c in "blkovimntpsrDdRCcuM"
  {
  }

  lemma LettersAreNotSpecial(sign: char, c: char)
    requires Known(sign, c)
    ensures c != ' ' && !IsSign(c) && c !in "-0123456789"
  {
  }

  /** A change has an argument exactly when its letter takes one. */
  predicate WellFormed(c: Change) {
    && IsSign(c.sign) && Known(c.sign, c.letter)
    && (if TakesArg(c.sign, c.letter) then Word(c.arg) else c.arg == [])
  }

  predicate AllWellFormed(q: seq<Change>) {
    q != [] ==> WellFormed(q[0]) && AllWellFormed(q[1..])
  }

  lemma {:induction false} WellFormedAt(q: seq<Change>, i: nat)
    requires AllWellFormed(q) && i < |q|
    ensures WellFormed(q[i])
    decreases |q|
  {
    if i > 0 {
      WellFormedAt(q[1..], i - 1);
    }
  }

  lemma {:induction false} EachWellFormed(q: seq<Change>)
    requires forall c | c in q :: WellFormed(c)
    ensures AllWellFormed(q)
    decreases |q|
  {
    if q != [] {
      EachWellFormed(q[1..]);
    }
  }

  lemma {:induction false} WellFormedAppend(q: seq<Change>, c: Change)
    ensures AllWellFormed(q + [c]) <==> AllWellFormed(q) && WellFormed(c)
    decreases |q|
  {
    if q != [] {
      assert (q + [c])[1..] == q[1..] + [c];
      WellFormedAppend(q[1..], c);
    }
  }

  // --- what a list of changes does --------------------------------------------------------

  type Modes = set<(char, string)>

  function Apply(c: Change, s: Modes): Modes {
    if c.sign == '+' then s + {c.Key()} else s - {c.Key()}
  }

  function ApplyAll(q: seq<Change>, s: Modes): Modes {
    if q == [] then s else Apply(q[|q| - 1], ApplyAll(q[..|q| - 1], s))
  }

  ghost predicate SameEffect(a: seq<Change>, b: seq<Change>) {
    forall s :: ApplyAll(a, s) == ApplyAll(b, s)
  }

  lemma SameEffectChain(a: seq<Change>, b: seq<Change>, c: seq<Change>)
    requires SameEffect(b, c)
    ensures SameEffect(a, b) <==> SameEffect(a, c)
  {
    if SameEffect(a, b) {
      forall s ensures ApplyAll(a, s) == ApplyAll(c, s) {
        assert ApplyAll(b, s) == ApplyAll(c, s);
      }
    }
    if SameEffect(a, c) {
      forall s ensures ApplyAll(a, s) == ApplyAll(b, s) {
        assert ApplyAll(b, s) == ApplyAll(c, s);
      }
    }
  }

  /** What a reader's copy of the modes becomes. */
  function ApplyEvents(es: seq<Event>, s: Modes): Modes {
    if es == [] then s
    else
      var before, e := ApplyEvents(es[..|es| - 1], s), es[|es| - 1];
      if e.sign == '+' then before + {(e.letter, e.arg)} else before - {(e.letter, e.arg)}
  }

  /** Event `i` is the last one about this mode. */
  predicate LastAbout(es: seq<Event>, i: nat, letter: char, arg: string) {
    && i < |es| && es[i].letter == letter && es[i].arg == arg
    && forall j | i < j < |es| :: es[j].letter != letter || es[j].arg != arg
  }

  /** A mode is set in the end exactly if the last event about it sets it, or it was set and there is none. */
  lemma {:induction false} LastDecides(es: seq<Event>, s: Modes, letter: char, arg: string)
    ensures (letter, arg) in ApplyEvents(es, s) <==>
      (exists i: nat :: LastAbout(es, i, letter, arg) && es[i].sign == '+')
      || ((letter, arg) in s && forall i | 0 <= i < |es| :: es[i].letter != letter || es[i].arg != arg)
    decreases |es|
  {
    if es != [] {
      var n := |es| - 1;
      LastDecides(es[..n], s, letter, arg);
      if es[n].letter == letter && es[n].arg == arg {
        assert LastAbout(es, n, letter, arg);
        assert forall i: nat | LastAbout(es, i, letter, arg) :: i == n;
      } else {
        assert forall i: nat :: LastAbout(es, i, letter, arg) <==> LastAbout(es[..n], i, letter, arg);
        assert forall i | 0 <= i < n :: es[..n][i] == es[i];
      }
    }
  }

  lemma {:induction false} EventsApply(q: seq<Change>, s: Modes)
    ensures ApplyEvents(Events(q), s) == ApplyAll(q, s)
    decreases |q|
  {
    if q != [] {
      var n := |q| - 1;
      EventsApply(q[..n], s);
      assert Events(q)[..n] == Events(q[..n]) && Events(q)[n] == q[n].ToEvent();
    }
  }

  predicate UniqueKeys(q: seq<Change>) {
    forall i, j | 0 <= i < j < |q| :: q[i].Key() != q[j].Key()
  }

  /** With one entry per key, the result does not depend on the order. */
  lemma {:induction false} ApplyUnique(q: seq<Change>, s: Modes, key: (char, string))
    requires UniqueKeys(q)
    ensures key in ApplyAll(q, s) <==>
            (exists c :: c in q && c.Key() == key && c.sign == '+')
            || (key in s && forall c | c in q :: c.Key() != key)
    decreases |q|
  {
    if q != [] {
      var front, last := q[..|q| - 1], q[|q| - 1];
      assert q == front + [last];
      ApplyUnique(front, s, key);
      if last.Key() == key {
        forall c | c in front ensures c.Key() != key {
        }
      }
    }
  }

  lemma SameEntriesSameEffect(q: seq<Change>, r: seq<Change>, s: Modes)
    requires UniqueKeys(q) && UniqueKeys(r)
    requires forall c :: c in q <==> c in r
    ensures ApplyAll(q, s) == ApplyAll(r, s)
  {
    forall key ensures key in ApplyAll(q, s) <==> key in ApplyAll(r, s) {
      ApplyUnique(q, s, key);
      ApplyUnique(r, s, key);
    }
  }

  // --- coalescing: what changemode() does to the queue --------------------------------------

  predicate Contradicts(c: Change, d: Change) {
    c.Key() == d.Key() && ((c.sign == '+' && d.sign == '-') || (c.sign == '-' && d.sign == '+'))
  }

  predicate Repeats(c: Change, d: Change) {
    c.Key() == d.Key() && c.sign == d.sign
  }

  function WithoutContrary(q: seq<Change>, c: Change): (r: seq<Change>)
    ensures |r| <= |q|
  {
    if q == [] then []
    else
      var last := q[|q| - 1];
      WithoutContrary(q[..|q| - 1], c) + if Contradicts(c, last) then [] else [last]
  }

  ghost predicate Queued(q: seq<Change>, c: Change) {
    exists d :: d in q && Repeats(c, d)
  }

  ghost function Coalesce(q: seq<Change>, c: Change): seq<Change> {
    if Queued(q, c) then q else WithoutContrary(q, c) + [c]
  }

  lemma {:induction false} WithoutContraryKeeps(q: seq<Change>, c: Change)
    requires UniqueKeys(q)
    ensures UniqueKeys(WithoutContrary(q, c))
    ensures forall d :: d in WithoutContrary(q, c) <==> d in q && !Contradicts(c, d)
    decreases |q|
  {
    if q != [] {
      var front, last := q[..|q| - 1], q[|q| - 1];
      assert q == front + [last];
      WithoutContraryKeeps(front, c);
      var r := WithoutContrary(front, c);
      forall d | d in r ensures d.Key() != last.Key() {
        assert d in front;
      }
    }
  }

  lemma {:induction false} NothingContrary(q: seq<Change>, c: Change)
    requires forall i | 0 <= i < |q| :: !Contradicts(c, q[i])
    ensures WithoutContrary(q, c) == q
    decreases |q|
  {
    if q != [] {
      NothingContrary(q[..|q| - 1], c);
    }
  }

  lemma CoalesceKeepsUnique(q: seq<Change>, c: Change)
    requires UniqueKeys(q) && IsSign(c.sign)
    requires forall d | d in q :: IsSign(d.sign)
    ensures UniqueKeys(Coalesce(q, c))
    ensures forall d | d in Coalesce(q, c) :: d in q || d == c
  {
    var r := WithoutContrary(q, c);
    WithoutContraryKeeps(q, c);
    if !Queued(q, c) {
      forall d | d in r ensures d.Key() != c.Key() {
        assert !Repeats(c, d);
      }
    }
  }

  lemma RepeatAddsNothing(q: seq<Change>, c: Change, s: Modes)
    requires UniqueKeys(q) && Queued(q, c) && IsSign(c.sign)
    ensures ApplyAll(q, s) == Apply(c, ApplyAll(q, s))
  {
    var d :| d in q && Repeats(c, d);
    ApplyUnique(q, s, c.Key());
    assert forall e | e in q && e.Key() == c.Key() :: e == d;
  }

  lemma ContraryIsOverridden(q: seq<Change>, c: Change, s: Modes, key: (char, string))
    requires UniqueKeys(q) && key != c.Key()
    ensures key in ApplyAll(WithoutContrary(q, c), s) <==> key in ApplyAll(q, s)
  {
    WithoutContraryKeeps(q, c);
    ApplyUnique(q, s, key);
    ApplyUnique(WithoutContrary(q, c), s, key);
  }

  /** One call adds exactly its own effect. */
  lemma CoalesceIsApply(q: seq<Change>, c: Change, s: Modes)
    requires UniqueKeys(q) && IsSign(c.sign)
    ensures ApplyAll(Coalesce(q, c), s) == Apply(c, ApplyAll(q, s))
  {
    if Queued(q, c) {
      RepeatAddsNothing(q, c, s);
    } else {
      var r := WithoutContrary(q, c);
      assert (r + [c])[..|r|] == r;
      forall key | key != c.Key() ensures key in ApplyAll(r, s) <==> key in ApplyAll(q, s) {
        ContraryIsOverridden(q, c, s, key);
      }
      assert Apply(c, ApplyAll(r, s)) == Apply(c, ApplyAll(q, s));
    }
  }

  ghost function CoalesceAll(calls: seq<Change>): seq<Change> {
    if calls == [] then [] else Coalesce(CoalesceAll(calls[..|calls| - 1]), calls[|calls| - 1])
  }

  /** From an empty queue, any sequence of calls is queued as one entry per (letter, arg),
      and the queue means what all the calls in order mean. */
  lemma {:induction false} CoalescingPreservesMeaning(calls: seq<Change>, s: Modes)
    requires forall c | c in calls :: IsSign(c.sign)
    ensures var q := CoalesceAll(calls);
            UniqueKeys(q) && (forall d | d in q :: d in calls)
            && ApplyAll(q, s) == ApplyAll(calls, s)
    decreases |calls|
  {
    if calls != [] {
      var front, last := calls[..|calls| - 1], calls[|calls| - 1];
      assert calls == front + [last];
      CoalescingPreservesMeaning(front, s);
      CoalesceKeepsUnique(CoalesceAll(front), last);
      CoalesceIsApply(CoalesceAll(front), last, s);
    }
  }

  // --- the two passes of flushmode() ---------------------------------------------------------

  function OfClass(q: seq<Change>, asServer: int): seq<Change> {
    if q == [] then []
    else
      OfClass(q[..|q| - 1], asServer) + if q[|q| - 1].asServer == asServer then [q[|q| - 1]] else []
  }

  function Others(q: seq<Change>, asServer: int): (r: seq<Change>)
    ensures |r| <= |q|
  {
    if q == [] then []
    else
      Others(q[..|q| - 1], asServer) + if q[|q| - 1].asServer == asServer then [] else [q[|q| - 1]]
  }

  lemma {:induction false} ClassEntries(q: seq<Change>, asServer: int)
    ensures forall c :: c in OfClass(q, asServer) <==> c in q && c.asServer == asServer
    ensures forall c :: c in Others(q, asServer) <==> c in q && c.asServer != asServer
    ensures UniqueKeys(q) ==> UniqueKeys(OfClass(q, asServer)) && UniqueKeys(Others(q, asServer))
    decreases |q|
  {
    if q != [] {
      var front, last := q[..|q| - 1], q[|q| - 1];
      assert q == front + [last];
      ClassEntries(front, asServer);
      if UniqueKeys(q) {
        forall c | c in front ensures c.Key() != last.Key() {
        }
      }
    }
  }

  /** The order in which flushmode() sends: the server's changes first. */
  function ServerFirst(q: seq<Change>): seq<Change> {
    OfClass(q, 1) + OfClass(q, 0)
  }

  /** Sending the server's changes first does not change the outcome. */
  lemma ServerFirstSameEffect(q: seq<Change>, s: Modes)
    requires UniqueKeys(q)
    requires forall c | c in q :: c.asServer == 0 || c.asServer == 1
    ensures ApplyAll(ServerFirst(q), s) == ApplyAll(q, s)
  {
    ClassEntries(q, 0);
    ClassEntries(q, 1);
    var a: seq<Change>, b: seq<Change> := OfClass(q, 1), OfClass(q, 0);
    var ab := a + b;
    forall i, j | 0 <= i < j < |ab| ensures ab[i].Key() != ab[j].Key() {
      if i < |a| <= j {
        assert a[i] in q && b[j - |a|] in q;
      }
    }
    SameEntriesSameEffect(ab, q, s);
  }

  /** Leaving out the bot's own changes has the same effect if and only if there are none. */
  lemma OnlyServersIff(q: seq<Change>)
    requires UniqueKeys(q) && forall c | c in q :: IsSign(c.sign) && (c.asServer == 0 || c.asServer == 1)
    ensures SameEffect(OfClass(q, 1), q) <==> forall c | c in q :: c.asServer == 1
  {
    if c :| c in q && c.asServer == 0 {
      OwnChangeCounts(q, c);
    } else {
      ClassEntries(q, 1);
      forall s ensures ApplyAll(OfClass(q, 1), s) == ApplyAll(q, s) {
        SameEntriesSameEffect(OfClass(q, 1), q, s);
      }
    }
  }

  lemma OwnChangeCounts(q: seq<Change>, c: Change)
    requires UniqueKeys(q) && c in q && c.asServer == 0 && IsSign(c.sign)
    ensures !SameEffect(OfClass(q, 1), q)
  {
    ClassEntries(q, 1);
    var s: Modes := if c.sign == '+' then {} else {c.Key()};
    ApplyUnique(q, s, c.Key());
    ApplyUnique(OfClass(q, 1), s, c.Key());
    assert forall d | d in q && d.Key() == c.Key() :: d == c;
    assert ApplyAll(OfClass(q, 1), s) != ApplyAll(q, s);
  }

  // --- printing --------------------------------------------------------------------------------

  /** The sign is printed only when it differs from the last one printed. */
  function FlagText(p: seq<Change>, last: char): string {
    if p == [] then []
    else (if last != p[0].sign then [p[0].sign] else []) + [p[0].letter] + FlagText(p[1..], p[0].sign)
  }

  function LastSign(p: seq<Change>, last: char): char {
    if p == [] then last else p[|p| - 1].sign
  }

  function ArgList(p: seq<Change>): seq<string> {
    if p == [] then [] else (if p[0].arg != [] then [p[0].arg] else []) + ArgList(p[1..])
  }

  /** The C buffer `args`: a space before every argument. */
  function ArgText(p: seq<Change>): string {
    if p == [] then [] else (if p[0].arg != [] then " " + p[0].arg else []) + ArgText(p[1..])
  }

  /** The text that is still ahead of a reader when `p` has to be read and the arguments
      `pre` have been used; `last` is the last sign printed. */
  function Ahead(pre: seq<string>, p: seq<Change>, last: char, ts: string): string {
    FlagText(p, last) + " " + (Spaced(pre + ArgList(p)) + ts)
  }

  /** The mode part of a line: flags, arguments and the channel's timestamp. */
  function Body(p: seq<Change>, last: char, ts: string): string {
    Ahead([], p, last, ts)
  }

  lemma {:induction false} FlagTextAppend(p: seq<Change>, c: Change, last: char)
    ensures FlagText(p + [c], last) ==
            FlagText(p, last) + (if LastSign(p, last) != c.sign then [c.sign, c.letter] else [c.letter])
    decreases |p|
  {
    if p == [] {
      assert p + [c] == [c];
    } else {
      DropFirst(p, [c]);
      FlagTextAppend(p[1..], c, p[0].sign);
      Assoc((if last != p[0].sign then [p[0].sign] else []) + [p[0].letter], FlagText(p[1..], p[0].sign),
            if LastSign(p, last) != c.sign then [c.sign, c.letter] else [c.letter]);
    }
  }

  lemma {:induction false} ArgTextAppend(p: seq<Change>, c: Change)
    ensures ArgText(p + [c]) == ArgText(p) + (if c.arg != [] then " " + c.arg else [])
    decreases |p|
  {
    if p == [] {
      assert p + [c] == [c];
    } else {
      DropFirst(p, [c]);
      ArgTextAppend(p[1..], c);
      Assoc(if p[0].arg != [] then " " + p[0].arg else [], ArgText(p[1..]), if c.arg != [] then " " + c.arg else []);
    }
  }

  lemma {:induction false} ArgListAppend(p: seq<Change>, c: Change)
    ensures ArgList(p + [c]) == ArgList(p) + (if c.arg != [] then [c.arg] else [])
    decreases |p|
  {
    if p == [] {
      assert p + [c] == [c];
    } else {
      DropFirst(p, [c]);
      ArgListAppend(p[1..], c);
      Assoc(if p[0].arg != [] then [p[0].arg] else [], ArgList(p[1..]), if c.arg != [] then [c.arg] else []);
    }
  }

  lemma {:induction false} ArgTextIsSpaced(p: seq<Change>)
    ensures ArgText(p) + " " == " " + Spaced(ArgList(p))
    decreases |p|
  {
    if p != [] {
      ArgTextIsSpaced(p[1..]);
      if p[0].arg == [] {
        assert [] + ArgText(p[1..]) == ArgText(p[1..]);
        assert [] + ArgList(p[1..]) == ArgList(p[1..]);
      } else {
        var rest := ArgList(p[1..]);
        assert ([p[0].arg] + rest)[1..] == rest;
        assert ArgText(p) + " " == " " + p[0].arg + (ArgText(p[1..]) + " ");
      }
    }
  }

  /** What sprintf("%s%s %ld") prints. */
  lemma BodyIsPrinted(p: seq<Change>, last: char, ts: string)
    ensures Body(p, last, ts) == FlagText(p, last) + ArgText(p) + " " + ts
  {
    ArgTextIsSpaced(p);
    assert [] + ArgList(p) == ArgList(p);
    assert FlagText(p, last) + ArgText(p) + " " + ts == FlagText(p, last) + (ArgText(p) + " ") + ts;
  }

  lemma {:induction false} ArgListIsWords(p: seq<Change>)
    requires AllWellFormed(p)
    ensures AllWords(ArgList(p))
    decreases |p|
  {
    if p != [] {
      assert WellFormed(p[0]);
      ArgListIsWords(p[1..]);
    }
  }

  predicate IsTimestamp(ts: string) {
    ts != [] && forall i | 0 <= i < |ts| :: ts[i] in "-0123456789"
  }

  /** printf("%ld") */
  function Decimal(n: int): (s: string)
    ensures IsTimestamp(s)
    decreases n < 0, if n < 0 then -n else n
  {
    if n < 0 then "-" + Decimal(-n)
    else if n < 10 then ["0123456789"[n]]
    else Decimal(n / 10) + ["0123456789"[n % 10]]
  }

  /** atol() on what is left of a number once `seen` has been read. */
  function ReadDigits(seen: nat, s: string): nat
    decreases |s|
  {
    if s == [] || !('0' <= s[0] <= '9') then seen else ReadDigits(10 * seen + (s[0] as int - '0' as int), s[1..])
  }

  function ReadNumber(s: string): int {
    if s != [] && s[0] == '-' then 0 - ReadDigits(0, s[1..]) else ReadDigits(0, s)
  }

  /** The last digit counts once, the digits before it ten times. */
  lemma {:induction false} ReadSnoc(seen: nat, s: string, d: nat)
    requires d <= 9 && forall i | 0 <= i < |s| :: '0' <= s[i] <= '9'
    ensures ReadDigits(seen, s + ["0123456789"[d]]) == 10 * ReadDigits(seen, s) + d
    decreases |s|
  {
    var c := "0123456789"[d];
    assert c as int == '0' as int + d;
    if s == [] {
      assert s + [c] == [c] && [c][1..] == [];
    } else {
      assert (s + [c])[0] == s[0] && (s + [c])[1..] == s[1..] + [c];
      ReadSnoc(10 * seen + (s[0] as int - '0' as int), s[1..], d);
    }
  }

  lemma {:induction false} DecimalDigits(n: nat)
    ensures forall i | 0 <= i < |Decimal(n)| :: '0' <= Decimal(n)[i] <= '9'
    ensures ReadDigits(0, Decimal(n)) == n
  {
    if n < 10 {
      assert [] + ["0123456789"[n]] == Decimal(n);
      ReadSnoc(0, [], n);
    } else {
      DecimalDigits(n / 10);
      ReadSnoc(0, Decimal(n / 10), n % 10);
    }
  }

  /** What is printed reads as the number itself. */
  lemma DecimalReads(n: int)
    ensures ReadNumber(Decimal(n)) == n
  {
    if n < 0 {
      DecimalDigits(-n);
      assert ("-" + Decimal(-n))[1..] == Decimal(-n);
    } else {
      DecimalDigits(n);
      assert '0' <= Decimal(n)[0] <= '9';
    }
  }

  /** What stands behind the last space. */
  function LastWord(s: string): string {
    if ' ' !in s then s else LastWord(s[1..])
  }

  lemma {:induction false} LastWordIs(a: string, w: string)
    requires ' ' !in w
    ensures LastWord(a + " " + w) == w
    decreases |a|
  {
    var s := a + " " + w;
    assert s[|a|] == ' ';
    if a == [] {
      assert s[1..] == w;
    } else {
      assert s[1..] == a[1..] + " " + w;
      LastWordIs(a[1..], w);
    }
  }

  /** Every line ends in its channel's timestamp. */
  lemma BodyEnds(p: seq<Change>, last: char, n: int)
    ensures ReadNumber(LastWord(Body(p, last, Decimal(n)))) == n
  {
    BodyIsPrinted(p, last, Decimal(n));
    LastWordIs(FlagText(p, last) + ArgText(p), Decimal(n));
    DecimalReads(n);
  }

  // --- reading back ------------------------------------------------------------------------------

  /** The change that the first character announces, if it is one. */
  function Letter(change: string, sign: char, count: nat): seq<Event>
    requires change != []
  {
    var c := change[0];
    if IsSign(c) then []
    else if TakesArg(sign, c) then [Event(sign, c, GetWord(count, change))]
    else if Known(sign, c) then [Event(sign, c, "")]
    else []
  }

  function NextSign(c: char, sign: char): char {
    if IsSign(c) then c else sign
  }

  /** The number of the word that is the next argument. */
  function NextCount(c: char, sign: char, count: nat): nat {
    if !IsSign(c) && TakesArg(sign, c) then count + 1 else count
  }

  /** The walk of ModeChange(): the flags up to the space, with `count` the word that is the
      next argument; at the space it goes on after the words it has used. */
  function Walk(change: string, sign: char, count: nat): seq<Event>
    requires count >= 1
    decreases |change|
  {
    if change == [] || change[0] == ' ' then []
    else
      var count' := NextCount(change[0], sign, count);
      Letter(change, sign, count) +
      Walk(NextText(change[1..], count'), NextSign(change[0], sign), if AtSpace(change[1..]) then 1 else count')
  }

  /** A sign counts for all letters behind it, and a letter nobody knows does nothing: it uses no argument. */
  lemma SignsAndStrangers(c: char, rest: string, sign: char, count: nat)
    requires count >= 1 && rest != [] && rest[0] != ' ' && c != ' '
    ensures c == '+' || c == '-' ==> Walk([c] + rest, sign, count) == Walk(rest, c, count)
    ensures c !in "+-blkovimntpsrDdRCcuM" ==> Walk([c] + rest, sign, count) == Walk(rest, sign, count)
  {
    assert ([c] + rest)[1..] == rest;
    if c !in "+-blkovimntpsrDdRCcuM" {
      assert !Known('+', c) && !Known('-', c) && Letter([c] + rest, sign, count) == [];
    }
    assert [] + Walk(rest, sign, count) == Walk(rest, sign, count);
    assert [] + Walk(rest, c, count) == Walk(rest, c, count);
  }

  predicate AtSpace(s: string) {
    s != [] && s[0] == ' '
  }

  /** At the space the walk skips the words it has used. */
  function NextText(rest: string, count: nat): (r: string)
    ensures |r| <= |rest|
  {
    if AtSpace(rest) then ToWord(count, rest) else rest
  }

  /** The loop of ModeChange() for a channel: the changes it acts on, in order. */
  method ModeChange(line: string) returns (events: seq<Event>)
    ensures events == Walk(line, '+', 1)
  {
    var change, sign, count := line, '+', 1;
    events := [];
    while change != [] && change[0] != ' '
      invariant count >= 1
      invariant Walk(line, '+', 1) == events + Walk(change, sign, count)
      decreases |change|
    {
      var event, sign', count' := OneLetter(change, sign, count);
      var change' := change[1..];
      if AtSpace(change') {
        change' := ScanToWord(count', change');
        count' := 1;
      }
      Assoc(events, event, Walk(change', sign', count'));
      events := events + event;
      change, sign, count := change', sign', count';
    }
  }

  /** The body of that loop. */
  method OneLetter(change: string, sign: char, count: nat) returns (event: seq<Event>, sign': char, count': nat)
    requires change != []
    ensures event == Letter(change, sign, count)
    ensures sign' == NextSign(change[0], sign) && count' == NextCount(change[0], sign, count)
  {
    event, sign', count' := [], sign, count;
    var c := change[0];
    if c == '+' {
      sign' := '+';
    } else if c == '-' {
      sign' := '-';
    } else if sign == '+' {
      if c in ADD_WITH_ARG {
        var arg := CopyWord(count, change);
        event := [Event(sign, c, arg)];
        count' := count + 1;
      } else if c in ADD_PLAIN {
        event := [Event(sign, c, "")];
      }
    } else {
      if c in REM_WITH_ARG {
        var arg := CopyWord(count, change);
        event := [Event(sign, c, arg)];
        count' := count + 1;
      } else if c in REM_PLAIN {
        event := [Event(sign, c, "")];
      }
    }
  }

  lemma {:induction false} TimestampIsIgnored(ts: string, sign: char, count: nat)
    requires forall i | 0 <= i < |ts| :: ts[i] in "-0123456789"
    requires count >= 1
    ensures Walk(ts, sign, count) == []
    decreases |ts|
  {
    if ts != [] {
      var c := ts[0];
      if Known(sign, c) {
        LettersAreNotSpecial(sign, c);
      }
      TimestampIsIgnored(ts[1..], if c == '-' then c else sign, count);
    }
  }

  lemma {:induction false} FlagTextHasNoSpace(p: seq<Change>, last: char)
    requires AllWellFormed(p)
    ensures ' ' !in FlagText(p, last)
    ensures p != [] ==> FlagText(p, last) != []
    decreases |p|
  {
    if p != [] {
      assert WellFormed(p[0]);
      LettersAreNotSpecial(p[0].sign, p[0].letter);
      FlagTextHasNoSpace(p[1..], p[0].sign);
    }
  }

  lemma WalkSign(text: string, sign: char, count: nat)
    requires |text| >= 2 && IsSign(text[0]) && text[1] != ' ' && count >= 1
    ensures Walk(text, sign, count) == Walk(text[1..], text[0], count)
  {
    var c, rest := text[0], text[1..];
    assert Letter(text, sign, count) == [] && NextCount(c, sign, count) == count;
    assert [] + Walk(rest, c, count) == Walk(rest, c, count);
  }

  lemma WalkLetter(text: string, sign: char, count: nat)
    requires |text| >= 2 && text[0] != ' ' && text[1] != ' ' && !IsSign(text[0]) && count >= 1
    ensures Walk(text, sign, count) ==
            Letter(text, sign, count) + Walk(text[1..], sign, NextCount(text[0], sign, count))
  {
  }

  lemma WalkLastLetter(text: string, sign: char, count: nat)
    requires |text| >= 2 && text[0] != ' ' && text[1] == ' ' && !IsSign(text[0]) && count >= 1
    ensures Walk(text, sign, count) ==
            Letter(text, sign, count) + Walk(ToWord(NextCount(text[0], sign, count), text[1..]), sign, 1)
  {
  }

  lemma TailOf(x: char, a: string, rest: string)
    ensures ([x] + a + " " + rest)[0] == x
    ensures ([x] + a + " " + rest)[1..] == a + " " + rest
  {
  }

  /** The next word is the argument of the next letter that takes one. */
  lemma ArgReads(pre: seq<string>, p: seq<Change>, last: char, ts: string)
    requires p != [] && AllWellFormed(p) && AllWords(pre) && IsTimestamp(ts) && TakesArg(p[0].sign, p[0].letter)
    ensures GetWord(|pre| + 1, Ahead(pre, p, last, ts)) == p[0].arg
  {
    var args := pre + ArgList(p);
    assert args[|pre|] == p[0].arg;
    ArgListIsWords(p);
    assert AllWords(args);
    FlagTextHasNoSpace(p, last);
    WordAfterHead(FlagText(p, last), args, ts, |pre|);
  }

  /** The word a printed letter finds is the argument that was printed for it. */
  lemma LetterReads(pre: seq<string>, p: seq<Change>, ts: string)
    requires p != [] && AllWellFormed(p) && AllWords(pre) && IsTimestamp(ts)
    ensures var text := Ahead(pre, p, p[0].sign, ts);
            text != [] && text[0] == p[0].letter
            && Letter(text, p[0].sign, |pre| + 1) == [p[0].ToEvent()]
  {
    var c := p[0];
    assert WellFormed(c);
    LettersAreNotSpecial(c.sign, c.letter);
    assert FlagText(p, c.sign) == [c.letter] + FlagText(p[1..], c.sign);
    if TakesArg(c.sign, c.letter) {
      ArgReads(pre, p, c.sign, ts);
    }
  }

  /** After the last letter the walk is at the timestamp, which it ignores. */
  lemma EndReads(used: seq<string>, sign: char, ts: string)
    requires AllWords(used) && IsTimestamp(ts)
    ensures Walk(ToWord(|used| + 1, Ahead(used, [], sign, ts)), sign, 1) == []
  {
    RestAfterHead([], used, ts, |used|);
    assert used + ArgList([]) == used;
    assert Spaced(used[|used|..]) + ts == ts;
    TimestampIsIgnored(ts, sign, 1);
  }

  /** The arguments used once the first change of `p` has been read. */
  function Used(pre: seq<string>, p: seq<Change>): seq<string>
    requires p != []
  {
    if TakesArg(p[0].sign, p[0].letter) then pre + [p[0].arg] else pre
  }

  /** Reading a letter moves on to the text of the remaining changes. */
  lemma AheadTail(pre: seq<string>, p: seq<Change>, ts: string)
    requires p != [] && AllWellFormed(p) && AllWords(pre)
    ensures var text := Ahead(pre, p, p[0].sign, ts);
            text != [] && text[1..] == Ahead(Used(pre, p), p[1..], p[0].sign, ts)
    ensures AllWords(Used(pre, p))
  {
    var c := p[0];
    assert WellFormed(c);
    assert FlagText(p, c.sign) == [c.letter] + FlagText(p[1..], c.sign);
    TailOf(c.letter, FlagText(p[1..], c.sign), Spaced(pre + ArgList(p)) + ts);
    UsedArgs(pre, p);
  }

  lemma UsedArgs(pre: seq<string>, p: seq<Change>)
    requires p != [] && AllWellFormed(p) && AllWords(pre)
    ensures pre + ArgList(p) == Used(pre, p) + ArgList(p[1..]) && AllWords(Used(pre, p))
  {
    var c, rest := p[0], ArgList(p[1..]);
    if TakesArg(c.sign, c.letter) {
      assert ArgList(p) == [c.arg] + rest;
      assert pre + ([c.arg] + rest) == pre + [c.arg] + rest;
    } else {
      assert ArgList(p) == [] + rest == rest;
    }
  }

  /** A sign that differs from the current one is printed, and read, first. */
  lemma AheadSign(pre: seq<string>, p: seq<Change>, last: char, sign: char, ts: string, count: nat)
    requires p != [] && AllWellFormed(p) && AllWords(pre) && IsTimestamp(ts) && count >= 1
    requires last != p[0].sign
    ensures Walk(Ahead(pre, p, last, ts), sign, count) == Walk(Ahead(pre, p, p[0].sign, ts), p[0].sign, count)
  {
    var c := p[0];
    assert WellFormed(c);
    LettersAreNotSpecial(c.sign, c.letter);
    assert FlagText(p, last) == [c.sign] + FlagText(p, c.sign);
    TailOf(c.sign, FlagText(p, c.sign), Spaced(pre + ArgList(p)) + ts);
    assert FlagText(p, c.sign)[0] == c.letter;
    WalkSign(Ahead(pre, p, last, ts), sign, count);
  }

  lemma EventsStep(p: seq<Change>)
    requires p != []
    ensures Events(p) == [p[0].ToEvent()] + Events(p[1..])
  {
  }

  lemma LastText(pre: seq<string>, p: seq<Change>, ts: string)
    requires |p| == 1 && AllWellFormed(p) && AllWords(pre)
    ensures var text := Ahead(pre, p, p[0].sign, ts);
            |text| >= 2 && text[1] == ' ' && text[1..] == Ahead(Used(pre, p), [], p[0].sign, ts)
    ensures AllWords(Used(pre, p))
  {
    AheadTail(pre, p, ts);
    assert p[1..] == [];
    var text, rest := Ahead(pre, p, p[0].sign, ts), Ahead(Used(pre, p), [], p[0].sign, ts);
    assert text[1..] == rest && rest[0] == ' ';
    assert text[1] == text[1..][0];
  }

  /** The last letter of a line. */
  lemma WalkReadsLast(pre: seq<string>, p: seq<Change>, ts: string)
    requires |p| == 1 && AllWellFormed(p) && AllWords(pre) && IsTimestamp(ts)
    ensures Walk(Ahead(pre, p, p[0].sign, ts), p[0].sign, |pre| + 1) == Events(p)
  {
    var c, used := p[0], Used(pre, p);
    var text := Ahead(pre, p, c.sign, ts);
    LetterReads(pre, p, ts);
    LastText(pre, p, ts);
    assert WellFormed(c);
    LettersAreNotSpecial(c.sign, c.letter);
    WalkLastLetter(text, c.sign, |pre| + 1);
    assert NextCount(text[0], c.sign, |pre| + 1) == |used| + 1;
    EndReads(used, c.sign, ts);
    EventsStep(p);
  }

  /** A letter that is followed by another one. */
  lemma WalkReadsOne(pre: seq<string>, p: seq<Change>, ts: string)
    requires |p| > 1 && AllWellFormed(p) && AllWords(pre) && IsTimestamp(ts)
    ensures Walk(Ahead(pre, p, p[0].sign, ts), p[0].sign, |pre| + 1) ==
            [p[0].ToEvent()] + Walk(Ahead(Used(pre, p), p[1..], p[1].sign, ts), p[1].sign, |Used(pre, p)| + 1)
  {
    var c, after, used := p[0], p[1..], Used(pre, p);
    LetterReads(pre, p, ts);
    AheadTail(pre, p, ts);
    var text := Ahead(pre, p, c.sign, ts);
    FlagTextHasNoSpace(after, c.sign);
    assert text[1] == text[1..][0] == FlagText(after, c.sign)[0];
    assert WellFormed(c);
    LettersAreNotSpecial(c.sign, c.letter);
    WalkLetter(text, c.sign, |pre| + 1);
    assert Walk(text, c.sign, |pre| + 1) == [c.ToEvent()] + Walk(Ahead(used, after, c.sign, ts), c.sign, |used| + 1);
    if c.sign != after[0].sign {
      AheadSign(used, after, c.sign, c.sign, ts, |used| + 1);
    }
  }

  /** The walk gives back the changes that were printed: at any point, `pre` are the
      arguments already used and `p` the changes still to come. */
  lemma {:induction false} WalkReads(pre: seq<string>, p: seq<Change>, ts: string, count: nat)
    requires p != [] && AllWellFormed(p) && AllWords(pre) && IsTimestamp(ts) && count == |pre| + 1
    ensures Walk(Ahead(pre, p, p[0].sign, ts), p[0].sign, count) == Events(p)
    decreases |p|
  {
    if |p| == 1 {
      WalkReadsLast(pre, p, ts);
    } else {
      AheadTail(pre, p, ts);
      WalkReadsOne(pre, p, ts);
      WalkReads(Used(pre, p), p[1..], ts, |Used(pre, p)| + 1);
      EventsStep(p);
    }
  }

  /** Printing then parsing one line; a line may rely on the reader starting with '+'. */
  lemma LineRoundTrip(p: seq<Change>, last: char, ts: string)
    requires p != [] && AllWellFormed(p) && IsTimestamp(ts)
    requires last == '+' || last == NUL
    ensures Walk(Body(p, last, ts), '+', 1) == Events(p)
  {
    WalkReads([], p, ts, 1);
    if last != p[0].sign {
      AheadSign([], p, last, '+', ts, 1);
    }
  }
}
