// Sliding windows: the flood protection of Sources/floodpro.c and the mass-deop protection of
// Sources/modes.c. The histories are trimmed in place; they equal a filter of the full log.
module Windows {

  /** Seconds a history looks back. */
  const SPAN := 15

  datatype Msg = Msg(time: int, length: int)

  datatype Deop = Deop(time: int, num: string)

  // ----- messages -----

  /** The messages of the log that are still in the window, newest first. */
  function Recent(log: seq<Msg>, now: int): seq<Msg> {
    if log == [] then []
    else (if log[0].time < now - SPAN then [] else [log[0]]) + Recent(log[1..], now)
  }

  /** A log, newest message first, kept under a clock that never runs backwards. */
  predicate Dated(log: seq<Msg>, clock: int) {
    log != [] ==> log[0].time <= clock && Dated(log[1..], log[0].time)
  }

  /** The first `n` messages of the log, and no others, are at most 15 seconds old. */
  predicate Within(log: seq<Msg>, n: nat, now: int) {
    && n <= |log| && (forall i | 0 <= i < n :: now - log[i].time <= 15)
    && forall i | n <= i < |log| :: now - log[i].time > 15
  }

  lemma WithinNext(m: Msg, log: seq<Msg>, n: nat, now: int)
    requires Within(log, n, now) && now - m.time <= 15
    ensures Within([m] + log, n + 1, now) && ([m] + log)[..n + 1] == [m] + log[..n]
  {
  }

  lemma {:induction false} RecentMeans(log: seq<Msg>, clock: int, now: int)
    requires Dated(log, clock)
    ensures var n := |Recent(log, now)|; Within(log, n, now) && Recent(log, now) == log[..n]
  {
    if log == [] {
    } else if now - log[0].time > 15 {
      OldestLast(log, log[0].time, now);
    } else {
      RecentMeans(log[1..], log[0].time, now);
      assert log == [log[0]] + log[1..];
      WithinNext(log[0], log[1..], |Recent(log[1..], now)|, now);
    }
  }

  lemma OneBorder(log: seq<Msg>, m: nat, n: nat, now: int)
    requires Within(log, m, now) && Within(log, n, now)
    ensures m == n
  {
    assert m < |log| ==> now - log[m].time > 15;
    assert n < |log| ==> now - log[n].time > 15;
  }

  /** What was recorded before a message that is too old is too old as well. */
  lemma {:induction false} OldestLast(log: seq<Msg>, clock: int, now: int)
    requires Dated(log, clock) && now - clock > 15
    ensures Recent(log, now) == [] && Within(log, 0, now)
  {
    if log != [] {
      OldestLast(log[1..], log[0].time, now);
      assert forall i | 1 <= i < |log| :: log[i] == log[1..][i - 1];
    }
  }

  lemma {:induction false} RecentAgain(log: seq<Msg>, before: int, now: int)
    requires before <= now
    ensures Recent(Recent(log, before), now) == Recent(log, now)
  {
    if log != [] {
      RecentAgain(log[1..], before, now);
      var r := Recent(log[1..], before);
      assert [] + r == r;
      if log[0].time >= before - SPAN {
        assert ([log[0]] + r)[1..] == r;
      }
    }
  }

  /** The trimming loop: position `i` is dropped or passed. */
  function TrimFrom(s: seq<Msg>, i: nat, now: int): seq<Msg>
    requires i <= |s|
  {
    s[..i] + Recent(s[i..], now)
  }

  class MsgHistory {
    var msghist: seq<Msg>
    /** Everything recorded so far, newest first, and when. */
    ghost var log: seq<Msg>
    ghost var clock: int

    ghost predicate Valid()
      reads this
    {
      Dated(log, clock) && msghist == Recent(log, clock)
    }

    constructor (now: int)
      ensures Valid() && log == [] && clock == now
    {
      msghist, log, clock := [], [], now;
    }

    /** The loop that frees messages older than the window. */
    method Trim(now: int)
      modifies this`msghist
      ensures msghist == Recent(old(msghist), now)
    {
      var i := 0;
      assert TrimFrom(msghist, 0, now) == Recent(msghist, now);
      while i < |msghist|
        invariant i <= |msghist| && TrimFrom(msghist, i, now) == Recent(old(msghist), now)
        decreases |msghist| - i
      {
        TrimStep(msghist, i, now);
        if msghist[i].time < now - SPAN {
          msghist := msghist[..i] + msghist[i + 1..];
        } else {
          i := i + 1;
        }
      }
    }

    /** CheckFlood() for a message that counts; `limit` is the channel's setting, 0 for none. */
    method CheckFlood(length: int, now: int, limit: nat) returns (triggered: bool)
      requires Valid() && clock <= now
      modifies this
      ensures Valid() && clock == now && log == [Msg(now, length)] + old(log)
      ensures triggered == (limit != 0 && Within(log, limit, now))
      ensures exists n: nat | n <= |log| :: msghist == log[..n] && Within(log, n, now)
    {
      RecentAgain(log, clock, now);
      Trim(now);
      msghist := [Msg(now, length)] + msghist;
      log := [Msg(now, length)] + log;
      clock := now;
      assert log[1..] == old(log);
      var count := 0;
      while count < |msghist|
        invariant count <= |msghist|
      {
        count := count + 1;
      }
      triggered := limit != 0 && count == limit;
      RecentMeans(log, clock, now);
      assert Within(log, |msghist|, now) && msghist == log[..|msghist|];
      if Within(log, limit, now) {
        OneBorder(log, limit, |msghist|, now);
      }
    }
  }

  lemma TrimStep(s: seq<Msg>, i: nat, now: int)
    requires i < |s|
    ensures s[i].time < now - SPAN ==> TrimFrom(s[..i] + s[i + 1..], i, now) == TrimFrom(s, i, now)
    ensures s[i].time >= now - SPAN ==> TrimFrom(s, i + 1, now) == TrimFrom(s, i, now)
  {
    assert s[i..][0] == s[i] && s[i..][1..] == s[i + 1..];
    assert (s[..i] + s[i + 1..])[..i] == s[..i] && (s[..i] + s[i + 1..])[i..] == s[i + 1..];
    assert [] + Recent(s[i + 1..], now) == Recent(s[i + 1..], now);
    assert s[..i] + ([s[i]] + Recent(s[i + 1..], now)) == s[..i + 1] + Recent(s[i + 1..], now);
  }

  lemma {:induction false} RecentShrinks(log: seq<Msg>, before: int, now: int)
    requires before <= now
    ensures |Recent(log, now)| <= |Recent(log, before)|
  {
    if log != [] {
      RecentShrinks(log[1..], before, now);
    }
  }

  /** Did the message that made the log `log[i..]` trigger the protection? */
  predicate Triggers(log: seq<Msg>, i: nat, limit: nat) {
    i < |log| && |Recent(log[i..], log[i].time)| == limit
  }

  /** The test for equality is enough: if there are as many messages in the window as the limit allows,
      or more, then the protection fired at this message or at an earlier one. */
  lemma {:induction false} FiresInTime(log: seq<Msg>, clock: int, limit: nat) returns (i: nat)
    requires Dated(log, clock) && log != [] && limit > 0
    requires |Recent(log, log[0].time)| >= limit
    ensures Triggers(log, i, limit)
    decreases |log|
  {
    assert log[0..] == log;
    if |Recent(log, log[0].time)| == limit {
      i := 0;
    } else {
      RecentShrinks(log[1..], log[1].time, log[0].time);
      i := FiresInTime(log[1..], log[0].time, limit);
      assert log[1..][i..] == log[i + 1..];
      i := i + 1;
    }
  }

  // ----- deops -----

  function RecentDeops(ds: seq<Deop>, now: int): seq<Deop> {
    if ds == [] then []
    else (if ds[0].time < now - SPAN then [] else [ds[0]]) + RecentDeops(ds[1..], now)
  }

  /** The deops of other targets. */
  function Others(ds: seq<Deop>, num: string): seq<Deop> {
    if ds == [] then [] else (if ds[0].num == num then [] else [ds[0]]) + Others(ds[1..], num)
  }

  /** The latest deop of each target, newest first. */
  function Latest(log: seq<Deop>): seq<Deop> {
    if log == [] then [] else [log[0]] + Others(Latest(log[1..]), log[0].num)
  }

  predicate DeopsDated(log: seq<Deop>, clock: int) {
    log != [] ==> log[0].time <= clock && DeopsDated(log[1..], log[0].time)
  }

  lemma {:induction false} OthersMean(ds: seq<Deop>, num: string, d: Deop)
    ensures d in Others(ds, num) <==> d in ds && d.num != num
  {
    if ds != [] {
      OthersMean(ds[1..], num, d);
      assert d in ds <==> d == ds[0] || d in ds[1..];
    }
  }

  /** `d` is a deop of the log and no later one has the same target. */
  predicate IsLatest(log: seq<Deop>, d: Deop) {
    exists i | 0 <= i < |log| :: log[i] == d && forall j | 0 <= j < i :: log[j].num != d.num
  }

  lemma LatestStep(log: seq<Deop>, d: Deop)
    requires log != []
    ensures IsLatest(log, d) <==> d == log[0] || (IsLatest(log[1..], d) && d.num != log[0].num)
  {
    if IsLatest(log[1..], d) && d.num != log[0].num {
      var i :| 0 <= i < |log[1..]| && log[1..][i] == d && forall j | 0 <= j < i :: log[1..][j].num != d.num;
      assert log[i + 1] == d && forall j | 0 <= j < i + 1 :: log[j].num != d.num;
    }
    if IsLatest(log, d) && d != log[0] {
      var i :| 0 <= i < |log| && log[i] == d && forall j | 0 <= j < i :: log[j].num != d.num;
      assert i > 0 && log[1..][i - 1] == d;
      assert forall j | 0 <= j < i - 1 :: log[1..][j] == log[j + 1];
    }
  }

  /** Latest() holds exactly the last deop of each target, and each only once. */
  lemma {:induction false} LatestMeans(log: seq<Deop>, d: Deop)
    ensures d in Latest(log) <==> IsLatest(log, d)
  {
    if log != [] {
      LatestMeans(log[1..], d);
      OthersMean(Latest(log[1..]), log[0].num, d);
      LatestStep(log, d);
    }
  }

  lemma {:induction false} RecentDeopsMean(ds: seq<Deop>, now: int, d: Deop)
    ensures d in RecentDeops(ds, now) <==> d in ds && now - d.time <= 15
  {
    if ds != [] {
      RecentDeopsMean(ds[1..], now, d);
      assert d in ds <==> d == ds[0] || d in ds[1..];
    }
  }

  /** No target occurs twice. */
  predicate OneEach(ds: seq<Deop>) {
    ds != [] ==> (forall i | 1 <= i < |ds| :: ds[i].num != ds[0].num) && OneEach(ds[1..])
  }

  lemma {:induction false} OthersOneEach(ds: seq<Deop>, num: string)
    requires OneEach(ds)
    ensures OneEach(Others(ds, num))
  {
    if ds != [] {
      OthersOneEach(ds[1..], num);
      var r := Others(ds[1..], num);
      assert [] + r == r && ([ds[0]] + r)[1..] == r;
      forall i | 0 <= i < |r| ensures r[i].num != ds[0].num {
        OthersMean(ds[1..], num, r[i]);
        assert r[i] in ds[1..];
      }
    }
  }

  lemma {:induction false} LatestOneEach(log: seq<Deop>)
    ensures OneEach(Latest(log))
  {
    if log != [] {
      LatestOneEach(log[1..]);
      OthersOneEach(Latest(log[1..]), log[0].num);
      var r := Others(Latest(log[1..]), log[0].num);
      assert ([log[0]] + r)[1..] == r;
      forall i | 0 <= i < |r| ensures r[i].num != log[0].num {
        OthersMean(Latest(log[1..]), log[0].num, r[i]);
      }
    }
  }

  lemma {:induction false} RecentOneEach(ds: seq<Deop>, now: int)
    requires OneEach(ds)
    ensures OneEach(RecentDeops(ds, now))
  {
    if ds != [] {
      RecentOneEach(ds[1..], now);
      var r := RecentDeops(ds[1..], now);
      assert [] + r == r && ([ds[0]] + r)[1..] == r;
      forall i | 0 <= i < |r| ensures r[i].num != ds[0].num {
        RecentDeopsMean(ds[1..], now, r[i]);
        assert r[i] in ds[1..];
      }
    }
  }

  function Targets(ds: seq<Deop>): set<string> {
    set d | d in ds :: d.num
  }

  lemma {:induction false} AsManyTargets(ds: seq<Deop>)
    requires OneEach(ds)
    ensures |Targets(ds)| == |ds|
  {
    if ds != [] {
      AsManyTargets(ds[1..]);
      assert ds == [ds[0]] + ds[1..];
      assert Targets(ds) == Targets(ds[1..]) + {ds[0].num};
      assert ds[0].num !in Targets(ds[1..]);
    }
  }

  /** Everyone who was deopped in the last 15 seconds. */
  ghost function Victims(log: seq<Deop>, now: int): set<string> {
    set i | 0 <= i < |log| && now - log[i].time <= 15 :: log[i].num
  }

  lemma {:induction false} DeopsInOrder(log: seq<Deop>, clock: int, i: nat, j: nat)
    requires DeopsDated(log, clock) && i <= j < |log|
    ensures log[j].time <= log[i].time <= clock
  {
    if i > 0 {
      DeopsInOrder(log[1..], log[0].time, i - 1, j - 1);
    } else if j > 0 {
      DeopsInOrder(log[1..], log[0].time, 0, j - 1);
    }
  }

  /** The last deop of the target of entry `i`. */
  lemma {:induction false} LastOf(log: seq<Deop>, i: nat) returns (k: nat)
    requires i < |log|
    ensures k <= i && log[k].num == log[i].num && IsLatest(log, log[k])
    decreases i
  {
    if j :| 0 <= j < i && log[j].num == log[i].num {
      k := LastOf(log, j);
    } else {
      k := i;
    }
  }

  /** The history in the window has one entry for each of them. */
  lemma WindowCountsVictims(log: seq<Deop>, clock: int, now: int)
    requires DeopsDated(log, clock)
    ensures |RecentDeops(Latest(log), now)| == |Victims(log, now)|
  {
    var ds := RecentDeops(Latest(log), now);
    LatestOneEach(log);
    RecentOneEach(Latest(log), now);
    AsManyTargets(ds);
    forall num ensures num in Targets(ds) <==> num in Victims(log, now) {
      if d :| d in ds && d.num == num {
        RecentDeopsMean(Latest(log), now, d);
        LatestMeans(log, d);
      }
      if i :| 0 <= i < |log| && now - log[i].time <= 15 && log[i].num == num {
        var k := LastOf(log, i);
        DeopsInOrder(log, clock, k, i);
        LatestMeans(log, log[k]);
        RecentDeopsMean(Latest(log), now, log[k]);
      }
    }
    assert Targets(ds) == Victims(log, now);
  }

  /** What the trimming loop of ondeop() keeps. */
  function Kept(ds: seq<Deop>, num: string, now: int): seq<Deop> {
    RecentDeops(Others(ds, num), now)
  }

  lemma OthersCons(d: Deop, ds: seq<Deop>, num: string)
    ensures Others([d] + ds, num) == if d.num == num then Others(ds, num) else [d] + Others(ds, num)
  {
    assert ([d] + ds)[1..] == ds && [] + Others(ds, num) == Others(ds, num);
  }

  lemma RecentCons(d: Deop, ds: seq<Deop>, now: int)
    ensures RecentDeops([d] + ds, now)
         == if d.time < now - SPAN then RecentDeops(ds, now) else [d] + RecentDeops(ds, now)
  {
    assert ([d] + ds)[1..] == ds && [] + RecentDeops(ds, now) == RecentDeops(ds, now);
  }

  lemma {:induction false} KeptAgain(ds: seq<Deop>, num: string, before: int, now: int)
    requires before <= now
    ensures Kept(RecentDeops(ds, before), num, now) == Kept(ds, num, now)
  {
    if ds != [] {
      var d, r := ds[0], RecentDeops(ds[1..], before);
      assert ds == [d] + ds[1..];
      KeptAgain(ds[1..], num, before, now);
      RecentCons(d, ds[1..], before);
      OthersCons(d, ds[1..], num);
      OthersCons(d, r, num);
      RecentCons(d, Others(ds[1..], num), now);
      RecentCons(d, Others(r, num), now);
    }
  }

  lemma {:induction false} KeptShrinks(ds: seq<Deop>, num: string, before: int, now: int)
    requires before <= now
    ensures |Kept(ds, num, now)| <= |RecentDeops(ds, before)|
  {
    if ds != [] {
      KeptShrinks(ds[1..], num, before, now);
      var o := Others(ds[1..], num);
      assert [] + o == o && ([ds[0]] + o)[1..] == o;
    }
  }

  lemma KeptStep(s: seq<Deop>, i: nat, num: string, now: int)
    requires i < |s|
    ensures s[i].time < now - SPAN || s[i].num == num ==>
      (s[..i] + s[i + 1..])[..i] + Kept((s[..i] + s[i + 1..])[i..], num, now) == s[..i] + Kept(s[i..], num, now)
    ensures !(s[i].time < now - SPAN || s[i].num == num) ==>
      s[..i + 1] + Kept(s[i + 1..], num, now) == s[..i] + Kept(s[i..], num, now)
  {
    var o := Others(s[i + 1..], num);
    assert s[i..][0] == s[i] && s[i..][1..] == s[i + 1..];
    assert [] + o == o && ([s[i]] + o)[1..] == o;
    assert [] + RecentDeops(o, now) == RecentDeops(o, now);
    assert (s[..i] + s[i + 1..])[..i] == s[..i] && (s[..i] + s[i + 1..])[i..] == s[i + 1..];
    assert s[..i] + ([s[i]] + RecentDeops(o, now)) == s[..i + 1] + RecentDeops(o, now);
  }

  class DeopHistory {
    var deophist: seq<Deop>
    ghost var log: seq<Deop>
    ghost var clock: int

    /** The history is the latest deop of each target, as far as it is in the window. */
    ghost predicate Valid()
      reads this
    {
      DeopsDated(log, clock) && deophist == RecentDeops(Latest(log), clock)
    }

    constructor (now: int)
      ensures Valid() && log == [] && clock == now
    {
      deophist, log, clock := [], [], now;
    }

    method Trim(target: string, now: int)
      modifies this`deophist
      ensures deophist == Kept(old(deophist), target, now)
    {
      var i := 0;
      assert deophist[..0] + Kept(deophist[0..], target, now) == Kept(deophist, target, now);
      while i < |deophist|
        invariant i <= |deophist|
        invariant deophist[..i] + Kept(deophist[i..], target, now) == Kept(old(deophist), target, now)
        decreases |deophist| - i
      {
        KeptStep(deophist, i, target, now);
        if deophist[i].time < now - SPAN || deophist[i].num == target {
          deophist := deophist[..i] + deophist[i + 1..];
        } else {
          i := i + 1;
        }
      }
    }

    /** ondeop() by a user on a channel the bot is on; `limit` is the channel's setting, 0 for none. */
    method OnDeop(target: string, now: int, limit: nat, service: bool) returns (triggered: bool)
      requires Valid() && clock <= now
      modifies this
      ensures Valid() && clock == now && log == [Deop(now, target)] + old(log)
      ensures triggered == (limit != 0 && |Victims(log, now)| == limit && !service)
      ensures forall d :: d in deophist <==> IsLatest(log, d) && now - d.time <= 15
    {
      KeptAgain(Latest(log), target, clock, now);
      Trim(target, now);
      deophist := [Deop(now, target)] + deophist;
      log := [Deop(now, target)] + log;
      clock := now;
      assert log[1..] == old(log) && Latest(log)[1..] == Others(Latest(old(log)), target);
      var i := 0;
      while i < |deophist|
        invariant i <= |deophist|
      {
        i := i + 1;
      }
      triggered := limit != 0 && i == limit && !service;
      WindowCountsVictims(log, clock, now);
      forall d ensures d in deophist <==> IsLatest(log, d) && now - d.time <= 15 {
        RecentDeopsMean(Latest(log), now, d);
        LatestMeans(log, d);
      }
    }
  }

  predicate DeopTriggers(log: seq<Deop>, i: nat, limit: nat) {
    i < |log| && |RecentDeops(Latest(log[i..]), log[i].time)| == limit
  }

  /** If the window holds as many different targets as the limit allows, or more, then the protection
      fired at this deop or at an earlier one. */
  lemma {:induction false} DeopFiresInTime(log: seq<Deop>, clock: int, limit: nat) returns (i: nat)
    requires DeopsDated(log, clock) && log != [] && limit > 0
    requires |RecentDeops(Latest(log), log[0].time)| >= limit
    ensures DeopTriggers(log, i, limit)
    decreases |log|
  {
    assert log[0..] == log;
    if |RecentDeops(Latest(log), log[0].time)| == limit {
      i := 0;
    } else {
      assert Latest(log)[1..] == Others(Latest(log[1..]), log[0].num);
      KeptShrinks(Latest(log[1..]), log[0].num, log[1].time, log[0].time);
      i := DeopFiresInTime(log[1..], log[0].time, limit);
      assert log[1..][i..] == log[i + 1..];
      i := i + 1;
    }
  }
}
