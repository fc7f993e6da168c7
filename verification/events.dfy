// The timer queue (Sources/events.c): sorted insertion, and a check that fires what is due while
// the handlers schedule new events.
module Events {

  import opened Lists

  datatype Kind =
    | SaveUserlist | SaveShitlist | SaveDefchannels | Sync | CleanShitlist | FlushModebuff | GetOps
    | CleanIgnores | CheckIdle | RenameLogfile | SyncDb

  datatype Event = Event(kind: Kind, time: int, param: string)

  /** How long after firing an event of this kind is due again; 0 for those that fire once. */
  function Period(k: Kind): nat {
    match k
    case SaveShitlist => 7200
    case SaveDefchannels => 7200
    case Sync => 7200
    case CheckIdle => 3 * 3600
    case RenameLogfile => 3 * 24 * 3600
    case SyncDb => 4800
    case _ => 0
  }

  predicate Sorted(l: seq<Event>) {
    forall i, j | 0 <= i < j < |l| :: l[i].time <= l[j].time
  }

  /** Everything in the list is due later than `now`. */
  predicate Later(l: seq<Event>, now: int) {
    forall i | 0 <= i < |l| :: l[i].time > now
  }

  /** Number of leading events that are due. */
  function Due(l: seq<Event>, now: int): (n: nat)
    ensures n <= |l| && (forall i | 0 <= i < n :: l[i].time <= now) && (n < |l| ==> l[n].time > now)
  {
    if l == [] || l[0].time > now then 0
    else
      var n := Due(l[1..], now);
      assert forall i | 1 <= i < n + 1 :: l[i] == l[1..][i - 1];
      n + 1
  }

  /** The list with the event in front of the first one that is not earlier. */
  function Insert(l: seq<Event>, e: Event): seq<Event> {
    if l == [] || l[0].time >= e.time then [e] + l else [l[0]] + Insert(l[1..], e)
  }

  function InsertAll(l: seq<Event>, es: seq<Event>): seq<Event>
    decreases |es|
  {
    if es == [] then l else InsertAll(Insert(l, es[0]), es[1..])
  }

  /** What the handler of the event that fires in turn `k` of a check schedules. It may depend on
      anything that happened before. */
  type Handlers = (nat, Event) -> seq<Event>

  /** No handler schedules for the present second or earlier. */
  ghost predicate Patient(asked: Handlers, now: int) {
    forall k, e :: Later(asked(k, e), now)
  }

  /** What firing `e` schedules: what its handler asks for, then its own next turn. */
  function Scheduled(e: Event, now: int, asked: seq<Event>): seq<Event> {
    asked + if Period(e.kind) > 0 then [Event(e.kind, now + Period(e.kind), "")] else []
  }

  lemma {:induction false} InsertBound(l: seq<Event>, e: Event, t: int)
    requires e.time >= t && forall i | 0 <= i < |l| :: l[i].time >= t
    ensures forall i | 0 <= i < |Insert(l, e)| :: Insert(l, e)[i].time >= t
  {
    if l != [] {
      InsertBound(l[1..], e, t);
    }
  }

  lemma {:induction false} InsertSorted(l: seq<Event>, e: Event)
    requires Sorted(l)
    ensures Sorted(Insert(l, e))
  {
    if l != [] && l[0].time < e.time {
      InsertSorted(l[1..], e);
      InsertBound(l[1..], e, l[0].time);
    }
  }

  lemma {:induction false} InsertCounts(l: seq<Event>, e: Event)
    ensures multiset(Insert(l, e)) == multiset(l) + multiset{e}
  {
    if l != [] && l[0].time < e.time {
      InsertCounts(l[1..], e);
      assert l == [l[0]] + l[1..];
    }
  }

  /** New events go behind all that are earlier. */
  lemma {:induction false} InsertBehind(a: seq<Event>, b: seq<Event>, e: Event)
    requires forall i | 0 <= i < |a| :: a[i].time < e.time
    ensures Insert(a + b, e) == a + Insert(b, e)
  {
    if a == [] {
      assert a + b == b && a + Insert(b, e) == Insert(b, e);
    } else {
      assert (a + b)[1..] == a[1..] + b;
      InsertBehind(a[1..], b, e);
      assert [a[0]] + (a[1..] + Insert(b, e)) == a + Insert(b, e);
    }
  }

  /** The one place of a new event: behind all that are earlier, in front of all that are not. */
  lemma InsertPlace(l: seq<Event>, k: nat, e: Event)
    requires k <= |l| && (forall i | 0 <= i < k :: l[i].time < e.time) && (k < |l| ==> l[k].time >= e.time)
    ensures Insert(l, e) == l[..k] + [e] + l[k..]
  {
    InsertBehind(l[..k], l[k..], e);
    Rejoin(l, k);
    assert l[..k] + ([e] + l[k..]) == l[..k] + [e] + l[k..];
  }

  lemma {:induction false} InsertAllFacts(l: seq<Event>, es: seq<Event>, now: int)
    requires Sorted(l) && Later(es, now)
    ensures Sorted(InsertAll(l, es)) && multiset(InsertAll(l, es)) == multiset(l) + multiset(es)
    ensures Later(l, now) ==> Later(InsertAll(l, es), now)
    decreases |es|
  {
    if es != [] {
      InsertSorted(l, es[0]);
      InsertCounts(l, es[0]);
      if Later(l, now) {
        InsertBound(l, es[0], now + 1);
      }
      InsertAllFacts(Insert(l, es[0]), es[1..], now);
      assert es == [es[0]] + es[1..];
    }
  }

  lemma {:induction false} InsertAllBehind(a: seq<Event>, b: seq<Event>, es: seq<Event>, now: int)
    requires (forall i | 0 <= i < |a| :: a[i].time <= now) && Later(es, now)
    ensures InsertAll(a + b, es) == a + InsertAll(b, es)
    decreases |es|
  {
    if es != [] {
      InsertBehind(a, b, es[0]);
      InsertAllBehind(a, Insert(b, es[0]), es[1..], now);
    }
  }

  lemma {:induction false} InsertAllTwice(l: seq<Event>, x: seq<Event>, y: seq<Event>)
    ensures InsertAll(InsertAll(l, x), y) == InsertAll(l, x + y)
    decreases |x|
  {
    if x == [] {
      assert x + y == y;
    } else {
      assert (x + y)[1..] == x[1..] + y;
      InsertAllTwice(Insert(l, x[0]), x[1..], y);
    }
  }

  /** All that firing these events in turn schedules. */
  function ScheduledBy(es: seq<Event>, now: int, asked: Handlers): seq<Event> {
    if es == [] then []
    else ScheduledBy(es[..|es| - 1], now, asked) + Scheduled(es[|es| - 1], now, asked(|es| - 1, es[|es| - 1]))
  }

  lemma {:induction false} ScheduledLater(es: seq<Event>, now: int, asked: Handlers)
    requires Patient(asked, now)
    ensures Later(ScheduledBy(es, now, asked), now)
  {
    if es != [] {
      ScheduledLater(es[..|es| - 1], now, asked);
      assert Later(asked(|es| - 1, es[|es| - 1]), now);
    }
  }

  // ----- one check -----

  /** Turn `k` of the loop: the first event fires, and what that schedules is put in its place. */
  function Turn(l: seq<Event>, k: nat, now: int, asked: Handlers): seq<Event> {
    if l == [] then [] else InsertAll(l[1..], Scheduled(l[0], now, asked(k, l[0])))
  }

  function Turns(l: seq<Event>, k: nat, now: int, asked: Handlers): seq<Event> {
    if k == 0 then l else Turn(Turns(l, k - 1, now, asked), k - 1, now, asked)
  }

  lemma RestIsLater(l: seq<Event>, k: nat, now: int, asked: Handlers)
    requires Sorted(l) && k <= Due(l, now) && Patient(asked, now)
    ensures var later := InsertAll(l[Due(l, now)..], ScheduledBy(l[..k], now, asked));
            Sorted(later) && Later(later, now)
            && multiset(later) == multiset(l[Due(l, now)..]) + multiset(ScheduledBy(l[..k], now, asked))
  {
    ScheduledLater(l[..k], now, asked);
    InsertAllFacts(l[Due(l, now)..], ScheduledBy(l[..k], now, asked), now);
  }

  lemma ScheduledNext(l: seq<Event>, k: nat, now: int, asked: Handlers)
    requires k < |l|
    ensures ScheduledBy(l[..k + 1], now, asked)
         == ScheduledBy(l[..k], now, asked) + Scheduled(l[k], now, asked(k, l[k]))
  {
    assert l[..k + 1][..k] == l[..k] && l[..k + 1][k] == l[k];
  }

  lemma ScheduledIsLater(e: Event, now: int, asked: seq<Event>)
    requires Later(asked, now)
    ensures Later(Scheduled(e, now, asked), now)
  {
  }

  /** Turn `k`, with these events still due. */
  lemma OneTurn(due: seq<Event>, rest: seq<Event>, new_: seq<Event>, k: nat, now: int, asked: Handlers)
    requires due != [] && (forall i | 0 <= i < |due| :: due[i].time <= now) && Patient(asked, now)
    ensures Turn(due + InsertAll(rest, new_), k, now, asked)
         == due[1..] + InsertAll(rest, new_ + Scheduled(due[0], now, asked(k, due[0])))
  {
    var es := Scheduled(due[0], now, asked(k, due[0]));
    DropFirst(due, InsertAll(rest, new_));
    ScheduledIsLater(due[0], now, asked(k, due[0]));
    InsertAllBehind(due[1..], InsertAll(rest, new_), es, now);
    InsertAllTwice(rest, new_, es);
  }

  /** The events of `l` still due after `k` turns, and behind them all that is later. */
  ghost predicate InOrder(s: seq<Event>, l: seq<Event>, k: nat, now: int, asked: Handlers) {
    k <= Due(l, now) && s == l[k..Due(l, now)] + InsertAll(l[Due(l, now)..], ScheduledBy(l[..k], now, asked))
  }

  lemma StartsInOrder(l: seq<Event>, now: int, asked: Handlers)
    ensures InOrder(l, l, 0, now, asked)
  {
    assert l == l[0..Due(l, now)] + l[Due(l, now)..] && l[..0] == [];
  }

  lemma OneTurnLater(s: seq<Event>, l: seq<Event>, k: nat, now: int, asked: Handlers)
    requires InOrder(s, l, k, now, asked) && k < Due(l, now) && Patient(asked, now)
    ensures InOrder(Turn(s, k, now, asked), l, k + 1, now, asked)
  {
    var n := Due(l, now);
    OneTurn(l[k..n], l[n..], ScheduledBy(l[..k], now, asked), k, now, asked);
    assert l[k..n][1..] == l[k + 1..n] && l[k..n][0] == l[k];
    ScheduledNext(l, k, now, asked);
  }

  /** What the handlers schedule goes behind everything that is still due: after `k` turns the due
      events are those left of the old list, and all that is new is later. */
  lemma {:induction false} TurnsInOrder(l: seq<Event>, k: nat, now: int, asked: Handlers)
    requires k <= Due(l, now) && Patient(asked, now)
    ensures InOrder(Turns(l, k, now, asked), l, k, now, asked)
  {
    if k == 0 {
      StartsInOrder(l, now, asked);
    } else {
      TurnsInOrder(l, k - 1, now, asked);
      OneTurnLater(Turns(l, k - 1, now, asked), l, k - 1, now, asked);
    }
  }

  /** The loop goes on exactly as long as there are events left that were due at the start. */
  lemma TurnOrStop(l: seq<Event>, k: nat, now: int, asked: Handlers)
    requires Sorted(l) && k <= Due(l, now) && Patient(asked, now)
    ensures var s := Turns(l, k, now, asked);
      if k < Due(l, now) then s != [] && s[0] == l[k] && s[0].time <= now else s == [] || s[0].time > now
  {
    TurnsInOrder(l, k, now, asked);
    RestIsLater(l, k, now, asked);
    FrontIsDue(l, k, Due(l, now), InsertAll(l[Due(l, now)..], ScheduledBy(l[..k], now, asked)));
  }

  lemma FrontIsDue(l: seq<Event>, k: nat, n: nat, later: seq<Event>)
    requires k <= n <= |l|
    ensures var s := l[k..n] + later; if k < n then s != [] && s[0] == l[k] else s == later
  {
  }

  // ----- what comes back -----

  /** Fired events of this kind come back after so many seconds. */
  predicate ComesBack(k: Kind, after: nat) {
    || (k.SaveShitlist? && after == 7200) || (k.SaveDefchannels? && after == 7200) || (k.Sync? && after == 7200)
    || (k.SyncDb? && after == 4800) || (k.CheckIdle? && after == 10800) || (k.RenameLogfile? && after == 259200)
  }

  /** `x` is the next turn of an event that fires now. */
  predicate NextTurn(x: Event, e: Event, now: int) {
    x.kind == e.kind && x.param == "" && x.time > now && ComesBack(e.kind, x.time - now)
  }

  /** An event that comes back is scheduled again behind all its handler asks for; the others are not. */
  lemma ScheduledMeans(e: Event, now: int, asked: seq<Event>)
    ensures var es := Scheduled(e, now, asked);
      if exists after :: ComesBack(e.kind, after)
      then |es| == |asked| + 1 && es[..|asked|] == asked && NextTurn(es[|asked|], e, now) else es == asked
  {
    assert Period(e.kind) > 0 ==> ComesBack(e.kind, Period(e.kind));
  }

  /** A check schedules the next turns of what it fires, what their handlers ask for, and nothing else. */
  ghost predicate New(x: Event, es: seq<Event>, now: int, asked: Handlers) {
    exists k | 0 <= k < |es| :: x in asked(k, es[k]) || NextTurn(x, es[k], now)
  }

  lemma {:induction false} ScheduledByMeans(es: seq<Event>, now: int, asked: Handlers, x: Event)
    ensures x in ScheduledBy(es, now, asked) <==> New(x, es, now, asked)
  {
    if es != [] {
      var n := |es| - 1;
      ScheduledByMeans(es[..n], now, asked, x);
      ScheduledMeans(es[n], now, asked(n, es[n]));
      OneMore(x, es, now, asked);
      assert Scheduled(es[n], now, asked(n, es[n]))[..|asked(n, es[n])|] == asked(n, es[n]);
    }
  }

  lemma OneMore(x: Event, es: seq<Event>, now: int, asked: Handlers)
    requires es != []
    ensures var n := |es| - 1;
      New(x, es, now, asked) <==> New(x, es[..n], now, asked) || x in asked(n, es[n]) || NextTurn(x, es[n], now)
  {
    var n := |es| - 1;
    if New(x, es[..n], now, asked) {
      var k :| 0 <= k < n && (x in asked(k, es[..n][k]) || NextTurn(x, es[..n][k], now));
      assert x in asked(k, es[k]) || NextTurn(x, es[k], now);
    }
    if New(x, es, now, asked) {
      var k :| 0 <= k < |es| && (x in asked(k, es[k]) || NextTurn(x, es[k], now));
      assert k < n ==> x in asked(k, es[..n][k]) || NextTurn(x, es[..n][k], now);
    }
  }

  lemma InEither(s: seq<Event>, a: seq<Event>, b: seq<Event>, x: Event)
    requires multiset(s) == multiset(a) + multiset(b)
    ensures x in s <==> x in a || x in b
  {
    assert x in s <==> x in multiset(s);
    assert x in a <==> x in multiset(a);
    assert x in b <==> x in multiset(b);
  }

  lemma NotDueYet(l: seq<Event>, now: int, x: Event)
    requires Sorted(l)
    ensures x in l[Due(l, now)..] <==> x in l && x.time > now
  {
    var n := Due(l, now);
    if i :| 0 <= i < |l| && l[i] == x && x.time > now {
      assert l[n..][i - n] == x;
    }
  }

  /** What waits behind a check: what was not due yet, and what the check scheduled. */
  lemma WaitsAfter(l: seq<Event>, now: int, asked: Handlers, x: Event)
    requires Sorted(l) && Patient(asked, now)
    ensures var n := Due(l, now);
      x in Turns(l, n, now, asked) <==> (x in l && x.time > now) || New(x, l[..n], now, asked)
  {
    var n := Due(l, now);
    TurnsInOrder(l, n, now, asked);
    RestIsLater(l, n, now, asked);
    ScheduledByMeans(l[..n], now, asked, x);
    var later := InsertAll(l[n..], ScheduledBy(l[..n], now, asked));
    assert l[n..n] + later == later;
    InEither(later, l[n..], ScheduledBy(l[..n], now, asked), x);
    NotDueYet(l, now, x);
  }

  /** Some event of this kind waits. */
  ghost predicate Waits(l: seq<Event>, k: Kind) {
    exists i | 0 <= i < |l| :: l[i].kind == k
  }

  /** An event that comes back never gets lost. */
  lemma ComesBackAlways(l: seq<Event>, now: int, asked: Handlers, kind: Kind, after: nat)
    requires Sorted(l) && Patient(asked, now) && ComesBack(kind, after) && Waits(l, kind)
    ensures Waits(Turns(l, Due(l, now), now, asked), kind)
  {
    var n := Due(l, now);
    var i :| 0 <= i < |l| && l[i].kind == kind;
    var x := if i < n then Event(kind, now + after, "") else l[i];
    if i < n {
      assert l[..n][i] == l[i] && NextTurn(x, l[..n][i], now);
    } else {
      assert l[n].time <= l[i].time;
    }
    WaitsAfter(l, now, asked, x);
  }

  /** What a check turns a list into: what waits is what was not due yet, and what is new; the kinds
      that come back go on waiting. */
  ghost predicate Checked(l: seq<Event>, l': seq<Event>, now: int, asked: Handlers) {
    && (forall x :: x in l' <==> (x in l && x.time > now) || New(x, l[..Due(l, now)], now, asked))
    && (forall k, after :: ComesBack(k, after) && Waits(l, k) ==> Waits(l', k))
  }

  lemma CheckLeaves(l: seq<Event>, now: int, asked: Handlers)
    requires Sorted(l) && Patient(asked, now)
    ensures Checked(l, Turns(l, Due(l, now), now, asked), now, asked)
  {
    var n := Due(l, now);
    forall x ensures x in Turns(l, n, now, asked) <==> (x in l && x.time > now) || New(x, l[..n], now, asked) {
      WaitsAfter(l, now, asked, x);
    }
    forall k, after | ComesBack(k, after) && Waits(l, k) ensures Waits(Turns(l, n, now, asked), k) {
      ComesBackAlways(l, now, asked, k, after);
    }
  }

  // ----- the whole history -----

  /** `fired[i]` fired at time `at[i]`; every event ever scheduled waits or has fired once, none has
      fired early, they fired in the order of their times, and nothing waits that was due before `clock`. */
  ghost predicate History(list: seq<Event>, scheduled: seq<Event>, fired: seq<Event>, at: seq<int>, clock: int) {
    && Sorted(list) && Later(list, clock - 1)
    && multiset(scheduled) == multiset(list) + multiset(fired)
    && OnTime(fired, at, clock)
  }

  ghost predicate OnTime(fired: seq<Event>, at: seq<int>, clock: int) {
    && |at| == |fired|
    && (forall i | 0 <= i < |fired| :: fired[i].time <= at[i] <= clock)
    && Sorted(fired) && (forall i, j | 0 <= i < j < |at| :: at[i] <= at[j])
  }

  lemma OnTimeGrows(fired: seq<Event>, at: seq<int>, clock: int, due: seq<Event>, now: int)
    requires OnTime(fired, at, clock) && clock <= now && Sorted(due) && Later(due, clock - 1)
    requires forall i | 0 <= i < |due| :: due[i].time <= now
    ensures OnTime(fired + due, at + seq(|due|, _ => now), now)
  {
    SortedSum(fired, due, clock);
  }

  lemma FiredOnTime(list: seq<Event>, fired: seq<Event>, at: seq<int>, clock: int, now: int)
    requires Sorted(list) && Later(list, clock - 1) && OnTime(fired, at, clock) && clock <= now
    ensures var n := Due(list, now); OnTime(fired + list[..n], at + seq(n, _ => now), now)
  {
    OnTimeGrows(fired, at, clock, list[..Due(list, now)], now);
  }

  lemma ScheduleHistory(list: seq<Event>, scheduled: seq<Event>, fired: seq<Event>, at: seq<int>, clock: int, e: Event)
    requires History(list, scheduled, fired, at, clock) && e.time >= clock
    ensures History(Insert(list, e), scheduled + [e], fired, at, clock)
  {
    InsertSorted(list, e);
    InsertCounts(list, e);
    InsertBound(list, e, clock);
  }

  lemma SortedSum(a: seq<Event>, b: seq<Event>, t: int)
    requires Sorted(a) && Sorted(b) && Later(b, t - 1) && forall i | 0 <= i < |a| :: a[i].time <= t
    ensures Sorted(a + b)
  {
  }

  lemma MoveDue(list: seq<Event>, fired: seq<Event>, n: nat, later: seq<Event>, scheduled: seq<Event>, new_: seq<Event>)
    requires n <= |list| && multiset(scheduled) == multiset(list) + multiset(fired)
    requires multiset(later) == multiset(list[n..]) + multiset(new_)
    ensures multiset(scheduled + new_) == multiset(later) + multiset(fired + list[..n])
  {
    assert list == list[..n] + list[n..];
  }

  /** A check at `now` leaves nothing due and keeps the history. */
  lemma CheckHistory(list: seq<Event>, scheduled: seq<Event>, fired: seq<Event>, at: seq<int>, clock: int,
                     now: int, asked: Handlers)
    requires History(list, scheduled, fired, at, clock) && clock <= now && Patient(asked, now)
    ensures var n := Due(list, now);
            && Later(Turns(list, n, now, asked), now)
            && History(Turns(list, n, now, asked), scheduled + ScheduledBy(list[..n], now, asked),
                       fired + list[..n], at + seq(n, _ => now), now)
  {
    var n := Due(list, now);
    RestIsLater(list, n, now, asked);
    var later := InsertAll(list[n..], ScheduledBy(list[..n], now, asked));
    TurnsInOrder(list, n, now, asked);
    assert list[n..n] + later == later;
    MoveDue(list, fired, n, later, scheduled, ScheduledBy(list[..n], now, asked));
    FiredOnTime(list, fired, at, clock, now);
  }

  class Timers {
    var list: seq<Event>
    ghost var scheduled: seq<Event>
    ghost var fired: seq<Event>
    ghost var at: seq<int>
    /** The time of the last check. */
    ghost var clock: int

    ghost predicate Valid()
      reads this
    {
      History(list, scheduled, fired, at, clock)
    }

    constructor (now: int)
      ensures Valid() && list == [] && scheduled == [] && fired == [] && clock == now
    {
      list, scheduled, fired, at, clock := [], [], [], [], now;
    }

    /** AddEvent() */
    method AddEvent(e: Event)
      modifies this`list
      ensures list == Insert(old(list), e)
    {
      var i := 0;
      while i < |list| && list[i].time < e.time
        invariant i <= |list| && Insert(list, e) == list[..i] + Insert(list[i..], e)
      {
        assert list[i..][1..] == list[i + 1..];
        assert list[..i] + ([list[i]] + Insert(list[i + 1..], e)) == list[..i + 1] + Insert(list[i + 1..], e);
        i := i + 1;
      }
      assert i < |list| ==> list[i..][0] == list[i];
      list := list[..i] + [e] + list[i..];
    }

    /** A handler schedules these events, in this order. */
    method AddEvents(es: seq<Event>)
      modifies this`list
      ensures list == InsertAll(old(list), es)
    {
      var rest := es;
      while rest != []
        invariant InsertAll(list, rest) == InsertAll(old(list), es)
      {
        AddEvent(rest[0]);
        rest := rest[1..];
      }
    }

    /** The first event is taken off the list, and its handler runs. */
    method FireFirst(k: nat, now: int, asked: Handlers) returns (curr: Event)
      requires list != []
      modifies this`list
      ensures curr == old(list)[0] && list == Turn(old(list), k, now, asked)
    {
      curr := list[0];
      list := list[1..];
      var es := asked(k, curr);
      if Period(curr.kind) > 0 {
        es := es + [Event(curr.kind, now + Period(curr.kind), "")];
      }
      assert es == Scheduled(curr, now, asked(k, curr));
      AddEvents(es);
    }

    /** CheckEvent(); `asked` is what the handlers schedule besides their own next turn. It fires exactly
        the events that were due when it started, in the order of the list. */
    method CheckEvent(now: int, asked: Handlers) returns (ran: seq<Event>)
      requires Sorted(list) && Patient(asked, now)
      modifies this`list
      ensures ran == old(list)[..Due(old(list), now)]
      ensures list == Turns(old(list), |ran|, now, asked)
    {
      ghost var l, n := list, Due(list, now);
      ran := [];
      while list != [] && list[0].time <= now
        invariant |ran| <= n && ran == l[..|ran|] && list == Turns(l, |ran|, now, asked)
        decreases n - |ran|
      {
        TurnOrStop(l, |ran|, now, asked);
        AppendNext([], l, |ran|);
        var curr := FireFirst(|ran|, now, asked);
        ran := ran + [curr];
      }
      TurnOrStop(l, |ran|, now, asked);
    }

    /** Something outside the queue schedules an event; it may be for the very second of the last check. */
    method Schedule(e: Event)
      requires Valid() && e.time >= clock
      modifies this
      ensures Valid() && clock == old(clock) && scheduled == old(scheduled) + [e] && fired == old(fired)
    {
      ScheduleHistory(list, scheduled, fired, at, clock, e);
      AddEvent(e);
      scheduled := scheduled + [e];
    }

    /** Bookkeeping after a check that found list `l`. */
    ghost method Record(l: seq<Event>, now: int, asked: Handlers)
      requires History(l, scheduled, fired, at, clock) && clock <= now && Patient(asked, now)
      requires list == Turns(l, Due(l, now), now, asked)
      modifies this`scheduled, this`fired, this`at, this`clock
      ensures Valid() && clock == now && Later(list, now)
      ensures var due := l[..Due(l, now)];
        fired == old(fired) + due && scheduled == old(scheduled) + ScheduledBy(due, now, asked)
    {
      var n := Due(l, now);
      CheckHistory(l, scheduled, fired, at, clock, now, asked);
      scheduled := scheduled + ScheduledBy(l[..n], now, asked);
      fired := fired + l[..n];
      at := at + seq(n, _ => now);
      clock := now;
    }

    /** A check at time `now`: it leaves nothing due, whatever the handlers schedule for later. */
    method Tick(now: int, asked: Handlers)
      requires Valid() && clock <= now && Patient(asked, now)
      modifies this
      ensures Valid() && clock == now && Later(list, now)
      ensures var due := old(list)[..Due(old(list), now)];
        fired == old(fired) + due && scheduled == old(scheduled) + ScheduledBy(due, now, asked)
      ensures Checked(old(list), list, now, asked)
    {
      ghost var l := list;
      CheckLeaves(l, now, asked);
      var ran := CheckEvent(now, asked);
      Record(l, now, asked);
    }
  }
}
