// Reading a channel's database file in pieces: read_db() of Sources/dbio.c.
module DbQuery {
  import opened CaseFold
  import opened Buffers
  import Glob

  // --- the record layout (struct dbuser of Sources/struct.h with 64-bit longs) ---------------

  const RECORD_SIZE := 352
  const NICK := 2
  const MATCH := 82
  const PASSWD := 162
  const CHANNEL := 182
  const MODIF := 232
  const FOOTER := 344

  const FF: char := '\U{FF}'

  /** The C string that starts a fixed-size field. */
  function CString(s: string): (r: string)
    ensures |r| <= |s| && NulFree(r)
  {
    if s == [] || s[0] == NUL then [] else [s[0]] + CString(s[1..])
  }

  function Field(rec: string, from: nat, size: nat): (r: string)
    requires from + size <= |rec|
    ensures |r| <= size && NulFree(r)
  {
    CString(rec[from..from + size])
  }

  predicate Used(rec: string)
    requires |rec| == RECORD_SIZE
  {
    rec[0] == FF && rec[1] == FF && rec[FOOTER] == FF && rec[FOOTER + 1] == FF
  }

  predicate Free(rec: string)
    requires |rec| == RECORD_SIZE
  {
    rec[0] == NUL && rec[1] == NUL && rec[FOOTER] == NUL && rec[FOOTER + 1] == NUL
  }

  // --- what a query does with the records ------------------------------------------------------

  datatype Kind = GetNick | GetFirstHost | GetAllHosts | GetHostAndPassword | CountHosts | GetFirstFree

  /** A query as db_fetch() sets it up. `closes` says whether the callback, called for the
      n-th time, closes the query itself. */
  datatype Request = Request(channel: string, kind: Kind, info: string, passwd: string, closes: nat -> bool)
  {
    predicate Valid() {
      NulFree(channel) && NulFree(info) && |info| < 80
    }

    /** A used record of another channel is in the wrong file. */
    predicate Misplaced(rec: string)
      requires |rec| == RECORD_SIZE
    {
      Used(rec) && !FoldEq(channel, Field(rec, CHANNEL, 50))
    }

    ghost predicate Hits(rec: string)
      requires |rec| == RECORD_SIZE
    {
      match kind
      case GetNick => Used(rec) && FoldEq(Field(rec, NICK, 80), info)
      case GetHostAndPassword => Used(rec) && HostFits(rec) && passwd == Field(rec, PASSWD, 20)
      case GetFirstFree => Free(rec)
      case _ => Used(rec) && HostFits(rec)
    }

    /** match() on the stored mask. */
    ghost predicate HostFits(rec: string)
      requires |rec| == RECORD_SIZE
    {
      Glob.Matches(info, Field(rec, MATCH, 80))
    }

    predicate FirstOnly() {
      kind == GetNick || kind == GetFirstHost || kind == GetHostAndPassword || kind == GetFirstFree
    }

    predicate CallsBack() {
      kind != CountHosts
    }
  }

  datatype Action = Fix(offset: nat) | Callback(offset: nat, rec: string, count: nat)

  datatype Progress = Progress(actions: seq<Action>, offset: nat, count: nat, ended: bool)

  const Start := Progress([], 0, 0, false)

  /** One record. */
  ghost function Examine(q: Request, p: Progress, rec: string): Progress
    requires |rec| == RECORD_SIZE
  {
    var next := p.offset + RECORD_SIZE;
    if q.Misplaced(rec) then Progress(p.actions + [Fix(p.offset)], next, p.count, false)
    else if !q.Hits(rec) then p.(offset := next)
    else
      Progress(if q.CallsBack() then p.actions + [Callback(p.offset, rec, p.count + 1)] else p.actions,
               next, p.count + 1,
               q.FirstOnly() || (q.CallsBack() && q.closes(p.count + 1)))
  }

  /** The complete records of `data`, in order, until the query ends. */
  ghost function Scan(q: Request, p: Progress, data: string): Progress
    decreases |data|
  {
    if p.ended || |data| < RECORD_SIZE then p
    else Scan(q, Examine(q, p, data[..RECORD_SIZE]), data[RECORD_SIZE..])
  }

  /** What the scan has not looked at. */
  ghost function Unread(q: Request, p: Progress, data: string): string
    decreases |data|
  {
    if p.ended || |data| < RECORD_SIZE then data
    else Unread(q, Examine(q, p, data[..RECORD_SIZE]), data[RECORD_SIZE..])
  }

  // --- the code -----------------------------------------------------------------------------------

  /** What one read() delivers. */
  datatype Chunk = Data(bytes: string) | TryAgain | EndOfFile

  class Query {
    const request: Request
    const pool: Pool
    const buf: Buffer
    var open: bool
    var offset: nat
    var count: nat
    var actions: seq<Action>
    // All bytes delivered by read() so far.
    ghost var delivered: string
    ghost var ended: bool

    ghost function Now(): Progress
      reads this
    {
      Progress(actions, offset, count, ended)
    }

    ghost predicate Valid()
      reads this, buf, buf.blocks, pool, pool.blocks
    {
      && request.Valid() && buf.Valid() && pool.Valid() && pool as object != buf && (ended ==> !open)
      && Now() == Scan(request, Start, delivered)
      && (!ended ==> buf.text == Unread(request, Start, delivered))
    }

    constructor (request: Request, pool: Pool)
      requires request.Valid() && pool.Valid()
      ensures Valid() && open && delivered == [] && !ended && this.request == request && this.pool == pool
    {
      this.request, this.pool := request, pool;
      buf := new Buffer();
      open, offset, count, actions, delivered, ended := true, 0, 0, [], [], false;
    }

    /** read_db(): one readiness of the file descriptor. */
    method ReadDb(chunk: Chunk)
      requires Valid() && open
      modifies this, buf, buf.blocks, pool, pool.blocks
      ensures Valid() && buf.Exchanged(pool)
      ensures delivered == old(delivered) + if chunk.Data? then chunk.bytes else []
    {
      if !chunk.Data? || chunk.bytes == [] {
        open := open && chunk.TryAgain?;
        return;
      }
      Receive(chunk.bytes);
      TakeRecords();
    }

    /** The bytes go into the buffer; the scan of all bytes is the scan so far, continued on them. */
    method Receive(bytes: string)
      requires Valid() && open && bytes != []
      modifies this`delivered, buf, buf.blocks, pool, pool.blocks
      ensures request.Valid() && buf.Valid() && pool.Valid() && buf.Exchanged(pool) && !ended
      ensures delivered == old(delivered) + bytes
      ensures Scan(request, Now(), buf.text) == Scan(request, Start, delivered)
      ensures Unread(request, Now(), buf.text) == Unread(request, Start, delivered)
    {
      ScanAppend(request, Start, delivered, bytes);
      var _ := buf.CopyTo(pool, bytes, |bytes|);
      assert bytes[..|bytes|] == bytes;
      delivered := delivered + bytes;
    }

    /** The loop over the complete records in the buffer. */
    method TakeRecords()
      requires request.Valid() && buf.Valid() && pool.Valid() && pool as object != buf && !ended
      modifies this`open, this`offset, this`count, this`actions, this`ended, buf, buf.blocks, pool, pool.blocks
      ensures buf.Valid() && pool.Valid() && buf.Returned(pool) && (ended ==> !open)
      ensures Now() == Scan(request, old(Now()), old(buf.text))
      ensures buf.text == Unread(request, old(Now()), old(buf.text))
    {
      var more := true;
      while more
        invariant buf.Valid() && pool.Valid() && buf.Returned(pool) && (ended ==> !open && !more)
        invariant Scan(request, Now(), buf.text) == old(Scan(request, Now(), buf.text))
        invariant Unread(request, Now(), buf.text) == old(Unread(request, Now(), buf.text))
        invariant !more ==> ended || |buf.text| < RECORD_SIZE
        decreases |buf.text|, more
      {
        more := NextRecord();
      }
    }

    /** One turn of the loop: the next complete record, if there is one. */
    method NextRecord() returns (more: bool)
      requires request.Valid() && buf.Valid() && pool.Valid() && pool as object != buf && !ended
      modifies this`open, this`offset, this`count, this`actions, this`ended, buf, buf.blocks, pool, pool.blocks
      ensures buf.Valid() && pool.Valid() && buf.Returned(pool) && (ended ==> !open && !more)
      ensures if |old(buf.text)| < RECORD_SIZE
              then !more && Now() == old(Now()) && buf.text == old(buf.text)
              else Now() == Examine(request, old(Now()), old(buf.text)[..RECORD_SIZE])
                   && buf.text == old(buf.text)[RECORD_SIZE..] && more == !ended
    {
      var size, rec := buf.Look(pool, NUL, RECORD_SIZE);
      TakenWithoutStop(buf.text, RECORD_SIZE);
      if size != RECORD_SIZE {
        return false;
      }
      more := Process(rec);
      var _ := buf.Skip(pool, RECORD_SIZE);
    }

    /** What the loop does with one record. */
    method Process(rec: string) returns (more: bool)
      requires |rec| == RECORD_SIZE && request.Valid() && !ended
      modifies this`open, this`offset, this`count, this`actions, this`ended
      ensures Now() == Examine(request, old(Now()), rec) && more == !ended && (ended ==> !open)
    {
      more := true;
      if Used(rec) && !FoldEq(request.channel, Field(rec, CHANNEL, 50)) {
        actions := actions + [Fix(offset)];
      } else {
        var hit := IsHit(rec);
        if hit {
          more := Report(rec);
        }
      }
      offset := offset + RECORD_SIZE;
    }

    /** A hit is counted and reported, and may end the query. */
    method Report(rec: string) returns (more: bool)
      requires !ended
      modifies this`open, this`count, this`actions, this`ended
      ensures count == old(count) + 1 && more == !ended && (ended ==> !open)
      ensures ended == (request.FirstOnly() || (request.CallsBack() && request.closes(count)))
      ensures actions == old(actions) + if request.CallsBack() then [Callback(offset, rec, count)] else []
    {
      more := true;
      count := count + 1;
      if request.CallsBack() {
        actions := actions + [Callback(offset, rec, count)];
      }
      if request.FirstOnly() || (request.CallsBack() && request.closes(count)) {
        open, ended, more := false, true, false;
      }
    }

    method IsHit(rec: string) returns (hit: bool)
      requires |rec| == RECORD_SIZE && request.Valid()
      ensures hit <==> request.Hits(rec)
    {
      if request.kind == GetNick {
        hit := Used(rec) && FoldEq(Field(rec, NICK, 80), request.info);
      } else if request.kind == GetFirstFree {
        hit := Free(rec);
      } else {
        var r := Glob.Match(request.info, Field(rec, MATCH, 80));
        hit := Used(rec) && r == 1;
        if request.kind == GetHostAndPassword {
          hit := hit && request.passwd == Field(rec, PASSWD, 20);
        }
      }
    }
  }

  // --- properties of the scan -----------------------------------------------------------------------

  /** Bytes that arrive later are scanned as if they had been there from the beginning. */
  lemma {:induction false} ScanAppend(q: Request, p: Progress, data: string, more: string)
    ensures var p', rest := Scan(q, p, data), Unread(q, p, data);
            Scan(q, p, data + more) == Scan(q, p', rest + more)
            && Unread(q, p, data + more) == Unread(q, p', rest + more)
    decreases |data|
  {
    if !p.ended && |data| >= RECORD_SIZE {
      assert (data + more)[..RECORD_SIZE] == data[..RECORD_SIZE];
      assert (data + more)[RECORD_SIZE..] == data[RECORD_SIZE..] + more;
      ScanAppend(q, Examine(q, p, data[..RECORD_SIZE]), data[RECORD_SIZE..], more);
    }
  }

  /** The complete records of the file so far. */
  function Records(data: string): (recs: seq<string>)
    ensures |recs| == |data| / RECORD_SIZE && forall k | 0 <= k < |recs| :: |recs[k]| == RECORD_SIZE
    decreases |data|
  {
    if |data| < RECORD_SIZE then [] else [data[..RECORD_SIZE]] + Records(data[RECORD_SIZE..])
  }

  /** Record `k` is what the file holds from byte `k * RECORD_SIZE` on. */
  lemma {:induction false} RecordIsSlice(data: string, k: nat)
    requires k < |Records(data)|
    ensures (k + 1) * RECORD_SIZE <= |data|
    ensures Records(data)[k] == data[k * RECORD_SIZE..(k + 1) * RECORD_SIZE]
    decreases k
  {
    if k > 0 {
      RecordIsSlice(data[RECORD_SIZE..], k - 1);
    }
  }

  ghost function ExamineAll(q: Request, p: Progress, recs: seq<string>): Progress
    requires forall k | 0 <= k < |recs| :: |recs[k]| == RECORD_SIZE
    decreases |recs|
  {
    if p.ended || recs == [] then p else ExamineAll(q, Examine(q, p, recs[0]), recs[1..])
  }

  lemma {:induction false} ExamineLast(q: Request, p: Progress, front: seq<string>, last: string)
    requires |last| == RECORD_SIZE && forall k | 0 <= k < |front| :: |front[k]| == RECORD_SIZE
    ensures var p' := ExamineAll(q, p, front);
            ExamineAll(q, p, front + [last]) == if p'.ended then p' else Examine(q, p', last)
    decreases |front|
  {
    if front == [] {
      assert front + [last] == [last];
    } else if !p.ended {
      assert (front + [last])[1..] == front[1..] + [last];
      ExamineLast(q, Examine(q, p, front[0]), front[1..], last);
    }
  }

  /** Framing: whole records are examined from the front, the rest stays unread. */
  lemma {:induction false} ScanIsFramed(q: Request, p: Progress, data: string)
    ensures Scan(q, p, data) == ExamineAll(q, p, Records(data))
    ensures var p', rest := Scan(q, p, data), Unread(q, p, data);
            && |rest| <= |data| && rest == data[|data| - |rest|..]
            && p'.offset == p.offset + |data| - |rest| && (!p'.ended ==> |rest| < RECORD_SIZE)
    decreases |data|
  {
    if |data| >= RECORD_SIZE {
      if !p.ended {
        ScanIsFramed(q, Examine(q, p, data[..RECORD_SIZE]), data[RECORD_SIZE..]);
      }
    }
  }

  ghost predicate Matches(q: Request, rec: string) {
    |rec| == RECORD_SIZE && !q.Misplaced(rec) && q.Hits(rec)
  }

  /** The action reports record `k`, at its offset in the file. */
  ghost predicate Reports(q: Request, recs: seq<string>, a: Action, k: int) {
    && 0 <= k < |recs| && a.offset == k * RECORD_SIZE && |recs[k]| == RECORD_SIZE
    && match a
       case Fix(_) => q.Misplaced(recs[k])
       case Callback(_, r, _) => r == recs[k] && Matches(q, r)
  }

  /** As long as the query goes on, record `k` is examined at offset `k * RECORD_SIZE`; every
      action reports one record, and the actions are in the order of the records. */
  lemma {:induction false} ActionsAreFramed(q: Request, recs: seq<string>)
    requires forall k | 0 <= k < |recs| :: |recs[k]| == RECORD_SIZE
    ensures Framed(q, recs, ExamineAll(q, Start, recs))
    decreases |recs|
  {
    if recs != [] {
      var front, last := recs[..|recs| - 1], recs[|recs| - 1];
      assert recs == front + [last];
      ActionsAreFramed(q, front);
      ExamineLast(q, Start, front, last);
      FramedStep(q, front, last, ExamineAll(q, Start, front));
    }
  }

  ghost predicate Framed(q: Request, recs: seq<string>, p: Progress) {
    && (!p.ended ==> p.offset == |recs| * RECORD_SIZE)
    && p.offset <= |recs| * RECORD_SIZE
    && (forall i | 0 <= i < |p.actions| :: p.actions[i].offset < p.offset && ReportsOne(q, recs, p.actions[i]))
    && (forall i, j | 0 <= i < j < |p.actions| :: p.actions[i].offset < p.actions[j].offset)
  }

  ghost predicate ReportsOne(q: Request, recs: seq<string>, a: Action) {
    exists k :: Reports(q, recs, a, k)
  }

  lemma StillReports(q: Request, front: seq<string>, last: string, a: Action)
    requires ReportsOne(q, front, a)
    ensures ReportsOne(q, front + [last], a)
  {
    var k :| Reports(q, front, a, k);
    assert Reports(q, front + [last], a, k);
  }

  /** One more record adds at most one action, which reports that record. */
  lemma NewAction(q: Request, front: seq<string>, last: string, p: Progress)
    requires |last| == RECORD_SIZE && p.offset == |front| * RECORD_SIZE
    ensures var p' := Examine(q, p, last);
      && p'.offset == p.offset + RECORD_SIZE
      && (p'.actions == p.actions
          || exists a :: p'.actions == p.actions + [a] && a.offset == p.offset && ReportsOne(q, front + [last], a))
  {
    var p' := Examine(q, p, last);
    if p'.actions != p.actions {
      var a := p'.actions[|p.actions|];
      assert p'.actions == p.actions + [a] && Reports(q, front + [last], a, |front|);
    }
  }

  lemma FramedStep(q: Request, front: seq<string>, last: string, p: Progress)
    requires Framed(q, front, p) && |last| == RECORD_SIZE
    ensures Framed(q, front + [last], if p.ended then p else Examine(q, p, last))
  {
    forall i | 0 <= i < |p.actions| ensures ReportsOne(q, front + [last], p.actions[i]) {
      StillReports(q, front, last, p.actions[i]);
    }
    if !p.ended {
      NewAction(q, front, last, p);
    }
  }

  /** The query has ended at the first matching record, or no record matches so far. */
  ghost predicate FirstFound(q: Request, recs: seq<string>, p: Progress) {
    if p.ended then
      exists k :: 0 <= k < |recs| && FirstMatch(q, recs, k)
        && p.actions != [] && p.actions[|p.actions| - 1] == Callback(k * RECORD_SIZE, recs[k], 1)
    else p.count == 0 && forall k | 0 <= k < |recs| :: !Matches(q, recs[k])
  }

  ghost predicate FirstMatch(q: Request, recs: seq<string>, k: int)
    requires 0 <= k < |recs|
  {
    Matches(q, recs[k]) && forall j | 0 <= j < k :: !Matches(q, recs[j])
  }

  lemma FirstStep(q: Request, front: seq<string>, last: string, p: Progress)
    requires q.FirstOnly() && |last| == RECORD_SIZE && FirstFound(q, front, p)
    requires !p.ended ==> p.offset == |front| * RECORD_SIZE
    ensures FirstFound(q, front + [last], if p.ended then p else Examine(q, p, last))
  {
    var recs := front + [last];
    assert forall k | 0 <= k < |front| :: recs[k] == front[k];
    if p.ended {
      var k :| 0 <= k < |front| && FirstMatch(q, front, k)
        && p.actions[|p.actions| - 1] == Callback(k * RECORD_SIZE, front[k], 1);
      assert FirstMatch(q, recs, k);
    } else if Matches(q, last) {
      assert FirstMatch(q, recs, |front|);
    }
  }

  /** A query for the first hit ends at the first matching record of the file, whatever the
      pieces in which the file was read; as long as it goes on, no record so far matches. */
  lemma {:induction false} FirstHit(q: Request, recs: seq<string>)
    requires q.kind in {GetNick, GetFirstHost, GetHostAndPassword, GetFirstFree}
    requires forall k | 0 <= k < |recs| :: |recs[k]| == RECORD_SIZE
    ensures FirstFound(q, recs, ExamineAll(q, Start, recs))
    decreases |recs|
  {
    if recs != [] {
      var front, last := recs[..|recs| - 1], recs[|recs| - 1];
      assert recs == front + [last];
      FirstHit(q, front);
      ActionsAreFramed(q, front);
      ExamineLast(q, Start, front, last);
      FirstStep(q, front, last, ExamineAll(q, Start, front));
    }
  }

  /** The record at this offset was handed to the callback. */
  ghost predicate Reported(actions: seq<Action>, offset: nat, rec: string) {
    exists n :: Callback(offset, rec, n) in actions
  }

  ghost predicate AllFound(q: Request, recs: seq<string>, p: Progress) {
    !p.ended && forall k | 0 <= k < |recs| :: Matches(q, recs[k]) <==> Reported(p.actions, k * RECORD_SIZE, recs[k])
  }

  /** What is reported at an earlier offset is what was reported before. */
  lemma OldReports(q: Request, p: Progress, last: string, offset: nat, rec: string)
    requires |last| == RECORD_SIZE && offset < p.offset
    ensures Reported(Examine(q, p, last).actions, offset, rec) <==> Reported(p.actions, offset, rec)
  {
    var p' := Examine(q, p, last);
    if n :| Callback(offset, rec, n) in p'.actions {
      assert Callback(offset, rec, n) in p.actions;
    }
    if n :| Callback(offset, rec, n) in p.actions {
      assert Callback(offset, rec, n) in p'.actions;
    }
  }

  /** The record examined is reported at its offset exactly if it matches. */
  lemma NewReport(q: Request, p: Progress, rec: string)
    requires q.CallsBack() && |rec| == RECORD_SIZE
    requires forall i | 0 <= i < |p.actions| :: p.actions[i].offset < p.offset
    ensures Matches(q, rec) <==> Reported(Examine(q, p, rec).actions, p.offset, rec)
  {
    var p' := Examine(q, p, rec);
    if Matches(q, rec) {
      assert p'.actions[|p.actions|] == Callback(p.offset, rec, p.count + 1);
    }
  }

  lemma AllStep(q: Request, front: seq<string>, last: string, p: Progress)
    requires q.kind == GetAllHosts && (forall n :: !q.closes(n)) && |last| == RECORD_SIZE
    requires AllFound(q, front, p) && Framed(q, front, p)
    ensures AllFound(q, front + [last], Examine(q, p, last))
  {
    var recs, p' := front + [last], Examine(q, p, last);
    forall k | 0 <= k < |recs|
      ensures Matches(q, recs[k]) <==> Reported(p'.actions, k * RECORD_SIZE, recs[k])
    {
      if k < |front| {
        assert recs[k] == front[k] && k * RECORD_SIZE < p.offset;
        OldReports(q, p, last, k * RECORD_SIZE, front[k]);
      } else {
        NewReport(q, p, last);
      }
    }
  }

  /** A query for all hits whose callback lets it run reports exactly the matching records. */
  lemma {:induction false} AllHits(q: Request, recs: seq<string>)
    requires q.kind == GetAllHosts && (forall n :: !q.closes(n))
    requires forall k | 0 <= k < |recs| :: |recs[k]| == RECORD_SIZE
    ensures AllFound(q, recs, ExamineAll(q, Start, recs))
    decreases |recs|
  {
    if recs != [] {
      var front, last := recs[..|recs| - 1], recs[|recs| - 1];
      assert recs == front + [last];
      AllHits(q, front);
      ActionsAreFramed(q, front);
      ExamineLast(q, Start, front, last);
      AllStep(q, front, last, ExamineAll(q, Start, front));
    }
  }

  /** How many of the records match. */
  ghost function HowMany(q: Request, recs: seq<string>): nat {
    if recs == [] then 0
    else HowMany(q, recs[..|recs| - 1]) + if Matches(q, recs[|recs| - 1]) then 1 else 0
  }

  /** A query that counts hosts counts the matching records, whatever its callback would say; it reads to the end
      of the file and reports no record. */
  lemma {:induction false} HostsCounted(q: Request, recs: seq<string>)
    requires q.kind == CountHosts && forall k | 0 <= k < |recs| :: |recs[k]| == RECORD_SIZE
    ensures var p := ExamineAll(q, Start, recs);
      !p.ended && p.count == HowMany(q, recs) && forall i | 0 <= i < |p.actions| :: p.actions[i].Fix?
    decreases |recs|
  {
    if recs != [] {
      var front, last := recs[..|recs| - 1], recs[|recs| - 1];
      assert recs == front + [last];
      HostsCounted(q, front);
      ExamineLast(q, Start, front, last);
    }
  }

  /** Of the records examined so far, exactly those of another channel are repaired. */
  ghost predicate Repaired(q: Request, recs: seq<string>, p: Progress)
    requires forall k | 0 <= k < |recs| :: |recs[k]| == RECORD_SIZE
  {
    forall k | 0 <= k < |recs| && k * RECORD_SIZE < p.offset ::
      q.Misplaced(recs[k]) <==> Fix(k * RECORD_SIZE) in p.actions
  }

  lemma RepairStep(q: Request, front: seq<string>, last: string, p: Progress)
    requires |last| == RECORD_SIZE && forall k | 0 <= k < |front| :: |front[k]| == RECORD_SIZE
    requires Repaired(q, front, p) && Framed(q, front, p) && !p.ended
    ensures Repaired(q, front + [last], Examine(q, p, last))
  {
    var recs, p' := front + [last], Examine(q, p, last);
    forall k | 0 <= k < |recs| ensures q.Misplaced(recs[k]) <==> Fix(k * RECORD_SIZE) in p'.actions {
      assert forall i | 0 <= i < |p.actions| :: p'.actions[i] == p.actions[i] && p.actions[i].offset < p.offset;
      if k < |front| {
        assert recs[k] == front[k] && k * RECORD_SIZE < p.offset;
      } else {
        assert q.Misplaced(last) ==> p'.actions[|p.actions|] == Fix(p.offset);
      }
    }
  }

  lemma {:induction false} AllRepaired(q: Request, recs: seq<string>)
    requires forall k | 0 <= k < |recs| :: |recs[k]| == RECORD_SIZE
    ensures Repaired(q, recs, ExamineAll(q, Start, recs))
    decreases |recs|
  {
    if recs != [] {
      var front, last := recs[..|recs| - 1], recs[|recs| - 1];
      assert recs == front + [last];
      AllRepaired(q, front);
      ActionsAreFramed(q, front);
      ExamineLast(q, Start, front, last);
      if ExamineAll(q, Start, front).ended {
        assert ExamineAll(q, Start, front).offset <= |front| * RECORD_SIZE;
        assert forall k | 0 <= k < |front| :: recs[k] == front[k];
      } else {
        RepairStep(q, front, last, ExamineAll(q, Start, front));
      }
    }
  }
}
