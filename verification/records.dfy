// What a query sees of a channel's file: the bytes of struct dbuser (Sources/struct.h) that
// make_dbuser() fills in, and what read_db() of Sources/dbio.c makes of them.
module Records {

  import opened CaseFold
  import opened UserDb
  import Glob
  import Query = DbQuery

  // --- the bytes ---------------------------------------------------------------------------------------

  /** What a string leaves in a field that was cleared before. */
  function Padded(s: string, size: nat): (r: string)
    requires |s| <= size
    ensures |r| == size
  {
    s + seq(size - |s|, _ => '\0')
  }

  /** struct dbuser, member by member: header, nick, match, passwd, channel, modif, the numbers, footer. */
  function Bytes(r: DbUser, numbers: string): (bytes: string)
    requires Storable(r) && |numbers| == 32
    ensures |bytes| == 352
  {
    "\U{FF}\U{FF}" + (Padded(r.nick, 80) + (Padded(r.mask, 80) + (Padded(r.passwd, 20) + (Padded(r.channel, 50)
    + (Padded(r.modif, 80) + (numbers + ("\U{FF}\U{FF}" + Padded("", 6))))))))
  }

  /** One slot of the file; `numbers` is what its access, flags and times are on this machine. */
  function Image(s: Slot, numbers: string): (bytes: string)
    requires (s.Used? ==> Storable(s.rec)) && |numbers| == 32
    ensures |bytes| == 352
  {
    if s.Used? then Bytes(s.rec, numbers) else Padded("", 352)
  }

  /** The strings of a record end where C says they end. */
  predicate Strings(r: DbUser) {
    NulFree(r.nick) && NulFree(r.mask) && NulFree(r.passwd) && NulFree(r.channel) && NulFree(r.modif)
  }

  // --- reading one record ------------------------------------------------------------------------------

  lemma {:induction false} CStringEnds(s: string, rest: string)
    requires NulFree(s) && rest != [] && rest[0] == '\0'
    ensures Query.CString(s + rest) == s
  {
    if s == [] {
      assert s + rest == rest;
    } else {
      assert (s + rest)[1..] == s[1..] + rest;
      CStringEnds(s[1..], rest);
    }
  }

  /** A field at the front reads as the string in it. */
  lemma FieldReads(s: string, size: nat, behind: string)
    requires NulFree(s) && |s| < size
    ensures Query.Field(Padded(s, size) + behind, 0, size) == s
  {
    assert (Padded(s, size) + behind)[0..size] == Padded(s, size);
    CStringEnds(s, seq(size - |s|, _ => '\0'));
  }

  /** What stands in front of a field only moves it. */
  lemma FieldMoves(before: string, rec: string, from: nat, size: nat)
    requires from + size <= |rec|
    ensures Query.Field(before + rec, |before| + from, size) == Query.Field(rec, from, size)
  {
    assert (before + rec)[|before| + from..|before| + from + size] == rec[from..from + size];
  }

  lemma Reads(before: string, s: string, size: nat, behind: string)
    requires NulFree(s) && |s| < size
    ensures Query.Field(before + (Padded(s, size) + behind), |before|, size) == s
  {
    FieldMoves(before, Padded(s, size) + behind, 0, size);
    FieldReads(s, size, behind);
  }

  /** Three fields in a row, and whatever follows. */
  lemma ThreeFields(s: string, k: nat, t: string, m: nat, u: string, n: nat, behind: string)
    requires NulFree(s) && |s| < k && NulFree(t) && |t| < m && NulFree(u) && |u| < n
    ensures var rec := Padded(s, k) + (Padded(t, m) + (Padded(u, n) + behind));
      Query.Field(rec, 0, k) == s && Query.Field(rec, k, m) == t && Query.Field(rec, k + m, n) == u
  {
    var third := Padded(u, n) + behind;
    FieldReads(s, k, Padded(t, m) + third);
    Reads(Padded(s, k), t, m, third);
    Reads(Padded(t, m), u, n, behind);
    FieldMoves(Padded(s, k), Padded(t, m) + third, m, n);
  }

  /** All fields, behind the header. */
  lemma FrontReads(r: DbUser, rest: string)
    requires Storable(r) && Strings(r)
    ensures var front := Padded(r.nick, 80) + (Padded(r.mask, 80) + (Padded(r.passwd, 20)
                         + (Padded(r.channel, 50) + (Padded(r.modif, 80) + rest))));
      && Query.Field(front, 0, 80) == r.nick && Query.Field(front, 80, 80) == r.mask
      && Query.Field(front, 160, 20) == r.passwd && Query.Field(front, 180, 50) == r.channel
      && Query.Field(front, 230, 80) == r.modif
  {
    var back := Padded(r.channel, 50) + (Padded(r.modif, 80) + rest);
    var front := Padded(r.nick, 80) + (Padded(r.mask, 80) + (Padded(r.passwd, 20) + back));
    ThreeFields(r.passwd, 20, r.channel, 50, r.modif, 80, rest);
    ThreeFields(r.nick, 80, r.mask, 80, r.passwd, 20, back);
    BackMoves(r, front, back, 20, 50);
    BackMoves(r, front, back, 70, 80);
  }

  /** Each string can be read back at its place. */
  lemma FieldsRead(r: DbUser, numbers: string)
    requires Storable(r) && Strings(r) && |numbers| == 32
    ensures var rec := Bytes(r, numbers);
      && Query.Field(rec, Query.NICK, 80) == r.nick && Query.Field(rec, Query.MATCH, 80) == r.mask
      && Query.Field(rec, Query.PASSWD, 20) == r.passwd && Query.Field(rec, Query.CHANNEL, 50) == r.channel
      && Query.Field(rec, Query.MODIF, 80) == r.modif
  {
    var rest := numbers + ("\U{FF}\U{FF}" + Padded("", 6));
    FrontReads(r, rest);
    var front := Padded(r.nick, 80) + (Padded(r.mask, 80) + (Padded(r.passwd, 20)
                 + (Padded(r.channel, 50) + (Padded(r.modif, 80) + rest))));
    HeaderMoves(front, 0, 80);
    HeaderMoves(front, 80, 80);
    HeaderMoves(front, 160, 20);
    HeaderMoves(front, 180, 50);
    HeaderMoves(front, 230, 80);
  }

  lemma HeaderMoves(front: string, from: nat, size: nat)
    requires from + size <= |front|
    ensures Query.Field("\U{FF}\U{FF}" + front, 2 + from, size) == Query.Field(front, from, size)
  {
    FieldMoves("\U{FF}\U{FF}", front, from, size);
  }

  lemma BackMoves(r: DbUser, front: string, back: string, from: nat, size: nat)
    requires Storable(r) && from + size <= 20 + |back|
    requires front == Padded(r.nick, 80) + (Padded(r.mask, 80) + (Padded(r.passwd, 20) + back))
    ensures Query.Field(front, 160 + from, size) == Query.Field(Padded(r.passwd, 20) + back, from, size)
  {
    var third := Padded(r.passwd, 20) + back;
    FieldMoves(Padded(r.mask, 80), third, from, size);
    FieldMoves(Padded(r.nick, 80), Padded(r.mask, 80) + third, 80 + from, size);
  }

  // --- what a query makes of it --------------------------------------------------------------------------

  /** The first two and the last bytes that are used say whether the record is. */
  lemma Marked(s: Slot, numbers: string)
    requires (s.Used? ==> Storable(s.rec)) && |numbers| == 32
    ensures Query.Used(Image(s, numbers)) <==> s.Used?
    ensures Query.Free(Image(s, numbers)) <==> s.Free?
  {
    if s.Used? {
      Marks(s.rec, numbers);
    }
  }

  lemma Marks(r: DbUser, numbers: string)
    requires Storable(r) && |numbers| == 32
    ensures var rec := Bytes(r, numbers);
      rec[0] == rec[1] == '\U{FF}' && rec[344] == rec[345] == '\U{FF}'
  {
    var fields := Padded(r.nick, 80) + (Padded(r.mask, 80) + (Padded(r.passwd, 20) + (Padded(r.channel, 50)
                  + (Padded(r.modif, 80) + (numbers + ("\U{FF}\U{FF}" + Padded("", 6)))))));
    assert Bytes(r, numbers) == "\U{FF}\U{FF}" + fields;
  }

  /** What the query looks for, said of the record and not of its bytes. */
  ghost predicate Wanted(q: Query.Request, s: Slot) {
    match q.kind
    case GetNick => s.Used? && FoldEq(s.rec.channel, q.channel) && FoldEq(s.rec.nick, q.info)
    case GetHostAndPassword =>
      s.Used? && FoldEq(s.rec.channel, q.channel) && Glob.Matches(q.info, s.rec.mask) && s.rec.passwd == q.passwd
    case GetFirstFree => s.Free?
    case _ => s.Used? && FoldEq(s.rec.channel, q.channel) && Glob.Matches(q.info, s.rec.mask)
  }

  /** These bytes show this slot. */
  predicate Shown(rec: string, s: Slot) {
    && |rec| == Query.RECORD_SIZE && Query.Used(rec) == s.Used? && Query.Free(rec) == s.Free?
    && (s.Used? ==>
          && Query.Field(rec, Query.NICK, 80) == s.rec.nick && Query.Field(rec, Query.MATCH, 80) == s.rec.mask
          && Query.Field(rec, Query.PASSWD, 20) == s.rec.passwd && Query.Field(rec, Query.CHANNEL, 50) == s.rec.channel
          && Query.Field(rec, Query.MODIF, 80) == s.rec.modif)
  }

  lemma ImageShows(s: Slot, numbers: string)
    requires (s.Used? ==> Storable(s.rec) && Strings(s.rec)) && |numbers| == 32
    ensures Shown(Image(s, numbers), s)
  {
    Marked(s, numbers);
    if s.Used? {
      FieldsRead(s.rec, numbers);
    }
  }

  /** The query takes the bytes for what the slot is. */
  ghost predicate Seen(q: Query.Request, rec: string, s: Slot) {
    Query.Matches(q, rec) <==> Wanted(q, s)
  }

  ghost predicate AllSeen(q: Query.Request, recs: seq<string>, file: seq<Slot>) {
    |recs| == |file| && forall k {:trigger Seen(q, recs[k], file[k])} | 0 <= k < |file| :: Seen(q, recs[k], file[k])
  }

  /** A record of another channel. */
  ghost predicate Stray(q: Query.Request, s: Slot) {
    s.Used? && !FoldEq(s.rec.channel, q.channel)
  }

  lemma QuerySees(q: Query.Request, rec: string, s: Slot)
    requires Shown(rec, s)
    ensures Seen(q, rec, s) && (q.Misplaced(rec) <==> Stray(q, s))
  {
  }

  // --- a whole file --------------------------------------------------------------------------------------

  ghost predicate Stored(file: seq<Slot>, numbers: seq<string>) {
    && |numbers| == |file|
    && forall k | 0 <= k < |file| ::
         |numbers[k]| == 32 && (file[k].Used? ==> Storable(file[k].rec) && Strings(file[k].rec))
  }

  ghost function FileBytes(file: seq<Slot>, numbers: seq<string>): string
    requires Stored(file, numbers)
  {
    if file == [] then [] else Image(file[0], numbers[0]) + FileBytes(file[1..], numbers[1..])
  }

  lemma RecordsCons(first: string, rest: string)
    requires |first| == 352
    ensures Query.Records(first + rest) == [first] + Query.Records(rest)
  {
    assert (first + rest)[..352] == first && (first + rest)[352..] == rest;
  }

  ghost predicate AllShown(recs: seq<string>, file: seq<Slot>) {
    |recs| == |file| && forall k {:trigger Shown(recs[k], file[k])} | 0 <= k < |file| :: Shown(recs[k], file[k])
  }

  lemma ShownCons(rec: string, recs: seq<string>, s: Slot, file: seq<Slot>)
    requires Shown(rec, s) && AllShown(recs, file)
    ensures AllShown([rec] + recs, [s] + file)
  {
    forall k | 0 <= k <= |file| ensures Shown(([rec] + recs)[k], ([s] + file)[k]) {
      assert k > 0 ==> Shown(recs[k - 1], file[k - 1]);
    }
  }

  /** The records a query cuts out of the file are its slots. */
  lemma {:induction false} FileRecords(file: seq<Slot>, numbers: seq<string>)
    requires Stored(file, numbers)
    ensures AllShown(Query.Records(FileBytes(file, numbers)), file)
  {
    if file != [] {
      var rest := FileBytes(file[1..], numbers[1..]);
      RecordsCons(Image(file[0], numbers[0]), rest);
      ImageShows(file[0], numbers[0]);
      FileRecords(file[1..], numbers[1..]);
      ShownCons(Image(file[0], numbers[0]), Query.Records(rest), file[0], file[1..]);
      assert [file[0]] + file[1..] == file;
    }
  }

  /** What the query has done when it has read the whole file. */
  ghost function Outcome(q: Query.Request, file: seq<Slot>, numbers: seq<string>): Query.Progress
    requires Stored(file, numbers)
  {
    Query.Scan(q, Query.Start, FileBytes(file, numbers))
  }

  lemma Outcomes(q: Query.Request, file: seq<Slot>, numbers: seq<string>) returns (recs: seq<string>)
    requires Stored(file, numbers)
    ensures AllSeen(q, recs, file) && AllShown(recs, file)
    ensures forall k | 0 <= k < |file| :: |recs[k]| == Query.RECORD_SIZE
    ensures forall k {:trigger Stray(q, file[k])} | 0 <= k < |file| :: q.Misplaced(recs[k]) <==> Stray(q, file[k])
    ensures Outcome(q, file, numbers) == Query.ExamineAll(q, Query.Start, recs)
  {
    recs := Query.Records(FileBytes(file, numbers));
    FileRecords(file, numbers);
    Query.ScanIsFramed(q, Query.Start, FileBytes(file, numbers));
    forall k | 0 <= k < |file| ensures Seen(q, recs[k], file[k]) && (q.Misplaced(recs[k]) <==> Stray(q, file[k])) {
      QuerySees(q, recs[k], file[k]);
    }
  }

  /** The query hands the bytes of slot `k` to its callback, as number `n`. */
  ghost predicate Hands(p: Query.Progress, file: seq<Slot>, k: int, n: nat)
    requires 0 <= k < |file|
  {
    exists rec :: Shown(rec, file[k]) && Query.Callback(k * 352, rec, n) in p.actions
  }

  lemma HandsOver(p: Query.Progress, file: seq<Slot>, k: int, n: nat, rec: string)
    requires 0 <= k < |file| && Shown(rec, file[k]) && Query.Callback(k * 352, rec, n) in p.actions
    ensures Hands(p, file, k, n)
  {
  }

  /** Slot `k` is the first that is wanted. */
  ghost predicate FirstWanted(q: Query.Request, file: seq<Slot>, k: int)
    requires 0 <= k < |file|
  {
    Wanted(q, file[k]) && forall j | 0 <= j < k :: !Wanted(q, file[j])
  }

  lemma SameFirst(q: Query.Request, recs: seq<string>, file: seq<Slot>, k: int)
    requires AllSeen(q, recs, file)
    requires 0 <= k < |file| && Query.FirstMatch(q, recs, k)
    ensures FirstWanted(q, file, k)
  {
    forall j | 0 <= j <= k ensures Wanted(q, file[j]) <==> Query.Matches(q, recs[j]) {
      assert Seen(q, recs[j], file[j]);
    }
  }

  /** A query for one record ends at the first slot that is wanted, and only there. */
  lemma FirstOfFile(q: Query.Request, file: seq<Slot>, numbers: seq<string>)
    requires Stored(file, numbers)
    requires q.kind in {Query.GetNick, Query.GetFirstHost, Query.GetHostAndPassword, Query.GetFirstFree}
    ensures var p := Outcome(q, file, numbers);
      if p.ended then exists k | 0 <= k < |file| :: FirstWanted(q, file, k) && Hands(p, file, k, 1)
      else forall k | 0 <= k < |file| :: !Wanted(q, file[k])
  {
    var recs := Outcomes(q, file, numbers);
    Query.FirstHit(q, recs);
    var p := Outcome(q, file, numbers);
    if p.ended {
      FirstHanded(q, recs, file, p);
    } else {
      forall k | 0 <= k < |file| ensures !Wanted(q, file[k]) {
        assert Seen(q, recs[k], file[k]);
      }
    }
  }

  lemma FirstHanded(q: Query.Request, recs: seq<string>, file: seq<Slot>, p: Query.Progress)
    requires AllSeen(q, recs, file)
    requires AllShown(recs, file)
    requires p.ended && Query.FirstFound(q, recs, p)
    ensures exists k | 0 <= k < |file| :: FirstWanted(q, file, k) && Hands(p, file, k, 1)
  {
    var k :| 0 <= k < |recs| && Query.FirstMatch(q, recs, k)
      && p.actions != [] && p.actions[|p.actions| - 1] == Query.Callback(k * Query.RECORD_SIZE, recs[k], 1);
    SameFirst(q, recs, file, k);
    assert Shown(recs[k], file[k]);
    HandsOver(p, file, k, 1, recs[k]);
  }

  lemma HandedIff(q: Query.Request, recs: seq<string>, file: seq<Slot>, p: Query.Progress, k: nat)
    requires AllSeen(q, recs, file) && AllShown(recs, file) && k < |file|
    requires Query.AllFound(q, recs, p) && Query.Framed(q, recs, p)
    ensures Wanted(q, file[k]) <==> exists n :: Hands(p, file, k, n)
  {
    assert Seen(q, recs[k], file[k]) && Shown(recs[k], file[k]);
    if Wanted(q, file[k]) {
      assert Query.Reported(p.actions, k * Query.RECORD_SIZE, recs[k]);
      var n :| Query.Callback(k * Query.RECORD_SIZE, recs[k], n) in p.actions;
      HandsOver(p, file, k, n, recs[k]);
    }
    if n :| Hands(p, file, k, n) {
      var rec :| Shown(rec, file[k]) && Query.Callback(k * 352, rec, n) in p.actions;
      assert Query.ReportsOne(q, recs, Query.Callback(k * 352, rec, n));
    }
  }

  /** A query for all hosts that its callback lets run hands over exactly the slots that are wanted. */
  lemma AllOfFile(q: Query.Request, file: seq<Slot>, numbers: seq<string>)
    requires Stored(file, numbers) && q.kind == Query.GetAllHosts && forall n :: !q.closes(n)
    ensures var p := Outcome(q, file, numbers);
      forall k | 0 <= k < |file| :: Wanted(q, file[k]) <==> exists n :: Hands(p, file, k, n)
  {
    var recs := Outcomes(q, file, numbers);
    Query.AllHits(q, recs);
    Query.ActionsAreFramed(q, recs);
    forall k | 0 <= k < |file|
      ensures Wanted(q, file[k]) <==> exists n :: Hands(Outcome(q, file, numbers), file, k, n)
    {
      HandedIff(q, recs, file, Outcome(q, file, numbers), k);
    }
  }

  /** Of the slots read so far, exactly the records of other channels are repaired, whatever is asked. */
  lemma StraysOfFile(q: Query.Request, file: seq<Slot>, numbers: seq<string>)
    requires Stored(file, numbers)
    ensures var p := Outcome(q, file, numbers);
      forall k | 0 <= k < |file| && k * 352 < p.offset ::
        (file[k].Used? && !FoldEq(file[k].rec.channel, q.channel)) <==> Query.Fix(k * 352) in p.actions
  {
    var recs := Outcomes(q, file, numbers);
    Query.AllRepaired(q, recs);
    var p := Outcome(q, file, numbers);
    forall k | 0 <= k < |file| && k * 352 < p.offset ensures Stray(q, file[k]) <==> Query.Fix(k * 352) in p.actions {
      assert k * Query.RECORD_SIZE < p.offset;
    }
  }

  ghost function HowManyWanted(q: Query.Request, file: seq<Slot>): nat {
    if file == [] then 0
    else HowManyWanted(q, file[..|file| - 1]) + if Wanted(q, file[|file| - 1]) then 1 else 0
  }

  lemma {:induction false} SameNumber(q: Query.Request, recs: seq<string>, file: seq<Slot>)
    requires AllSeen(q, recs, file)
    ensures Query.HowMany(q, recs) == HowManyWanted(q, file)
    decreases |file|
  {
    if file != [] {
      var n := |file| - 1;
      assert forall k | 0 <= k < n :: recs[..n][k] == recs[k] && file[..n][k] == file[k];
      SameNumber(q, recs[..n], file[..n]);
      assert Seen(q, recs[n], file[n]);
    }
  }

  /** A query that counts hosts counts the slots that are wanted, in the whole file. */
  lemma CountOfFile(q: Query.Request, file: seq<Slot>, numbers: seq<string>)
    requires Stored(file, numbers) && q.kind == Query.CountHosts
    ensures var p := Outcome(q, file, numbers); !p.ended && p.count == HowManyWanted(q, file)
  {
    var recs := Outcomes(q, file, numbers);
    Query.HostsCounted(q, recs);
    SameNumber(q, recs, file);
  }
}
