// What one slice of the saver achieves: everything that changed is written, and whoever is not
// needed leaves (do_cold_sync_slice() of Sources/dbio.c).
module UserSaver {

  import opened CaseFold
  import opened UserDb
  import opened Lists

  /** Nobody needs the entry: it has no user, and it is deleted or was last used over 4800 seconds ago. */
  predicate Unneeded<Id>(e: Entry<Id>, now: int) {
    e.access < 1000 && e.inuse == 0 && (e.access == 0 || now - e.lastused > 4800)
  }

  /** The entry needs no saving and may stay. A change stays unsaved only if it is the deletion of an
      entry that never had a record, on a channel without a file. */
  predicate Settled<Id>(e: Entry<Id>, was: map<string, seq<Slot>>, now: int) {
    && !Unneeded(e, now)
    && (e.access < 1000 && e.modified ==> e.access == 0 && e.offset == NO_SLOT && Folded(e.channel) !in was)
  }

  /** The entry's record in the file is up to date. */
  predicate OnDisk<Id>(e: Entry<Id>, files: map<string, seq<Slot>>) {
    Folded(e.channel) in files
    && var file := files[Folded(e.channel)];
       0 <= e.offset < |file| && file[e.offset] == MakeDbUser(e)
  }

  /** The same entry, saved or not. */
  ghost predicate Same<Id>(e: Entry<Id>, e': Entry<Id>) {
    e' == e.(offset := e'.offset, modified := e'.modified)
  }

  ghost predicate Stays<Id>(e: Entry<Id>, es: seq<Entry<Id>>) {
    exists k | 0 <= k < |es| :: Same(e, es[k])
  }

  ghost predicate WasThere<Id>(e: Entry<Id>, es: seq<Entry<Id>>, now: int) {
    exists j | 0 <= j < |es| :: Same(es[j], e) && !Unneeded(es[j], now)
  }

  /** A record's place: that of the entry, or for a new entry the first free one, or the end of the file. */
  predicate PlaceFor<Id>(e: Entry<Id>, file: seq<Slot>, k: nat) {
    && k <= |file|
    && if e.offset != -1 then k == e.offset
       else (k < |file| ==> file[k] == Free) && forall j | 0 <= j < k :: file[j] != Free
  }

  /** What a save writes, and where; a deleted entry leaves a free record and has no place any more. */
  lemma SaveEffect<Id>(st: State<Id>, b: nat, i: nat, r: DbUser, k: nat)
    requires SlotsOwned(st) && b < BUCKETS && i < |st.cache[b]| && MakeDbUser(st.cache[b][i]) in {Free, Used(r)}
    requires PlaceFor(st.cache[b][i], FileOf(st.files, Folded(st.cache[b][i].channel)), k)
    ensures var e := st.cache[b][i];
      var key := Folded(e.channel);
      var file := if key in st.files then st.files[key] else [];
      var slot := if e.access == 0 then Free else Used(r);
      if key !in st.files && e.access == 0 then Save(st, b, i) == st
      else
        var e' := e.(offset := if e.access == 0 then -1 else k, modified := false);
        && Save(st, b, i).cache == st.cache[b := st.cache[b][i := e']] && Save(st, b, i).users == st.users
        && Save(st, b, i).files == st.files[key := if k == |file| then file + [slot] else file[k := slot]]
  {
    Owned(st, b, i);
    var file := FileOf(st.files, Folded(st.cache[b][i].channel));
    assert Target(st.cache[b][i], file) == k;
  }

  lemma FlushOne<Id>(st: State<Id>, b: nat, i: nat, was: map<string, seq<Slot>>, now: int)
    requires SlotsOwned(st) && b < BUCKETS && i < |st.cache[b]| && was.Keys <= st.files.Keys
    ensures var st1 := Flush(st, b, i);
      && Same(st.cache[b][i], st1.cache[b][i]) && st1.cache == st.cache[b := st.cache[b][i := st1.cache[b][i]]]
      && (Idle(st1.cache[b][i], now) <==> Unneeded(st.cache[b][i], now))
      && (Idle(st1.cache[b][i], now) || Settled(st1.cache[b][i], was, now))
      && was.Keys <= st1.files.Keys && st1.users == st.users
  {
    Owned(st, b, i);
    assert st.cache[b][i := st.cache[b][i]] == st.cache[b] && st.cache[b := st.cache[b]] == st.cache;
  }

  /** What the loop leaves alone: the entries it has passed, the other buckets, the users. */
  lemma {:induction false} SliceLeaves<Id>(st: State<Id>, b: nat, i: nat, now: int)
    requires SlotsOwned(st) && b < BUCKETS && i <= |st.cache[b]|
    ensures var st' := Slice(st, b, i, now);
      && i <= |st'.cache[b]| && st'.cache[b][..i] == st.cache[b][..i]
      && (forall c | 0 <= c < BUCKETS && c != b :: st'.cache[c] == st.cache[c])
      && st.files.Keys <= st'.files.Keys && st'.users == st.users
    decreases |st.cache[b]| - i
  {
    if i < |st.cache[b]| {
      FlushOne(st, b, i, st.files, now);
      var st1 := Flush(st, b, i);
      var idle := Idle(st1.cache[b][i], now);
      var st2 := SliceStep(st, b, i, now);
      assert st2.cache[b][..i] == st.cache[b][..i];
      var k := if idle then i else i + 1;
      SliceLeaves(st2, b, k, now);
      var es := Slice(st2, b, k, now).cache[b];
      assert es[..i] == es[..k][..i] && st2.cache[b][..k][..i] == st2.cache[b][..i];
    }
  }

  /** All entries in the bucket are settled behind the loop. */
  lemma {:induction false} SliceSettles<Id>(st: State<Id>, b: nat, i: nat, was: map<string, seq<Slot>>, now: int)
    requires SlotsOwned(st) && b < BUCKETS && i <= |st.cache[b]| && was.Keys <= st.files.Keys
    requires forall j | 0 <= j < i :: Settled(st.cache[b][j], was, now)
    ensures var es := Slice(st, b, i, now).cache[b]; forall j | 0 <= j < |es| :: Settled(es[j], was, now)
    decreases |st.cache[b]| - i
  {
    if i < |st.cache[b]| {
      FlushOne(st, b, i, was, now);
      var st1, st2 := Flush(st, b, i), SliceStep(st, b, i, now);
      var k := if Idle(st1.cache[b][i], now) then i else i + 1;
      forall j | 0 <= j < k ensures Settled(st2.cache[b][j], was, now) {
        assert j < i ==> st2.cache[b][j] == st.cache[b][j];
      }
      SliceSettles(st2, b, k, was, now);
      assert Slice(st, b, i, now) == Slice(st2, b, k, now);
    }
  }

  /** Who is needed stays. */
  lemma {:induction false} NeededStays<Id>(st: State<Id>, b: nat, i: nat, j: nat, now: int)
    requires SlotsOwned(st) && b < BUCKETS && i <= j < |st.cache[b]| && !Unneeded(st.cache[b][j], now)
    ensures Stays(st.cache[b][j], Slice(st, b, i, now).cache[b])
    decreases |st.cache[b]| - i
  {
    FlushOne(st, b, i, st.files, now);
    SliceStepRest(st, b, i, now);
    var st1, st2 := Flush(st, b, i), SliceStep(st, b, i, now);
    var e, es2 := st.cache[b][j], st2.cache[b];
    if Idle(st1.cache[b][i], now) {
      assert es2[j - 1] == es2[i..][j - 1 - i] == st.cache[b][i + 1..][j - 1 - i] == e;
      NeededStays(st2, b, i, j - 1, now);
    } else if j == i {
      SliceLeaves(st2, b, i + 1, now);
      var es := Slice(st2, b, i + 1, now).cache[b];
      assert es[i] == es[..i + 1][i] == es2[..i + 1][i] == st1.cache[b][i];
      assert Same(e, es[i]);
    } else {
      assert es2[j] == es2[i + 1..][j - i - 1] == st.cache[b][i + 1..][j - i - 1] == e;
      NeededStays(st2, b, i + 1, j, now);
    }
  }

  /** Who is there afterwards was there before. */
  lemma {:induction false} NobodyNew<Id>(st: State<Id>, b: nat, i: nat, k: nat, now: int)
    requires SlotsOwned(st) && b < BUCKETS && i <= |st.cache[b]| && i <= k < |Slice(st, b, i, now).cache[b]|
    ensures WasThere(Slice(st, b, i, now).cache[b][k], st.cache[b][i..], now)
    decreases |st.cache[b]| - i
  {
    var es := Slice(st, b, i, now).cache[b];
    if i < |st.cache[b]| {
      FlushOne(st, b, i, st.files, now);
      SliceStepRest(st, b, i, now);
      var st1, st2 := Flush(st, b, i), SliceStep(st, b, i, now);
      var here, behind := st.cache[b][i..], st.cache[b][i + 1..];
      assert here[0] == st.cache[b][i] && here[1..] == behind;
      if Idle(st1.cache[b][i], now) {
        NobodyNew(st2, b, i, k, now);
        Further(es[k], here, now);
      } else {
        SliceLeaves(st2, b, i + 1, now);
        if k == i {
          assert es[i] == es[..i + 1][i] == st2.cache[b][..i + 1][i] == st1.cache[b][i];
          assert Same(here[0], es[k]);
        } else {
          NobodyNew(st2, b, i + 1, k, now);
          Further(es[k], here, now);
        }
      }
    }
  }

  lemma Further<Id>(e: Entry<Id>, es: seq<Entry<Id>>, now: int)
    requires es != [] && WasThere(e, es[1..], now)
    ensures WasThere(e, es, now)
  {
    var j :| 0 <= j < |es[1..]| && Same(es[1..][j], e) && !Unneeded(es[1..][j], now);
    assert es[j + 1] == es[1..][j];
  }

  /** What a slice has done to its bucket when it is over: what is left is settled and, if live, on
      disk; exactly the unneeded entries are gone. */
  ghost predicate Done<Id>(st: State<Id>, st': State<Id>, b: nat, now: int)
    requires |st.cache| == |st'.cache| == BUCKETS && b < BUCKETS
  {
    var es, es' := st.cache[b], st'.cache[b];
    && (forall k | 0 <= k < |es'| :: Settled(es'[k], st.files, now))
    && (forall k | 0 <= k < |es'| :: 0 != es'[k].access < 1000 ==> OnDisk(es'[k], st'.files))
    && (forall j | 0 <= j < |es| :: !Unneeded(es[j], now) ==> Stays(es[j], es'))
    && (forall k | 0 <= k < |es'| :: WasThere(es'[k], es, now))
    && (forall c | 0 <= c < BUCKETS && c != b :: st'.cache[c] == st.cache[c])
    && st.files.Keys <= st'.files.Keys && st'.users == st.users
  }

  lemma SliceIsDone<Id>(st: State<Id>, b: nat, now: int)
    requires SlotsOwned(st) && b < BUCKETS
    ensures Done(st, Slice(st, b, 0, now), b, now)
  {
    var st' := Slice(st, b, 0, now);
    SliceSettles(st, b, 0, st.files, now);
    SliceLeaves(st, b, 0, now);
    assert st.cache[b][0..] == st.cache[b];
    forall j | 0 <= j < |st.cache[b]| && !Unneeded(st.cache[b][j], now) ensures Stays(st.cache[b][j], st'.cache[b]) {
      NeededStays(st, b, 0, j, now);
    }
    forall k | 0 <= k < |st'.cache[b]|
      ensures WasThere(st'.cache[b][k], st.cache[b], now)
      ensures 0 != st'.cache[b][k].access < 1000 ==> OnDisk(st'.cache[b][k], st'.files)
    {
      NobodyNew(st, b, 0, k, now);
      Owned(st', b, k);
    }
  }
}
