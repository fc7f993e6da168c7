// The user database: one file of fixed-size records per channel, overlaid by a hashed
// write-back cache (Sources/dbio.c, Sources/userlist.c). This module says what the cache
// operations do to the stored state and proves what they do to the logical database.
module UserDb {

  import opened CaseFold
  import opened Lists

  /** Number of hash buckets of the user list. */
  const BUCKETS := 1000
  /** Offset of an entry that has no record in the file yet. */
  const NO_SLOT := -1
  /** Entries with this access or more live in memory only. */
  const MASTER_ACCESS := 1000
  /** Seconds after its last use before an idle entry leaves the cache. */
  const CACHE_TIMEOUT := 4800

  /** A used record of a database file. */
  datatype DbUser = DbUser(nick: string, mask: string, channel: string, passwd: string, modif: string,
                           access: int, flags: int, suspend: int, lastseen: int)

  datatype Slot = Free | Used(rec: DbUser)

  /** A cached entry; `id` is its identity in memory, offsets count records. */
  datatype Entry<Id> = Entry(id: Id, realname: string, mask: string, channel: string, passwd: string,
                             modif: string, access: int, flags: int, suspend: int, lastseen: int,
                             offset: int, inuse: int, modified: bool, lastused: int)

  /** A channel on which a user is validated, and the entry that validates him. */
  datatype Link<Id> = Link(name: string, id: Id)

  datatype Luser<Id> = Luser(num: string, valchan: seq<Link<Id>>)

  datatype State<Id> = State(cache: seq<seq<Entry<Id>>>, files: map<string, seq<Slot>>, users: seq<Luser<Id>>)

  // ----- files -----

  /** tolower() of Sources/globalvar.h */
  function Lower(c: char): char {
    if 'A' <= c <= '^' || (0xc0 <= c as int <= 0xdf && c as int != 0xd7)
    then (c as int + 32) as char
    else c
  }

  /** make_dbfname() without the constant part of the path: the bucket and the file name. */
  function DbFile(channel: string): (nat, string) {
    (UlHash(channel), seq(|channel|, i requires 0 <= i < |channel| =>
      if channel[i] == '/' then ' ' else Lower(channel[i])))
  }

  /** Spellings of one channel, and only they, share a file; channel names have no spaces
      and are made of 8-bit characters. */
  lemma OneFilePerChannel(a: string, b: string)
    requires forall i | 0 <= i < |a| :: a[i] != ' ' && a[i] as int < 256
    requires forall i | 0 <= i < |b| :: b[i] != ' ' && b[i] as int < 256
    ensures DbFile(a) == DbFile(b) <==> FoldEq(a, b)
  {
    FoldEqPointwise(a, b);
    if FoldEq(a, b) {
      HashesRespectFold(a, b);
      assert DbFile(a).1 == DbFile(b).1;
    } else if DbFile(a).1 == DbFile(b).1 {
      forall i | 0 <= i < |a| ensures |a| == |b| && Fold(a[i]) == Fold(b[i]) {
        assert |DbFile(a).1| == |DbFile(b).1| && DbFile(a).1[i] == DbFile(b).1[i];
      }
    }
  }

  // ----- records -----

  function Cut(s: string, n: nat): string {
    if |s| <= n then s else s[..n]
  }

  /** make_dbuser() */
  function MakeDbUser<Id>(e: Entry<Id>): Slot {
    if e.access == 0 then Free
    else Used(DbUser(Cut(e.realname, 79), Cut(e.mask, 79), Cut(e.channel, 49), Cut(e.passwd, 19), Cut(e.modif, 79),
                     e.access, e.flags, e.suspend, e.lastseen))
  }

  /** What a used record looks like: its strings fit the arrays of struct dbuser. */
  predicate Storable(r: DbUser) {
    && r.access != 0 && r.access < MASTER_ACCESS
    && |r.nick| <= 79 && |r.mask| <= 79 && |r.channel| <= 49 && |r.passwd| <= 19 && |r.modif| <= 79
  }

  /** The entry load_dbuser() builds from a record. */
  function LoadedEntry<Id>(id: Id, r: DbUser, offset: int, now: int): Entry<Id> {
    Entry(id, r.nick, r.mask, r.channel, r.passwd, r.modif, r.access, r.flags, r.suspend, r.lastseen,
          offset, 0, false, now)
  }

  /** The entry fix_db() leaves for a record that is in the wrong file. */
  function Tombstone<Id>(id: Id, channel: string, offset: int): Entry<Id> {
    Entry(id, "!DEL!", "!DEL!", channel, "", "", 0, 0, 0, 0, offset, 0, true, 0)
  }

  lemma LoadRoundTrip<Id>(id: Id, r: DbUser, offset: int, now: int)
    requires Storable(r)
    ensures MakeDbUser(LoadedEntry(id, r, offset, now)) == Used(r)
  {
  }

  // ----- the logical database -----

  predicate Holds<Id>(e: Entry<Id>, key: string, offset: int) {
    e.offset == offset && Folded(e.channel) == key
  }

  /** Position of the first entry with this offset and channel, or the length of the list. */
  function FindSlot<Id>(es: seq<Entry<Id>>, key: string, offset: int): (i: nat)
    ensures i <= |es| && (forall j | 0 <= j < i :: !Holds(es[j], key, offset))
    ensures i < |es| ==> Holds(es[i], key, offset)
  {
    if es == [] || Holds(es[0], key, offset) then 0
    else
      var i := FindSlot(es[1..], key, offset);
      assert forall j | 1 <= j < i + 1 :: es[j] == es[1..][j - 1];
      i + 1
  }

  /** Is this slot a copy of record `r`? */
  function Is(s: Slot, r: DbUser): nat {
    if s == Used(r) then 1 else 0
  }

  /** How often slot `k` stands for `r`: the cached entry for it decides if there is one, otherwise
      the file does, unless the record is in the wrong file. */
  function SlotCount<Id>(es: seq<Entry<Id>>, file: seq<Slot>, key: string, r: DbUser, k: nat): nat
    requires k < |file|
  {
    var i := FindSlot(es, key, k);
    if i < |es| then Is(MakeDbUser(es[i]), r)
    else if Folded(r.channel) == key then Is(file[k], r) else 0
  }

  function DiskCount<Id>(es: seq<Entry<Id>>, file: seq<Slot>, key: string, r: DbUser, n: nat): nat
    requires n <= |file|
  {
    if n == 0 then 0 else DiskCount(es, file, key, r, n - 1) + SlotCount(es, file, key, r, n - 1)
  }

  /** How often an entry stands for `r` although it has no record in the file. */
  function NewOne<Id>(e: Entry<Id>, key: string, r: DbUser): nat {
    if Holds(e, key, NO_SLOT) then Is(MakeDbUser(e), r) else 0
  }

  function NewCount<Id>(es: seq<Entry<Id>>, key: string, r: DbUser): nat {
    if es == [] then 0 else NewOne(es[0], key, r) + NewCount(es[1..], key, r)
  }

  function Count<Id>(es: seq<Entry<Id>>, file: seq<Slot>, key: string, r: DbUser): nat {
    DiskCount(es, file, key, r, |file|) + NewCount(es, key, r)
  }

  function FileOf(files: map<string, seq<Slot>>, key: string): seq<Slot> {
    if key in files then files[key] else []
  }

  /** The logical database: how often `r` is a record of the channel, its file overlaid by the cache. */
  function Times<Id>(st: State<Id>, channel: string, r: DbUser): nat
    requires |st.cache| == BUCKETS
  {
    Count(st.cache[UlHash(channel)], FileOf(st.files, Folded(channel)), Folded(channel), r)
  }

  // ----- who owns which record -----

  /** No two entries of one channel share a record. */
  predicate Distinct<Id>(es: seq<Entry<Id>>) {
    forall i, j | 0 <= i < j < |es| ::
      es[i].offset != NO_SLOT && es[i].offset == es[j].offset ==> Folded(es[i].channel) != Folded(es[j].channel)
  }

  /** The offset names a used record, and a clean entry agrees with its record. */
  predicate EntryOk<Id>(e: Entry<Id>, file: seq<Slot>) {
    && (e.offset != NO_SLOT ==> 0 <= e.offset < |file| && file[e.offset].Used?)
    && (!e.modified && e.access == 0 ==> e.offset == NO_SLOT)
    && (!e.modified && e.access != 0 && e.access < MASTER_ACCESS ==>
          e.offset != NO_SLOT && file[e.offset] == MakeDbUser(e))
  }

  predicate FileOk(file: seq<Slot>) {
    forall k | 0 <= k < |file| :: file[k].Used? ==> Storable(file[k].rec)
  }

  predicate BucketOk<Id>(es: seq<Entry<Id>>, b: nat, files: map<string, seq<Slot>>) {
    && Distinct(es)
    && (forall i | 0 <= i < |es| :: UlHash(es[i].channel) == b)
    && (forall i | 0 <= i < |es| :: EntryOk(es[i], FileOf(files, Folded(es[i].channel))))
  }

  predicate SlotsOwned<Id>(st: State<Id>) {
    && |st.cache| == BUCKETS
    && (forall key {:trigger FileOk(st.files[key])} | key in st.files :: FileOk(st.files[key]))
    && (forall b {:trigger BucketOk(st.cache[b], b, st.files)} | 0 <= b < BUCKETS :: BucketOk(st.cache[b], b, st.files))
  }

  lemma Owned<Id>(st: State<Id>, b: nat, i: nat)
    requires SlotsOwned(st) && b < BUCKETS && i < |st.cache[b]|
    ensures BucketOk(st.cache[b], b, st.files)
    ensures EntryOk(st.cache[b][i], FileOf(st.files, Folded(st.cache[b][i].channel)))
  {
    assert BucketOk(st.cache[b], b, st.files);
  }

  // ----- cold_save_one -----

  /** First free record of a file, or its length. */
  function FreeSlot(file: seq<Slot>): (k: nat)
    ensures k <= |file| && (k < |file| ==> file[k].Free?)
    ensures forall j | 0 <= j < k :: file[j].Used?
  {
    if file == [] || file[0].Free? then 0
    else
      var k := FreeSlot(file[1..]);
      assert forall j | 1 <= j < k + 1 :: file[j] == file[1..][j - 1];
      k + 1
  }

  /** Writing one record, at most at the end of the file. */
  function Put(file: seq<Slot>, k: nat, s: Slot): (r: seq<Slot>)
    requires k <= |file|
    ensures k < |r| && |file| <= |r| <= |file| + 1 && r[k] == s
    ensures forall j | 0 <= j < |file| && j != k :: r[j] == file[j]
    ensures |r| > |file| ==> k == |file|
  {
    if k < |file| then file[k := s] else file + [s]
  }

  /** Where cold_save_one() writes an entry. */
  function Target<Id>(e: Entry<Id>, file: seq<Slot>): int {
    if e.offset == NO_SLOT then FreeSlot(file) else e.offset
  }

  /** The entry after cold_save_one(). */
  function Saved<Id>(e: Entry<Id>, file: seq<Slot>): Entry<Id> {
    e.(offset := if e.access != 0 then Target(e, file) else NO_SLOT, modified := false)
  }

  /** A deletion is not saved to a file that does not exist. */
  predicate Unsaved<Id>(e: Entry<Id>, files: map<string, seq<Slot>>) {
    Folded(e.channel) !in files && e.access == 0
  }

  function SetEntry<Id>(st: State<Id>, b: nat, i: nat, e: Entry<Id>): State<Id>
    requires b < |st.cache| && i < |st.cache[b]|
  {
    st.(cache := st.cache[b := st.cache[b][i := e]])
  }

  /** cold_save_one() on entry `i` of bucket `b`. */
  function Save<Id>(st: State<Id>, b: nat, i: nat): (r: State<Id>)
    requires SlotsOwned(st) && b < BUCKETS && i < |st.cache[b]|
  {
    var e := st.cache[b][i];
    var key := Folded(e.channel);
    var file := FileOf(st.files, key);
    Owned(st, b, i);
    if Unsaved(e, st.files) then st
    else SetEntry(st, b, i, Saved(e, file)).(files := st.files[key := Put(file, Target(e, file), MakeDbUser(e))])
  }

  // ----- sums over slots and entries -----

  lemma {:induction false} DiskCountStep<Id>(es: seq<Entry<Id>>, file: seq<Slot>, es': seq<Entry<Id>>,
                                             file': seq<Slot>, key: string, r: DbUser, n: nat, k: nat)
    requires n <= |file| && n <= |file'| && k < n
    requires forall j: nat | j < n && j != k :: SlotCount(es, file, key, r, j) == SlotCount(es', file', key, r, j)
    ensures DiskCount(es', file', key, r, n) - SlotCount(es', file', key, r, k)
         == DiskCount(es, file, key, r, n) - SlotCount(es, file, key, r, k)
  {
    if k == n - 1 {
      DiskCountSame(es, file, es', file', key, r, n - 1);
    } else {
      DiskCountStep(es, file, es', file', key, r, n - 1, k);
    }
  }

  lemma {:induction false} DiskCountSame<Id>(es: seq<Entry<Id>>, file: seq<Slot>, es': seq<Entry<Id>>,
                                             file': seq<Slot>, key: string, r: DbUser, n: nat)
    requires n <= |file| && n <= |file'|
    requires forall j: nat | j < n :: SlotCount(es, file, key, r, j) == SlotCount(es', file', key, r, j)
    ensures DiskCount(es', file', key, r, n) == DiskCount(es, file, key, r, n)
  {
    if n > 0 {
      DiskCountSame(es, file, es', file', key, r, n - 1);
    }
  }

  lemma {:induction false} NewCountUpdate<Id>(es: seq<Entry<Id>>, i: nat, e: Entry<Id>, key: string, r: DbUser)
    requires i < |es|
    ensures NewCount(es[i := e], key, r) - NewOne(e, key, r) == NewCount(es, key, r) - NewOne(es[i], key, r)
    decreases |es|
  {
    if i == 0 {
      assert es[i := e][1..] == es[1..];
    } else {
      assert es[i := e][1..] == es[1..][i - 1 := e];
      NewCountUpdate(es[1..], i - 1, e, key, r);
    }
  }

  lemma {:induction false} NewCountRemove<Id>(es: seq<Entry<Id>>, i: nat, key: string, r: DbUser)
    requires i < |es|
    ensures NewCount(RemoveAt(es, i), key, r) == NewCount(es, key, r) - NewOne(es[i], key, r)
    decreases |es|
  {
    if i == 0 {
      assert RemoveAt(es, 0) == es[1..];
    } else {
      assert RemoveAt(es, i)[1..] == RemoveAt(es[1..], i - 1);
      NewCountRemove(es[1..], i - 1, key, r);
    }
  }

  // ----- what changing one entry does to one channel -----

  lemma HolderIs<Id>(es: seq<Entry<Id>>, i: nat, key: string, k: int)
    requires Distinct(es) && i < |es| && k != NO_SLOT && Holds(es[i], key, k)
    ensures FindSlot(es, key, k) == i
  {
    var j := FindSlot(es, key, k);
    assert j <= i;
  }

  lemma SameHolder<Id>(es: seq<Entry<Id>>, es': seq<Entry<Id>>, key: string, k: int)
    requires |es| == |es'| && forall j | 0 <= j < |es| :: Holds(es'[j], key, k) == Holds(es[j], key, k)
    ensures FindSlot(es', key, k) == FindSlot(es, key, k)
  {
  }

  /** Changing an entry in place changes the channel by exactly that entry's record. */
  lemma TouchCount<Id>(es: seq<Entry<Id>>, i: nat, e': Entry<Id>, file: seq<Slot>, key: string, r: DbUser)
    requires Distinct(es) && i < |es|
    requires Holds(e', Folded(es[i].channel), es[i].offset)
    requires Folded(es[i].channel) == key ==> EntryOk(es[i], file)
    ensures Folded(es[i].channel) == key ==>
      Count(es[i := e'], file, key, r) - Is(MakeDbUser(e'), r) == Count(es, file, key, r) - Is(MakeDbUser(es[i]), r)
    ensures Folded(es[i].channel) != key ==> Count(es[i := e'], file, key, r) == Count(es, file, key, r)
  {
    var e, es' := es[i], es[i := e'];
    NewCountUpdate(es, i, e', key, r);
    forall k: nat | k < |file|
      ensures FindSlot(es', key, k) == FindSlot(es, key, k)
      ensures !Holds(e, key, k) ==> SlotCount(es, file, key, r, k) == SlotCount(es', file, key, r, k)
    {
      SameHolder(es, es', key, k);
    }
    if Folded(e.channel) == key && e.offset != NO_SLOT {
      HolderIs(es, i, key, e.offset);
      DiskCountStep(es, file, es', file, key, r, |file|, e.offset);
    } else {
      DiskCountSame(es, file, es', file, key, r, |file|);
    }
  }

  /** One more entry in front. */
  lemma PrependCount<Id>(e: Entry<Id>, es: seq<Entry<Id>>, file: seq<Slot>, key: string, r: DbUser)
    requires Folded(e.channel) == key && e.offset != NO_SLOT ==> 0 <= e.offset < |file|
    ensures Folded(e.channel) != key ==> Count([e] + es, file, key, r) == Count(es, file, key, r)
    ensures Holds(e, key, NO_SLOT) ==> Count([e] + es, file, key, r) == Count(es, file, key, r) + Is(MakeDbUser(e), r)
    ensures Folded(e.channel) == key && e.offset != NO_SLOT ==>
      Count([e] + es, file, key, r) - Is(MakeDbUser(e), r)
      == Count(es, file, key, r) - SlotCount(es, file, key, r, e.offset)
  {
    var es' := [e] + es;
    assert es'[1..] == es;
    forall k: nat | k < |file| && !Holds(e, key, k)
      ensures SlotCount(es, file, key, r, k) == SlotCount(es', file, key, r, k)
    {
      assert FindSlot(es', key, k) == FindSlot(es, key, k) + 1;
    }
    if Folded(e.channel) == key && e.offset != NO_SLOT {
      DiskCountStep(es, file, es', file, key, r, |file|, e.offset);
    } else {
      DiskCountSame(es, file, es', file, key, r, |file|);
    }
  }

  /** Taking an entry out of the cache uncovers its record. */
  lemma EvictCount<Id>(es: seq<Entry<Id>>, i: nat, file: seq<Slot>, key: string, r: DbUser)
    requires Distinct(es) && i < |es|
    requires Folded(es[i].channel) == key ==> EntryOk(es[i], file)
    ensures Folded(es[i].channel) != key ==> Count(RemoveAt(es, i), file, key, r) == Count(es, file, key, r)
    ensures Holds(es[i], key, NO_SLOT) ==>
      Count(RemoveAt(es, i), file, key, r) == Count(es, file, key, r) - Is(MakeDbUser(es[i]), r)
    ensures Folded(es[i].channel) == key && es[i].offset != NO_SLOT ==>
      Count(RemoveAt(es, i), file, key, r) - (if Folded(r.channel) == key then Is(file[es[i].offset], r) else 0)
      == Count(es, file, key, r) - Is(MakeDbUser(es[i]), r)
  {
    var e, es' := es[i], RemoveAt(es, i);
    NewCountRemove(es, i, key, r);
    forall k: nat | k < |file| && !Holds(e, key, k)
      ensures SlotCount(es, file, key, r, k) == SlotCount(es', file, key, r, k)
    {
      RemovedHolder(es, i, key, k);
    }
    if Folded(e.channel) == key && e.offset != NO_SLOT {
      HolderIs(es, i, key, e.offset);
      RemovedHolder(es, i, key, e.offset);
      DiskCountStep(es, file, es', file, key, r, |file|, e.offset);
    } else {
      DiskCountSame(es, file, es', file, key, r, |file|);
    }
  }

  lemma RemovedHolder<Id>(es: seq<Entry<Id>>, i: nat, key: string, k: nat)
    requires Distinct(es) && i < |es|
    ensures var f, f' := FindSlot(es, key, k), FindSlot(RemoveAt(es, i), key, k);
      if f == i then f' == |es| - 1
      else if f == |es| then f' == |es| - 1
      else f' == if f < i then f else f - 1
  {
    var es' := RemoveAt(es, i);
    var f, f' := FindSlot(es, key, k), FindSlot(es', key, k);
    assert f < |es| && f != i ==> Holds(es'[if f < i then f else f - 1], key, k);
    if f' < |es'| {
      HolderIs(es, if f' < i then f' else f' + 1, key, k);
    }
  }

  /** The written record belongs to the saved entry afterwards, and to nobody else before. */
  lemma SavedSlot<Id>(es: seq<Entry<Id>>, i: nat, file: seq<Slot>, key: string)
    requires Distinct(es) && i < |es| && Folded(es[i].channel) == key
    requires forall j | 0 <= j < |es| && Folded(es[j].channel) == key :: EntryOk(es[j], file)
    ensures 0 <= Target(es[i], file) <= |file|
    ensures FindSlot(es, key, Target(es[i], file)) == if es[i].offset == NO_SLOT then |es| else i
    ensures FindSlot(es[i := Saved(es[i], file)], key, Target(es[i], file)) == if es[i].access == 0 then |es| else i
  {
    var e := es[i];
    var off := Target(e, file);
    assert EntryOk(e, file);
    var es' := es[i := Saved(e, file)];
    assert forall j | 0 <= j < |es| && j != i :: es'[j] == es[j] && !Holds(es[j], key, off);
    assert e.offset != NO_SLOT ==> Holds(es[i], key, off);
    assert e.access != 0 ==> Holds(es'[i], key, off);
    var f, f' := FindSlot(es, key, off), FindSlot(es', key, off);
    assert f < |es| ==> f == i;
    assert f' < |es'| ==> f' == i;
  }

  lemma SavedOthers<Id>(es: seq<Entry<Id>>, i: nat, file: seq<Slot>, key: string, r: DbUser, k: nat)
    requires i < |es| && Folded(es[i].channel) == key && EntryOk(es[i], file)
    requires k < |file| && k != Target(es[i], file)
    ensures SlotCount(es[i := Saved(es[i], file)], Put(file, Target(es[i], file), MakeDbUser(es[i])), key, r, k)
         == SlotCount(es, file, key, r, k)
  {
    var es' := es[i := Saved(es[i], file)];
    assert forall j | 0 <= j < |es| && j != i :: es'[j] == es[j];
    SameHolder(es, es', key, k);
  }

  lemma SavedSlotCount<Id>(es: seq<Entry<Id>>, i: nat, file: seq<Slot>, key: string, r: DbUser)
    requires Distinct(es) && i < |es| && Folded(es[i].channel) == key
    requires forall j | 0 <= j < |es| && Folded(es[j].channel) == key :: EntryOk(es[j], file)
    ensures 0 <= Target(es[i], file) <= |file|
    ensures var off := Target(es[i], file);
      SlotCount(es[i := Saved(es[i], file)], Put(file, off, MakeDbUser(es[i])), key, r, off) == Is(MakeDbUser(es[i]), r)
    ensures var off := Target(es[i], file); off < |file| ==>
      SlotCount(es, file, key, r, off) == if es[i].offset == NO_SLOT then 0 else Is(MakeDbUser(es[i]), r)
  {
    assert EntryOk(es[i], file);
    SavedSlot(es, i, file, key);
  }

  /** Saving an entry: what was new in the cache is now in the file, and nothing else changes. */
  lemma SaveCount<Id>(es: seq<Entry<Id>>, i: nat, file: seq<Slot>, key: string, r: DbUser)
    requires Distinct(es) && i < |es| && Folded(es[i].channel) == key
    requires forall j | 0 <= j < |es| && Folded(es[j].channel) == key :: EntryOk(es[j], file)
    ensures 0 <= Target(es[i], file) <= |file|
    ensures Count(es[i := Saved(es[i], file)], Put(file, Target(es[i], file), MakeDbUser(es[i])), key, r)
         == Count(es, file, key, r)
  {
    assert EntryOk(es[i], file);
    SavedSlotCount(es, i, file, key, r);
    var e, e', off := es[i], Saved(es[i], file), Target(es[i], file);
    var es', file' := es[i := e'], Put(file, off, MakeDbUser(e));
    NewCountUpdate(es, i, e', key, r);
    forall k: nat | k < |file| && k != off ensures SlotCount(es, file, key, r, k) == SlotCount(es', file', key, r, k) {
      SavedOthers(es, i, file, key, r, k);
    }
    if off < |file| {
      DiskCountStep(es, file, es', file', key, r, |file|, off);
    } else {
      DiskCountSame(es, file, es', file', key, r, |file|);
    }
  }

  // ----- cold_save_one on the whole database -----

  /** Buckets and files are touched only where the channel's own hash says so. */
  lemma OtherFile<Id>(st: State<Id>, b: nat, i: nat, channel: string)
    requires SlotsOwned(st) && b < BUCKETS && i < |st.cache[b]| && UlHash(channel) != b
    ensures Folded(st.cache[b][i].channel) != Folded(channel)
  {
    Owned(st, b, i);
    if FoldEq(st.cache[b][i].channel, channel) {
      HashesRespectFold(st.cache[b][i].channel, channel);
    }
  }

  lemma OtherCount<Id>(es: seq<Entry<Id>>, i: nat, e': Entry<Id>, file: seq<Slot>, key: string, r: DbUser)
    requires i < |es| && Folded(es[i].channel) != key && Folded(e'.channel) != key
    ensures Count(es[i := e'], file, key, r) == Count(es, file, key, r)
  {
    NewCountUpdate(es, i, e', key, r);
    forall k: nat | k < |file| ensures SlotCount(es, file, key, r, k) == SlotCount(es[i := e'], file, key, r, k) {
      SameHolder(es, es[i := e'], key, k);
    }
    DiskCountSame(es, file, es[i := e'], file, key, r, |file|);
  }

  lemma NotMine<Id>(es: seq<Entry<Id>>, i: nat, j: nat, file: seq<Slot>, key: string)
    requires Distinct(es) && i < |es| && j < |es| && i != j
    requires Folded(es[i].channel) == key && Folded(es[j].channel) == key
    requires EntryOk(es[i], file) && EntryOk(es[j], file)
    ensures es[j].offset != Target(es[i], file)
  {
  }

  lemma SaveKeepsDistinct<Id>(es: seq<Entry<Id>>, i: nat, file: seq<Slot>, key: string)
    requires Distinct(es) && i < |es| && Folded(es[i].channel) == key
    requires forall j | 0 <= j < |es| && Folded(es[j].channel) == key :: EntryOk(es[j], file)
    ensures Distinct(es[i := Saved(es[i], file)])
  {
    forall j | 0 <= j < |es| && j != i && Folded(es[j].channel) == key ensures es[j].offset != Target(es[i], file) {
      NotMine(es, i, j, file, key);
    }
  }

  lemma SaveKeepsBucket<Id>(es: seq<Entry<Id>>, b: nat, files: map<string, seq<Slot>>, i: nat)
    requires BucketOk(es, b, files) && i < |es| && es[i].access < MASTER_ACCESS
    ensures 0 <= Target(es[i], FileOf(files, Folded(es[i].channel))) <= |FileOf(files, Folded(es[i].channel))|
    ensures var key := Folded(es[i].channel);
            var file := FileOf(files, key);
            BucketOk(es[i := Saved(es[i], file)], b, files[key := Put(file, Target(es[i], file), MakeDbUser(es[i]))])
  {
    var e := es[i];
    var key := Folded(e.channel);
    var file := FileOf(files, key);
    assert EntryOk(e, file);
    var files' := files[key := Put(file, Target(e, file), MakeDbUser(e))];
    SaveKeepsDistinct(es, i, file, key);
    forall j | 0 <= j < |es| && j != i ensures EntryOk(es[j], FileOf(files', Folded(es[j].channel))) {
      if Folded(es[j].channel) == key {
        NotMine(es, i, j, file, key);
      }
    }
  }

  /** A save keeps every record in one hand. */
  lemma SaveKeepsOwners<Id>(st: State<Id>, b: nat, i: nat)
    requires SlotsOwned(st) && b < BUCKETS && i < |st.cache[b]| && st.cache[b][i].access < MASTER_ACCESS
    ensures SlotsOwned(Save(st, b, i))
  {
    var e, st' := st.cache[b][i], Save(st, b, i);
    Owned(st, b, i);
    forall key | key in st'.files ensures FileOk(st'.files[key]) {
      assert key in st.files ==> FileOk(st.files[key]);
    }
    if !Unsaved(e, st.files) {
      SaveKeepsBucket(st.cache[b], b, st.files, i);
      forall c | 0 <= c < BUCKETS && c != b ensures BucketOk(st'.cache[c], c, st'.files) {
        assert BucketOk(st.cache[c], c, st.files);
        forall j | 0 <= j < |st.cache[c]|
          ensures EntryOk(st.cache[c][j], FileOf(st'.files, Folded(st.cache[c][j].channel)))
        {
          OtherFile(st, b, i, st.cache[c][j].channel);
        }
      }
    }
  }

  /** Cache transparency of cold_save_one(). */
  lemma SaveTransparent<Id>(st: State<Id>, b: nat, i: nat, channel: string, r: DbUser)
    requires SlotsOwned(st) && b < BUCKETS && i < |st.cache[b]|
    ensures |Save(st, b, i).cache| == BUCKETS && Times(Save(st, b, i), channel, r) == Times(st, channel, r)
  {
    var e := st.cache[b][i];
    Owned(st, b, i);
    if UlHash(channel) != b {
      OtherFile(st, b, i, channel);
    } else if Folded(channel) == Folded(e.channel) {
      SaveCount(st.cache[b], i, FileOf(st.files, Folded(channel)), Folded(channel), r);
    } else {
      OtherCount(st.cache[b], i, Saved(e, FileOf(st.files, Folded(e.channel))),
                 FileOf(st.files, Folded(channel)), Folded(channel), r);
    }
  }

  /** Saving a new entry takes a record that is free on disk and that no cached entry claims;
      a save changes no other record of any file. */
  lemma SaveOverwritesNothing<Id>(st: State<Id>, b: nat, i: nat, key: string, k: nat)
    requires SlotsOwned(st) && b < BUCKETS && i < |st.cache[b]|
    requires k < |FileOf(st.files, key)| && FileOf(Save(st, b, i).files, key)[k] != FileOf(st.files, key)[k]
    ensures key == Folded(st.cache[b][i].channel)
    ensures st.cache[b][i].offset == (if FileOf(st.files, key)[k].Free? then NO_SLOT else k)
    ensures forall j | 0 <= j < |st.cache[b]| && j != i :: !Holds(st.cache[b][j], key, k)
  {
    var e := st.cache[b][i];
    Owned(st, b, i);
    SavedSlot(st.cache[b], i, FileOf(st.files, Folded(e.channel)), Folded(e.channel));
  }

  // ----- do_cold_sync_slice -----

  /** May the saver drop this entry? */
  predicate Idle<Id>(e: Entry<Id>, now: int) {
    e.inuse == 0 && e.access < MASTER_ACCESS && (e.access == 0 || e.lastused + CACHE_TIMEOUT < now)
  }

  function Evict<Id>(st: State<Id>, b: nat, i: nat): State<Id>
    requires b < |st.cache| && i < |st.cache[b]|
  {
    st.(cache := st.cache[b := RemoveAt(st.cache[b], i)])
  }

  /** The saver's first move on an entry: write it if it changed. */
  function Flush<Id>(st: State<Id>, b: nat, i: nat): (st': State<Id>)
    requires SlotsOwned(st) && b < BUCKETS && i < |st.cache[b]|
    ensures SlotsOwned(st') && |st'.cache[b]| == |st.cache[b]|
  {
    if st.cache[b][i].modified && st.cache[b][i].access < MASTER_ACCESS
    then SaveKeepsOwners(st, b, i); Save(st, b, i)
    else st
  }

  lemma EvictKeepsOwners<Id>(st: State<Id>, b: nat, i: nat)
    requires SlotsOwned(st) && b < BUCKETS && i < |st.cache[b]|
    ensures SlotsOwned(Evict(st, b, i))
  {
    assert forall c | 0 <= c < BUCKETS :: BucketOk(st.cache[c], c, st.files);
  }

  /** One turn of the slice's loop: write the entry if it changed, drop it if it is idle. */
  function SliceStep<Id>(st: State<Id>, b: nat, i: nat, now: int): (st': State<Id>)
    requires SlotsOwned(st) && b < BUCKETS && i < |st.cache[b]|
    ensures SlotsOwned(st')
  {
    var st1 := Flush(st, b, i);
    if Idle(st1.cache[b][i], now) then EvictKeepsOwners(st1, b, i); Evict(st1, b, i) else st1
  }

  /** The loop of do_cold_sync_slice() from position `i` of bucket `b` on. */
  function Slice<Id>(st: State<Id>, b: nat, i: nat, now: int): (st': State<Id>)
    requires SlotsOwned(st) && b < BUCKETS && i <= |st.cache[b]|
    ensures SlotsOwned(st')
    decreases |st.cache[b]| - i
  {
    if i == |st.cache[b]| then st
    else
      Slice(SliceStep(st, b, i, now), b, if Idle(Flush(st, b, i).cache[b][i], now) then i else i + 1, now)
  }

  /** A live entry whose channel name does not fit the record: its file forgets whose it is. */
  predicate Misfiled<Id>(e: Entry<Id>, now: int) {
    Idle(e, now) && e.access != 0 && |e.channel| > 49
  }

  function LostOne<Id>(e: Entry<Id>, key: string, r: DbUser, now: int): nat {
    if Misfiled(e, now) && Folded(e.channel) == key then Is(MakeDbUser(e), r) else 0
  }

  /** How often dropping the idle ones of these entries loses `r`. */
  function Lost<Id>(es: seq<Entry<Id>>, key: string, r: DbUser, now: int): nat {
    if es == [] then 0 else LostOne(es[0], key, r, now) + Lost(es[1..], key, r, now)
  }

  /** After the saver's first move an idle entry has nothing to lose: a deleted one has no
      record, a live one agrees with its record. */
  lemma FlushedIdle<Id>(st: State<Id>, b: nat, i: nat, now: int)
    requires SlotsOwned(st) && b < BUCKETS && i < |st.cache[b]| && Idle(Flush(st, b, i).cache[b][i], now)
    ensures var st1 := Flush(st, b, i);
            var e := st1.cache[b][i];
            var file := FileOf(st1.files, Folded(e.channel));
            if e.access == 0 then e.offset == NO_SLOT
            else e.offset != NO_SLOT && 0 <= e.offset < |file| && file[e.offset] == MakeDbUser(e)
  {
    var st1 := Flush(st, b, i);
    Owned(st, b, i);
    Owned(st1, b, i);
  }

  /** Dropping such an entry changes nothing, unless its file does not know its full channel name. */
  lemma EvictExact<Id>(es: seq<Entry<Id>>, i: nat, file: seq<Slot>, key: string, r: DbUser, now: int)
    requires Distinct(es) && i < |es| && Idle(es[i], now)
    requires Folded(es[i].channel) == key ==> EntryOk(es[i], file)
    requires Folded(es[i].channel) == key ==>
      if es[i].access == 0 then es[i].offset == NO_SLOT
      else es[i].offset != NO_SLOT && file[es[i].offset] == MakeDbUser(es[i])
    ensures Count(RemoveAt(es, i), file, key, r) + LostOne(es[i], key, r, now) == Count(es, file, key, r)
  {
    EvictCount(es, i, file, key, r);
  }

  lemma SliceStepRest<Id>(st: State<Id>, b: nat, i: nat, now: int)
    requires SlotsOwned(st) && b < BUCKETS && i < |st.cache[b]|
    ensures var es' := SliceStep(st, b, i, now).cache[b];
      if Idle(Flush(st, b, i).cache[b][i], now) then i <= |es'| && es'[i..] == st.cache[b][i + 1..]
      else i + 1 <= |es'| && es'[i + 1..] == st.cache[b][i + 1..]
  {
    var st1 := Flush(st, b, i);
    assert st1.cache[b][i + 1..] == st.cache[b][i + 1..];
    assert RemoveAt(st1.cache[b], i)[i..] == st1.cache[b][i + 1..];
  }

  lemma SliceStepExact<Id>(st: State<Id>, b: nat, i: nat, now: int, channel: string, r: DbUser)
    requires SlotsOwned(st) && b < BUCKETS && i < |st.cache[b]|
    ensures Times(SliceStep(st, b, i, now), channel, r)
            + (if UlHash(channel) == b then LostOne(st.cache[b][i], Folded(channel), r, now) else 0)
         == Times(st, channel, r)
  {
    var st1 := Flush(st, b, i);
    SaveTransparent(st, b, i, channel, r);
    assert LostOne(st1.cache[b][i], Folded(channel), r, now) == LostOne(st.cache[b][i], Folded(channel), r, now);
    if Idle(st1.cache[b][i], now) && UlHash(channel) == b {
      FlushedIdle(st, b, i, now);
      Owned(st1, b, i);
      EvictExact(st1.cache[b], i, FileOf(st1.files, Folded(channel)), Folded(channel), r, now);
    }
  }

  /** What one slice of the saver does to the logical database, exactly. */
  lemma {:induction false} SliceExact<Id>(st: State<Id>, b: nat, i: nat, now: int, channel: string, r: DbUser)
    requires SlotsOwned(st) && b < BUCKETS && i <= |st.cache[b]|
    ensures Times(Slice(st, b, i, now), channel, r)
            + (if UlHash(channel) == b then Lost(st.cache[b][i..], Folded(channel), r, now) else 0)
         == Times(st, channel, r)
    decreases |st.cache[b]| - i
  {
    if i < |st.cache[b]| {
      SliceStepExact(st, b, i, now, channel, r);
      SliceStepRest(st, b, i, now);
      assert st.cache[b][i..][1..] == st.cache[b][i + 1..];
      var keep := if Idle(Flush(st, b, i).cache[b][i], now) then i else i + 1;
      SliceExact(SliceStep(st, b, i, now), b, keep, now, channel, r);
    }
  }

  lemma {:induction false} LostNothing<Id>(es: seq<Entry<Id>>, key: string, r: DbUser, now: int)
    ensures (forall j | 0 <= j < |es| :: !Misfiled(es[j], now)) ==> Lost(es, key, r, now) == 0
    ensures forall j | 0 <= j < |es| && Misfiled(es[j], now) ::
      Folded(es[j].channel) == key && MakeDbUser(es[j]) == Used(r) ==> Lost(es, key, r, now) > 0
  {
    if es != [] {
      LostNothing(es[1..], key, r, now);
      assert forall j | 1 <= j < |es| :: es[j] == es[1..][j - 1];
    }
  }

  /** Cache transparency of a whole slice, evictions included: it holds exactly when no entry
      that is due to leave the cache has a channel name longer than a record can store. */
  lemma SliceTransparentIff<Id>(st: State<Id>, b: nat, now: int)
    requires SlotsOwned(st) && b < BUCKETS
    ensures (forall channel, r :: Times(Slice(st, b, 0, now), channel, r) == Times(st, channel, r))
       <==> (forall j | 0 <= j < |st.cache[b]| :: !Misfiled(st.cache[b][j], now))
  {
    var es := st.cache[b];
    assert es[0..] == es;
    forall channel, r | forall j | 0 <= j < |es| :: !Misfiled(es[j], now)
      ensures Times(Slice(st, b, 0, now), channel, r) == Times(st, channel, r)
    {
      SliceExact(st, b, 0, now, channel, r);
      LostNothing(es, Folded(channel), r, now);
    }
    forall j | 0 <= j < |es| && Misfiled(es[j], now)
      ensures exists channel, r :: Times(Slice(st, b, 0, now), channel, r) != Times(st, channel, r)
    {
      var channel, r := es[j].channel, MakeDbUser(es[j]).rec;
      assert BucketOk(es, b, st.files);
      SliceExact(st, b, 0, now, channel, r);
      LostNothing(es, Folded(channel), r, now);
    }
  }

  // ----- load_dbuser, fix_db, adduser_callback -----

  /** A new entry goes to the front of its bucket. */
  function Prepend<Id>(st: State<Id>, e: Entry<Id>): State<Id>
    requires |st.cache| == BUCKETS
  {
    var b := UlHash(e.channel);
    st.(cache := st.cache[b := [e] + st.cache[b]])
  }

  /** Is an entry for record `k` of the channel in the cache? */
  predicate Cached<Id>(st: State<Id>, channel: string, k: int)
    requires |st.cache| == BUCKETS
  {
    FindSlot(st.cache[UlHash(channel)], Folded(channel), k) < |st.cache[UlHash(channel)]|
  }

  /** load_dbuser() on record `k` of the file of `channel`, which carries a spelling of the channel's name. */
  function Load<Id>(st: State<Id>, channel: string, k: nat, id: Id, now: int): State<Id>
    requires |st.cache| == BUCKETS && k < |FileOf(st.files, Folded(channel))|
    requires FileOf(st.files, Folded(channel))[k].Used?
  {
    if Cached(st, channel, k) then st
    else Prepend(st, LoadedEntry(id, FileOf(st.files, Folded(channel))[k].rec, k, now))
  }

  /** fix_db() on record `k` of the file of `channel`, which carries another channel's name. */
  function Fix<Id>(st: State<Id>, channel: string, k: nat, id: Id): State<Id>
    requires |st.cache| == BUCKETS
  {
    if Cached(st, channel, k) then st else Prepend(st, Tombstone(id, channel, k))
  }

  lemma PrependKeepsOwners<Id>(st: State<Id>, e: Entry<Id>)
    requires SlotsOwned(st) && EntryOk(e, FileOf(st.files, Folded(e.channel)))
    requires e.offset != NO_SLOT ==> !Cached(st, e.channel, e.offset)
    ensures SlotsOwned(Prepend(st, e))
  {
    var b := UlHash(e.channel);
    var es := st.cache[b];
    assert BucketOk(es, b, st.files);
    forall c | 0 <= c < BUCKETS ensures BucketOk(Prepend(st, e).cache[c], c, st.files) {
      assert BucketOk(st.cache[c], c, st.files);
    }
  }

  /** A new entry without a record adds its own record to its own channel. */
  lemma AddEffect<Id>(st: State<Id>, e: Entry<Id>, channel: string, r: DbUser)
    requires |st.cache| == BUCKETS && e.offset == NO_SLOT
    ensures Times(Prepend(st, e), channel, r)
         == Times(st, channel, r) + if FoldEq(channel, e.channel) then Is(MakeDbUser(e), r) else 0
  {
    if FoldEq(channel, e.channel) {
      HashesRespectFold(channel, e.channel);
    }
    if UlHash(channel) == UlHash(e.channel) {
      PrependCount(e, st.cache[UlHash(channel)], FileOf(st.files, Folded(channel)), Folded(channel), r);
    }
  }

  /** A new entry for a record that shows what the record showed changes nothing. */
  lemma CoverTransparent<Id>(st: State<Id>, e: Entry<Id>, channel: string, r: DbUser)
    requires |st.cache| == BUCKETS && 0 <= e.offset < |FileOf(st.files, Folded(e.channel))|
    requires !Cached(st, e.channel, e.offset)
    requires var s := FileOf(st.files, Folded(e.channel))[e.offset];
      MakeDbUser(e) == if s.Used? && FoldEq(s.rec.channel, e.channel) then s else Free
    ensures Times(Prepend(st, e), channel, r) == Times(st, channel, r)
  {
    if FoldEq(channel, e.channel) {
      HashesRespectFold(channel, e.channel);
    }
    if UlHash(channel) == UlHash(e.channel) {
      PrependCount(e, st.cache[UlHash(channel)], FileOf(st.files, Folded(channel)), Folded(channel), r);
    }
  }

  /** Cache transparency of load_dbuser(), and it keeps every record in one hand. */
  lemma LoadTransparent<Id>(st: State<Id>, channel: string, k: nat, id: Id, now: int, c: string, r: DbUser)
    requires SlotsOwned(st) && k < |FileOf(st.files, Folded(channel))|
    requires var s := FileOf(st.files, Folded(channel))[k]; s.Used? && FoldEq(s.rec.channel, channel)
    ensures SlotsOwned(Load(st, channel, k, id, now))
    ensures Times(Load(st, channel, k, id, now), c, r) == Times(st, c, r)
  {
    var rec := FileOf(st.files, Folded(channel))[k].rec;
    HashesRespectFold(rec.channel, channel);
    if !Cached(st, channel, k) {
      assert FileOk(st.files[Folded(channel)]);
      LoadRoundTrip(id, rec, k, now);
      PrependKeepsOwners(st, LoadedEntry(id, rec, k, now));
      CoverTransparent(st, LoadedEntry(id, rec, k, now), c, r);
    }
  }

  /** A record in the wrong file was not part of the database, so marking it deleted changes nothing. */
  lemma FixTransparent<Id>(st: State<Id>, channel: string, k: nat, id: Id, c: string, r: DbUser)
    requires SlotsOwned(st) && k < |FileOf(st.files, Folded(channel))|
    requires var s := FileOf(st.files, Folded(channel))[k]; s.Used? && !FoldEq(s.rec.channel, channel)
    ensures SlotsOwned(Fix(st, channel, k, id))
    ensures Times(Fix(st, channel, k, id), c, r) == Times(st, c, r)
  {
    if !Cached(st, channel, k) {
      PrependKeepsOwners(st, Tombstone(id, channel, k));
      CoverTransparent(st, Tombstone(id, channel, k), c, r);
    }
  }

  // ----- changes of one entry -----

  /** What every command that changes an entry respects: it stays where it is and is marked
      dirty, or it is a deletion that never reached the file. */
  ghost predicate Changes<Id>(e: Entry<Id>, e': Entry<Id>) {
    && e'.id == e.id && e'.channel == e.channel && e'.offset == e.offset
    && (e'.modified || (e'.access == 0 && e'.offset == NO_SLOT))
  }

  lemma ChangeKeepsOwners<Id>(st: State<Id>, b: nat, i: nat, e': Entry<Id>)
    requires SlotsOwned(st) && b < BUCKETS && i < |st.cache[b]|
    requires Changes(st.cache[b][i], e') || e' == st.cache[b][i].(inuse := e'.inuse, lastused := e'.lastused)
    ensures SlotsOwned(SetEntry(st, b, i, e'))
  {
    forall c | 0 <= c < BUCKETS ensures BucketOk(SetEntry(st, b, i, e').cache[c], c, st.files) {
      assert BucketOk(st.cache[c], c, st.files);
      Owned(st, b, i);
    }
  }

  /** Changing an entry replaces exactly its own record in its own channel. */
  lemma ChangeEffect<Id>(st: State<Id>, b: nat, i: nat, e': Entry<Id>, channel: string, r: DbUser)
    requires SlotsOwned(st) && b < BUCKETS && i < |st.cache[b]|
    requires e'.channel == st.cache[b][i].channel && e'.offset == st.cache[b][i].offset
    ensures Times(SetEntry(st, b, i, e'), channel, r) - Times(st, channel, r)
         == if FoldEq(channel, e'.channel) then Is(MakeDbUser(e'), r) - Is(MakeDbUser(st.cache[b][i]), r) else 0
  {
    Owned(st, b, i);
    if UlHash(channel) == b {
      TouchCount(st.cache[b], i, e', FileOf(st.files, Folded(channel)), Folded(channel), r);
    } else {
      OtherFile(st, b, i, channel);
    }
  }

  // ----- the commands that change an entry -----

  const UFL_AUTOOP := 1

  /** remuser_callback(), RemoveUser(): a deletion that never reached the file is not saved. */
  function Deleted<Id>(e: Entry<Id>): Entry<Id> {
    e.(realname := "!DEL!", mask := "!DEL!", access := 0, flags := 0, modified := e.offset != NO_SLOT)
  }

  /** suspend_callback(): an automatic suspension never shortens a longer one; `online` says whether
      the user who asks is still there. */
  function Suspended<Id>(e: Entry<Id>, byUser: bool, online: bool, srcAccess: int, exp: int, modif: string): Entry<Id> {
    if byUser && srcAccess <= e.access then e
    else if byUser then e.(suspend := exp, modified := true, modif := if online then modif else e.modif)
    else if e.suspend < exp then e.(suspend := exp, modified := true)
    else e
  }

  /** The requests of the modinfo command; `valid` and `value` are what the mask check and atoi() say. */
  datatype Request =
    | NewMask(mask: string, valid: bool)
    | NewAccess(text: string, value: int)
    | AutoOp(text: string)
    | NewPasswd(passwd: string)
    | NoSuchField

  predicate Yes(text: string) {
    FoldEq(text, "ON") || FoldEq(text, "YES")
  }

  predicate No(text: string) {
    FoldEq(text, "OFF") || FoldEq(text, "NO")
  }

  function WithAutoOp(flags: int, on: bool): int {
    flags - flags % 2 + if on then UFL_AUTOOP else 0
  }

  /** do_modinfo() by a user who is validated with access `srcAccess`, on his own entry if `own`. */
  function ModInfo<Id>(e: Entry<Id>, srcAccess: int, own: bool, q: Request, modif: string, now: int): Entry<Id> {
    var dirty := e.(modified := true, lastused := now, modif := modif);
    match q
    case NewMask(mask, valid) => if e.access < srcAccess && valid then dirty.(mask := mask) else e
    case NewAccess(text, value) =>
      if e.access < srcAccess && |text| <= 4 && 0 <= value < srcAccess then dirty.(access := value) else e
    case AutoOp(text) =>
      if e.access < srcAccess || own then
        dirty.(modif := e.modif,
               flags := if Yes(text) then WithAutoOp(e.flags, true)
                        else if No(text) then WithAutoOp(e.flags, false) else e.flags)
      else e
    case NewPasswd(passwd) =>
      if (e.access < srcAccess || own) && 6 <= |passwd| <= 18 then dirty.(passwd := passwd) else e
    case NoSuchField => e
  }

  predicate Named<Id>(e: Entry<Id>, channel: string, word: string, nicksearch: bool) {
    FoldEq(channel, e.channel) && FoldEq(word, if nicksearch then e.realname else e.mask)
  }

  /** No command moves an entry, and none gives it the access of the one who asks. */
  lemma CommandsRespectEntries<Id>(e: Entry<Id>, srcAccess: int, own: bool, q: Request, modif: string, now: int,
                                   byUser: bool, online: bool, exp: int)
    ensures Changes(e, Deleted(e))
    ensures var s := Suspended(e, byUser, online, srcAccess, exp, modif); s == e || Changes(e, s)
    ensures var m := ModInfo(e, srcAccess, own, q, modif, now);
      (m == e || Changes(e, m)) && (m.access == e.access || 0 <= m.access < srcAccess)
      && (m.realname == e.realname && m.inuse == e.inuse && m.suspend == e.suspend)
  {
  }
}
