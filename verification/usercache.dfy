// The user list as the program keeps it: buckets of entries that are changed in place, the
// files behind them and the validated-channel lists (Sources/userlist.c, Sources/dbio.c).
// Every method is tied to the step of UserDb and UserRefs it performs.
module UserCache {

  import opened CaseFold
  import opened UserDb
  import opened UserRefs
  import opened UserSaver
  import Glob
  import opened Lists

  /** Does the entry let `userhost` in on the channel without a password? */
  ghost predicate Welcomes<Id>(e: Entry<Id>, channel: string, userhost: string) {
    FoldEq(e.channel, channel) && e.passwd == ""
    && Glob.Matches(userhost, e.mask)
  }

  /** None of the first `n` entries does. */
  ghost predicate Unwelcoming<Id>(es: seq<Entry<Id>>, n: nat, channel: string, userhost: string) {
    && n <= |es|
    && forall j {:trigger Welcomes(es[j], channel, userhost)} | 0 <= j < n :: !Welcomes(es[j], channel, userhost)
  }

  lemma UnwelcomingNext<Id>(es: seq<Entry<Id>>, n: nat, channel: string, userhost: string)
    requires Unwelcoming(es, n, channel, userhost) && n < |es| && !Welcomes(es[n], channel, userhost)
    ensures Unwelcoming(es, n + 1, channel, userhost)
  {
  }

  lemma UnwelcomingMeans<Id>(es: seq<Entry<Id>>, n: nat, channel: string, userhost: string)
    requires Unwelcoming(es, n, channel, userhost)
    ensures forall j {:trigger es[j]} | 0 <= j < n ::
      !(FoldEq(es[j].channel, channel) && es[j].passwd == "" && Glob.Matches(userhost, es[j].mask))
  {
    forall j | 0 <= j < n
      ensures !(FoldEq(es[j].channel, channel) && es[j].passwd == "" && Glob.Matches(userhost, es[j].mask))
    {
      assert !Welcomes(es[j], channel, userhost);
    }
  }

  class RegUser {
    var realname: string
    var mask: string
    var channel: string
    var passwd: string
    var modif: string
    var access: int
    var flags: int
    var suspend: int
    var lastseen: int
    var offset: int
    var inuse: int
    var modified: bool
    var lastused: int

    constructor (realname: string, mask: string, channel: string, passwd: string, modif: string, access: int,
                 flags: int, suspend: int, lastseen: int, offset: int, modified: bool, lastused: int)
      ensures Read() == Entry(this, realname, mask, channel, passwd, modif, access, flags, suspend, lastseen,
                              offset, 0, modified, lastused)
    {
      this.realname, this.mask, this.channel, this.passwd, this.modif := realname, mask, channel, passwd, modif;
      this.access, this.flags, this.suspend, this.lastseen := access, flags, suspend, lastseen;
      this.offset, this.inuse, this.modified, this.lastused := offset, 0, modified, lastused;
    }

    /** The entry as a value. */
    function Read(): Entry<RegUser>
      reads this
    {
      Entry(this, realname, mask, channel, passwd, modif, access, flags, suspend, lastseen,
            offset, inuse, modified, lastused)
    }

    /** The test of try_find() */
    method LetsIn(channel: string, userhost: string) returns (hit: bool)
      requires Glob.FitsBuffer(userhost) && Glob.FitsBuffer(mask)
      ensures hit == Welcomes(Read(), channel, userhost)
    {
      var found := Glob.Match(userhost, mask);
      hit := FoldEq(this.channel, channel) && found == 1 && passwd == "";
    }

    /** The entry becomes a deletion. */
    method Delete()
      modifies this
      ensures Read() == Deleted(old(Read()))
    {
      realname := "!DEL!";
      mask := "!DEL!";
      access := 0;
      flags := 0;
      modified := offset != NO_SLOT;
    }

    /** What do_modinfo() does to the entry for a user validated through entry `asker`. */
    method Modify(asker: RegUser, q: Request, modif: string, now: int)
      modifies this
      ensures Read() == ModInfo(old(Read()), old(asker.access), this == asker, q, modif, now)
    {
      var change := false;
      match q {
        case NewMask(mask, valid) =>
          if access < asker.access && valid {
            this.mask := mask;
            change := true;
          }
        case NewAccess(text, value) =>
          if access < asker.access && |text| <= 4 && value < asker.access && value >= 0 {
            access := value;
            change := true;
          }
        case AutoOp(text) =>
          if access < asker.access || this == asker {
            if Yes(text) {
              flags := WithAutoOp(flags, true);
            } else if No(text) {
              flags := WithAutoOp(flags, false);
            }
            change := true;
          }
        case NewPasswd(passwd) =>
          if (access < asker.access || this == asker) && |passwd| >= 6 && |passwd| <= 18 {
            this.passwd := passwd;
            change := true;
          }
        case NoSuchField =>
      }
      if change {
        if !q.AutoOp? {
          this.modif := modif;
        }
        modified := true;
        lastused := now;
      }
    }
  }

  class UserList {
    var buckets: seq<seq<RegUser>>
    var files: map<string, seq<Slot>>
    var lusers: seq<Luser<RegUser>>
    /** Next bucket to save, or -1 when no save is going on. */
    var saveStatus: int
    ghost var model: State<RegUser>
    ghost var repr: set<RegUser>

    /** LoadUserList(): the master's entry is all there is in memory. */
    constructor (master: RegUser, files: map<string, seq<Slot>>, lusers: seq<Luser<RegUser>>)
      requires master.access >= MASTER_ACCESS && master.offset == NO_SLOT && master.inuse == 0
      requires forall key {:trigger FileOk(files[key])} | key in files :: FileOk(files[key])
      requires forall u | 0 <= u < |lusers| :: lusers[u].valchan == []
      ensures Valid() && repr == {master}
      ensures model == Start(master.Read(), files, lusers)
      ensures forall b | 0 <= b < BUCKETS :: buckets[b] == if b == UlHash(master.channel) then [master] else []
    {
      this.buckets := seq(BUCKETS, _ => [])[UlHash(master.channel) := [master]];
      this.files, this.lusers, this.saveStatus := files, lusers, -1;
      this.model, this.repr := Start(master.Read(), files, lusers), {master};
      new;
      StartIsSafe(master.Read(), files, lusers);
    }

    /** Everything but the ownership invariants: `model` is what the fields hold. */
    ghost predicate Mirrors()
      reads this, repr
    {
      && |buckets| == BUCKETS && |model.cache| == BUCKETS && model.files == files && model.users == lusers
      && (forall b | 0 <= b < BUCKETS :: |buckets[b]| == |model.cache[b]|)
      && (forall b, i | 0 <= b < BUCKETS && 0 <= i < |buckets[b]| ::
            buckets[b][i] in repr && buckets[b][i].Read() == model.cache[b][i])
    }

    ghost predicate Valid()
      reads this, repr
    {
      Mirrors() && Ok(model) && -1 <= saveStatus < BUCKETS
    }

    /** Entry `reg` is at position `i` of bucket `b` only, and `model` is right about all others. */
    ghost predicate Others(reg: RegUser, b: nat, i: nat)
      reads this`buckets, this`model, this`repr, repr - {reg}
    {
      && |buckets| == BUCKETS && |model.cache| == BUCKETS
      && b < BUCKETS && i < |buckets[b]| && buckets[b][i] == reg && reg in repr
      && (forall c | 0 <= c < BUCKETS :: |buckets[c]| == |model.cache[c]|)
      && (forall c, j | 0 <= c < BUCKETS && 0 <= j < |buckets[c]| && !(c == b && j == i) ::
            buckets[c][j] in repr && buckets[c][j] != reg && buckets[c][j].Read() == model.cache[c][j])
    }

    lemma Alone(b: nat, i: nat)
      requires Valid() && b < BUCKETS && i < |buckets[b]|
      ensures Others(buckets[b][i], b, i) && buckets[b][i].Read() == model.cache[b][i]
    {
      forall c, j | 0 <= c < BUCKETS && 0 <= j < |buckets[c]| && buckets[c][j] == buckets[b][i]
        ensures c == b && j == i
      {
        assert Sits(model.cache, c, j, model.cache[b][i].id);
      }
    }

    /** Bookkeeping after an entry was changed in place. */
    ghost method Record(reg: RegUser, b: nat, i: nat)
      requires Others(reg, b, i)
      modifies this`model
      ensures Mirrors()
      ensures model == SetEntry(old(model), b, i, reg.Read()).(files := files, users := lusers)
    {
      model := SetEntry(model, b, i, reg.Read()).(files := files, users := lusers);
    }

    /** The search loop of load_dbuser() and fix_db(). */
    method FindAtOffset(channel: string, offset: int) returns (i: nat)
      requires Valid()
      ensures i == FindSlot(model.cache[UlHash(channel)], Folded(channel), offset)
    {
      var b := ComputeUlHash(channel);
      ghost var es := model.cache[b];
      i := 0;
      while i < |buckets[b]| && (buckets[b][i].offset != offset || !FoldEq(buckets[b][i].channel, channel))
        invariant i <= |es| && forall j | 0 <= j < i :: !Holds(es[j], Folded(channel), offset)
      {
        assert buckets[b][i].Read() == es[i];
        i := i + 1;
      }
      assert i < |es| ==> buckets[b][i].Read() == es[i];
    }

    /** Linking a new entry in front of its bucket. */
    method Insert(reg: RegUser)
      requires Valid() && !HasEntry(model.cache, reg)
      requires Ok(Prepend(model, reg.Read()))
      modifies this
      ensures Valid() && repr == old(repr) + {reg}
      ensures model == Prepend(old(model), reg.Read())
      ensures unchanged(`files) && unchanged(`lusers) && unchanged(`saveStatus)
    {
      var b := ComputeUlHash(reg.channel);
      buckets := buckets[b := [reg] + buckets[b]];
      model := Prepend(model, reg.Read());
      repr := repr + {reg};
    }

    /** load_dbuser() for record `offset` of its file, whose content is `dbu`. */
    method LoadDbuser(offset: nat, dbu: DbUser, now: int) returns (reg: RegUser?)
      requires Valid() && offset < |FileOf(files, Folded(dbu.channel))|
      requires FileOf(files, Folded(dbu.channel))[offset] == Used(dbu)
      modifies this
      ensures Valid() && fresh(repr - old(repr)) && repr >= old(repr)
      ensures unchanged(`files) && unchanged(`lusers) && unchanged(`saveStatus)
      ensures old(Cached(model, dbu.channel, offset)) ==>
        var es := old(model).cache[UlHash(dbu.channel)];
        var e := es[FindSlot(es, Folded(dbu.channel), offset)];
        unchanged(this) && reg == if e.access == 0 || !FoldEq(dbu.nick, e.realname) then null else e.id
      ensures !old(Cached(model, dbu.channel, offset)) ==>
        && reg != null && fresh(reg) && model == Load(old(model), dbu.channel, offset, reg, now)
        && reg.offset == offset && reg.lastused == now && reg.inuse == 0 && !reg.modified
    {
      var idx := ComputeUlHash(dbu.channel);
      var i := FindAtOffset(dbu.channel, offset);
      if i < |buckets[idx]| {
        var scan := buckets[idx][i];
        assert scan.Read() == model.cache[idx][i];
        return if scan.access == 0 || !FoldEq(dbu.nick, scan.realname) then null else scan;
      }
      var e := new RegUser(dbu.nick, dbu.mask, dbu.channel, dbu.passwd, dbu.modif, dbu.access, dbu.flags,
                           dbu.suspend, dbu.lastseen, offset, false, now);
      Unknown(e);
      assert Ok(Next(model, Loaded(dbu.channel, offset, e, now))) by {
        StepKeeps(model, Loaded(dbu.channel, offset, e, now));
      }
      Insert(e);
      reg := e;
    }

    /** A newly allocated entry is not in the cache yet. */
    lemma Unknown(reg: RegUser)
      requires Valid() && reg !in repr
      ensures !HasEntry(model.cache, reg)
    {
      forall b, i | 0 <= b < BUCKETS && 0 <= i < |buckets[b]| ensures !Sits(model.cache, b, i, reg) {
        assert buckets[b][i].Read() == model.cache[b][i];
      }
    }

    /** fix_db() */
    method FixDb(channel: string, offset: nat)
      requires Valid() && offset < |FileOf(files, Folded(channel))|
      requires var s := FileOf(files, Folded(channel))[offset]; s.Used? && !FoldEq(s.rec.channel, channel)
      modifies this
      ensures Valid() && fresh(repr - old(repr)) && repr >= old(repr)
      ensures unchanged(`files) && unchanged(`lusers) && unchanged(`saveStatus)
      ensures if old(Cached(model, channel, offset)) then model == old(model)
              else exists id :: fresh(id) && model == Fix(old(model), channel, offset, id)
    {
      var idx := ComputeUlHash(channel);
      var i := FindAtOffset(channel, offset);
      if i < |buckets[idx]| {
        return;
      }
      var reg := new RegUser("!DEL!", "!DEL!", channel, "", "", 0, 0, 0, 0, offset, true, 0);
      Unknown(reg);
      assert Ok(Next(model, Misplaced(channel, offset, reg))) by {
        StepKeeps(model, Misplaced(channel, offset, reg));
      }
      Insert(reg);
    }

    /** The search for a deleted entry in adduser_callback(). */
    method FindDeleted(channel: string, offset: nat) returns (found: bool)
      requires Valid()
      ensures var es := model.cache[UlHash(channel)];
        var i := FindSlot(es, Folded(channel), offset);
        found == (i < |es| && es[i].access == 0)
    {
      var b := ComputeUlHash(channel);
      ghost var es := model.cache[b];
      assert BucketOk(es, b, model.files);
      var i := 0;
      while i < |buckets[b]|
            && (buckets[b][i].offset != offset || buckets[b][i].access != 0 || !FoldEq(buckets[b][i].channel, channel))
        invariant i <= |es| && forall j | 0 <= j < i :: !Holds(es[j], Folded(channel), offset) || es[j].access != 0
      {
        assert buckets[b][i].Read() == es[i];
        i := i + 1;
      }
      found := i < |buckets[b]|;
      if found {
        assert buckets[b][i].Read() == es[i];
        HolderIs(es, i, Folded(channel), offset);
      }
    }

    /** adduser_callback(): `newuser` joins the list unless the query `found` a live record of that nick. */
    method AdduserCallback(newuser: RegUser, found: bool, offset: nat, dbu: DbUser, now: int) returns (added: bool)
      requires Valid() && newuser !in repr
      requires newuser.offset == NO_SLOT && newuser.modified && newuser.inuse == 0
      requires found ==> offset < |FileOf(files, Folded(dbu.channel))|
                         && FileOf(files, Folded(dbu.channel))[offset] == Used(dbu)
      modifies this
      ensures Valid()
      ensures var es := old(model).cache[UlHash(dbu.channel)];
        var i := FindSlot(es, Folded(dbu.channel), offset);
        added == (!found || (i < |es| && (es[i].access == 0 || !FoldEq(dbu.nick, es[i].realname))))
      ensures added ==> model == Prepend(old(model), newuser.Read())
      ensures !added ==> forall channel, r :: Times(model, channel, r) == Times(old(model), channel, r)
    {
      added := !found;
      if found {
        added := FindDeleted(dbu.channel, offset);
        if !added {
          var reg := LoadDbuser(offset, dbu, now);
          if reg != null {
            forall channel, r ensures Times(model, channel, r) == Times(old(model), channel, r) {
              LoadTransparent(old(model), dbu.channel, offset, reg, now, channel, r);
            }
          }
          added := reg == null;
        }
      }
      if added {
        Unknown(newuser);
        StepKeeps(model, Added(newuser.Read()));
        Insert(newuser);
      }
    }

    // ----- the saver -----

    lemma SaveFacts(b: nat, i: nat)
      requires Valid() && b < BUCKETS && i < |buckets[b]| && model.cache[b][i].access < MASTER_ACCESS
      ensures Ok(Save(model, b, i))
      ensures var file := FileOf(files, Folded(model.cache[b][i].channel));
              0 <= Target(model.cache[b][i], file) <= |file|
    {
      var e := model.cache[b][i];
      SaveKeepsOwners(model, b, i);
      SetKeepsRefs(model, b, i, Saved(e, FileOf(files, Folded(e.channel))), model.users);
      assert BucketOk(model.cache[b], b, files) && EntryOk(e, FileOf(files, Folded(e.channel)));
    }

    /** The search for an empty slot. */
    static method SeekFree(file: seq<Slot>) returns (off: nat)
      ensures off == FreeSlot(file)
    {
      off := 0;
      while off < |file| && file[off] != Free
        invariant 0 <= off <= |file| && forall k | 0 <= k < off :: file[k].Used?
      {
        off := off + 1;
      }
    }

    /** cold_save_one() on the entry at position `i` of bucket `b` */
    method ColdSaveOne(reg: RegUser, ghost b: nat, ghost i: nat)
      requires Valid() && b < BUCKETS && i < |buckets[b]| && buckets[b][i] == reg
      requires reg.access < MASTER_ACCESS
      modifies this`files, this`model, reg
      ensures Valid() && model == Save(old(model), b, i)
    {
      Alone(b, i);
      SaveFacts(b, i);
      var fname := Folded(reg.channel);
      if fname !in files && reg.access == 0 {
        return;
      }
      var file := FileOf(files, fname);
      var off := reg.offset;
      if reg.offset == NO_SLOT {
        off := SeekFree(file);
      }
      files := files[fname := Put(file, off, MakeDbUser(reg.Read()))];
      reg.offset := if reg.access != 0 then off else NO_SLOT;
      reg.modified := false;
      Record(reg, b, i);
    }

    /** free_user(): no user points at the entry any more. */
    method FreeUser(b: nat, i: nat)
      requires Valid() && b < BUCKETS && i < |buckets[b]| && buckets[b][i].inuse == 0
      modifies this`model, this`buckets
      ensures Valid() && model == Evict(old(model), b, i)
    {
      assert buckets[b][i].Read() == model.cache[b][i];
      EvictKeepsOwners(model, b, i);
      EvictKeepsRefs(model, b, i);
      buckets := buckets[b := RemoveAt(buckets[b], i)];
      model := Evict(model, b, i);
    }

    /** One turn of the slice's loop. */
    method SliceEntry(b: nat, i: nat, now: int) returns (evicted: bool)
      requires Valid() && b < BUCKETS && i < |buckets[b]|
      modifies this`files, this`model, this`buckets, buckets[b][i]
      ensures Valid() && model == SliceStep(old(model), b, i, now)
      ensures evicted == Idle(Flush(old(model), b, i).cache[b][i], now)
    {
      var reg := buckets[b][i];
      assert reg.Read() == model.cache[b][i];
      if reg.modified && reg.access < MASTER_ACCESS {
        ColdSaveOne(reg, b, i);
      }
      assert reg.Read() == model.cache[b][i];
      evicted := reg.inuse == 0 && reg.access < MASTER_ACCESS
                 && (reg.access == 0 || reg.lastused + CACHE_TIMEOUT < now);
      if evicted {
        FreeUser(b, i);
      }
    }

    /** One turn, and where the next one is. */
    method SliceTurn(b: nat, i: nat, now: int) returns (i': nat)
      requires Valid() && b < BUCKETS && i < |buckets[b]|
      modifies this`files, this`model, this`buckets, buckets[b][i]
      ensures Valid() && i' <= |buckets[b]| && |buckets[b]| - i' < old(|buckets[b]|) - i
      ensures Slice(model, b, i', now) == Slice(old(model), b, i, now)
    {
      ghost var st := model;
      var evicted := SliceEntry(b, i, now);
      SliceStepRest(st, b, i, now);
      i' := if evicted then i else i + 1;
    }

    /** The loop over one bucket */
    method SliceBucket(b: nat, now: int)
      requires Valid() && b < BUCKETS
      modifies this`files, this`model, this`buckets, repr
      ensures Valid() && model == Slice(old(model), b, 0, now)
    {
      var i: nat := 0;
      while i < |buckets[b]|
        invariant Valid() && i <= |buckets[b]|
        invariant Slice(model, b, i, now) == Slice(old(model), b, 0, now)
        decreases |buckets[b]| - i
      {
        i := SliceTurn(b, i, now);
      }
    }

    /** do_cold_sync_slice() */
    method DoColdSyncSlice(now: int)
      requires Valid()
      modifies this`files, this`model, this`buckets, this`saveStatus, repr
      ensures Valid()
      ensures old(saveStatus) < 0 ==> unchanged(this)
      ensures old(saveStatus) >= 0 ==> model == Slice(old(model), old(saveStatus), 0, now)
      ensures old(saveStatus) >= 0 ==> Done(old(model), model, old(saveStatus), now)
      ensures old(saveStatus) >= 0 ==> saveStatus == if old(saveStatus) == BUCKETS - 1 then -1 else old(saveStatus) + 1
    {
      if saveStatus < 0 {
        return;
      }
      SliceIsDone(model, saveStatus, now);
      SliceBucket(saveStatus, now);
      saveStatus := saveStatus + 1;
      if saveStatus == BUCKETS {
        saveStatus := -1;
      }
    }

    // ----- validation -----

    /** successful_auth() */
    method SuccessfulAuth(u: nat, channel: string, reg: RegUser, now: int, ghost b: nat, ghost i: nat)
      requires Valid() && u < |lusers| && b < BUCKETS && i < |buckets[b]| && buckets[b][i] == reg
      modifies this`lusers, this`model, reg
      ensures Valid() && model == Attach(old(model), u, channel, b, i, now)
      ensures reg.inuse == old(reg.inuse) + 1 && reg.lastseen == now && reg.modified
      ensures lusers == old(lusers)[u := old(lusers)[u].(valchan := [Link(channel, reg)] + old(lusers)[u].valchan)]
    {
      Alone(b, i);
      StepKeeps(model, Validated(u, channel, b, i, now));
      var x := lusers[u];
      reg.inuse := reg.inuse + 1;
      reg.modified := true;
      lusers := lusers[u := x.(valchan := [Link(channel, reg)] + x.valchan)];
      reg.lastseen := now;
      Record(reg, b, i);
    }

    /** The search of DeAuth(), validate() and IsValid(). */
    method FindValidation(u: nat, channel: string) returns (j: nat)
      requires u < |lusers|
      ensures j == FindLink(lusers[u].valchan, channel)
    {
      var links := lusers[u].valchan;
      j := 0;
      while j < |links| && !FoldEq(links[j].name, channel)
        invariant j <= |links| && forall k | 0 <= k < j :: !FoldEq(links[k].name, channel)
      {
        j := j + 1;
      }
    }

    /** Taking node `j` out of a user's list. */
    method Unlink(u: nat, j: nat, stamp: bool, now: int)
      requires Valid() && u < |lusers| && j < |lusers[u].valchan|
      modifies this`lusers, this`model, lusers[u].valchan[j].id
      ensures Valid() && model == Detach(old(model), u, j, stamp, now)
      ensures var x := old(lusers)[u]; lusers == old(lusers)[u := x.(valchan := RemoveAt(x.valchan, j))]
      ensures var reg := old(lusers[u].valchan[j].id);
        reg.inuse == old(lusers[u].valchan[j].id.inuse) - 1 && (stamp ==> reg.lastused == now)
    {
      var x := lusers[u];
      var reg := x.valchan[j].id;
      ghost var p := Place(model.cache, reg);
      assert buckets[p.0][p.1].Read() == model.cache[p.0][p.1];
      Alone(p.0, p.1);
      DetachQuiet(model, u, j, stamp, now);
      DetachKeepsRefs(model, u, j, stamp, now);
      lusers := lusers[u := x.(valchan := RemoveAt(x.valchan, j))];
      reg.inuse := reg.inuse - 1;
      if stamp {
        reg.lastused := now;
      }
      Record(reg, p.0, p.1);
    }

    /** DeAuth(), and validate() before it looks for an entry. */
    method DeAuth(u: nat, channel: string, now: int) returns (found: bool)
      requires Valid() && u < |lusers|
      modifies this`lusers, this`model, repr
      ensures Valid()
      ensures var j := FindLink(old(lusers)[u].valchan, channel);
        found == (j < |old(lusers)[u].valchan|)
        && (model == if found then Detach(old(model), u, j, true, now) else old(model))
        && (found ==> old(lusers)[u].valchan[j].id.lastused == now)
    {
      var j := FindValidation(u, channel);
      found := j < |lusers[u].valchan|;
      if found {
        LinkInRepr(u, j);
        Unlink(u, j, true, now);
      }
    }

    lemma LinkInRepr(u: nat, j: nat)
      requires Valid() && u < |lusers| && j < |lusers[u].valchan|
      ensures lusers[u].valchan[j].id in repr
    {
      var p := Place(model.cache, lusers[u].valchan[j].id);
      assert buckets[p.0][p.1].Read() == model.cache[p.0][p.1];
    }

    /** What onquit() does to the user's validations. */
    method OnQuit(u: nat)
      requires Valid() && u < |lusers|
      modifies this`lusers, this`model, repr
      ensures Valid() && model == Quit(old(model), u) && lusers == RemoveAt(old(lusers), u)
    {
      while lusers[u].valchan != []
        invariant Valid() && |lusers| == old(|lusers|) && repr == old(repr)
        invariant lusers == old(lusers)[u := lusers[u]]
        invariant DropLinks(model, u) == DropLinks(old(model), u)
        decreases |lusers[u].valchan|
      {
        LinkInRepr(u, 0);
        Unlink(u, 0, false, 0);
      }
      Forget(u);
    }

    method Forget(u: nat)
      requires Valid() && u < |lusers| && lusers[u].valchan == []
      modifies this`lusers, this`model
      ensures Valid() && model == Quit(old(model), u) && lusers == RemoveAt(old(lusers), u)
    {
      QuitKeepsRefs(model, u);
      lusers := RemoveAt(lusers, u);
      model := model.(users := lusers);
    }

    /** The search of try_find(). */
    method FindWelcome(channel: string, userhost: string) returns (b: nat, i: nat)
      requires Valid() && Glob.FitsBuffer(userhost)
      requires forall j | 0 <= j < |buckets[UlHash(channel)]| :: Glob.FitsBuffer(buckets[UlHash(channel)][j].mask)
      ensures b == UlHash(channel) && i <= |buckets[b]|
      ensures Unwelcoming(model.cache[b], i, channel, userhost)
      ensures i < |buckets[b]| ==> Welcomes(model.cache[b][i], channel, userhost)
    {
      b := ComputeUlHash(channel);
      ghost var es := model.cache[b];
      i := 0;
      while i < |buckets[b]|
        invariant Unwelcoming(es, i, channel, userhost)
      {
        var reg := buckets[b][i];
        assert reg.Read() == model.cache[b][i];
        var hit := reg.LetsIn(channel, userhost);
        if hit {
          return;
        }
        UnwelcomingNext(es, i, channel, userhost);
        i := i + 1;
      }
    }

    /** try_find(): a user who is not validated yet is linked to the first entry that lets him in. */
    method TryFind(u: nat, channel: string, userhost: string, now: int) returns (b: nat, i: nat)
      requires Valid() && u < |lusers| && Glob.FitsBuffer(userhost)
      requires forall j | 0 <= j < |buckets[UlHash(channel)]| :: Glob.FitsBuffer(buckets[UlHash(channel)][j].mask)
      modifies this`lusers, this`model, repr
      ensures Valid() && b == UlHash(channel) && i <= |old(model).cache[b]|
      ensures forall j {:trigger old(model).cache[b][j]} | 0 <= j < i ::
                var e := old(model).cache[b][j];
                !(FoldEq(e.channel, channel) && e.passwd == "" && Glob.Matches(userhost, e.mask))
      ensures i < |old(model).cache[b]| ==>
                var e := old(model).cache[b][i];
                FoldEq(e.channel, channel) && e.passwd == "" && Glob.Matches(userhost, e.mask)
      ensures var validated := FindLink(old(lusers)[u].valchan, channel) < |old(lusers)[u].valchan|;
        model == if validated || i == |old(model).cache[b]| then old(model)
                 else Attach(old(model), u, channel, b, i, now)
    {
      b, i := FindWelcome(channel, userhost);
      UnwelcomingMeans(model.cache[b], i, channel, userhost);
      var j := FindValidation(u, channel);
      if j == |lusers[u].valchan| && i < |buckets[b]| {
        SuccessfulAuth(u, channel, buckets[b][i], now, b, i);
      }
    }

    // ----- the commands -----

    /** remuser_callback(), and RemoveUser() on an entry in memory */
    method Remove(reg: RegUser, srcAccess: int, ghost b: nat, ghost i: nat) returns (removed: bool)
      requires Valid() && b < BUCKETS && i < |buckets[b]| && buckets[b][i] == reg
      modifies this`model, reg
      ensures Valid() && removed == (old(reg.access) < srcAccess) && (removed ==> reg.access == 0)
      ensures model == if removed then SetEntry(old(model), b, i, Deleted(old(model).cache[b][i])) else old(model)
    {
      Alone(b, i);
      removed := reg.access < srcAccess;
      if removed {
        StepKeeps(model, Changed(b, i, Deleted(reg.Read())));
        reg.Delete();
        Record(reg, b, i);
      }
    }

    /** The part of RemoveUser() that looks at the entries in memory. */
    method RemoveUser(channel: string, word: string, nicksearch: bool, srcAccess: int) returns (i: nat)
      requires Valid()
      modifies this`model, repr
      ensures Valid()
      ensures var es := old(model).cache[UlHash(channel)];
        && i <= |es|
        && (forall j | 0 <= j < i ::
              !FoldEq(channel, es[j].channel) || !FoldEq(word, if nicksearch then es[j].realname else es[j].mask))
        && if i == |es| then model == old(model)
           else FoldEq(channel, es[i].channel) && FoldEq(word, if nicksearch then es[i].realname else es[i].mask)
                && model == if es[i].access < srcAccess then SetEntry(old(model), UlHash(channel), i, Deleted(es[i]))
                            else old(model)
    {
      var b := ComputeUlHash(channel);
      ghost var es := model.cache[b];
      i := 0;
      while i < |buckets[b]| && !Named(buckets[b][i].Read(), channel, word, nicksearch)
        invariant i <= |es| && forall j | 0 <= j < i :: !Named(es[j], channel, word, nicksearch)
      {
        i := i + 1;
      }
      if i < |buckets[b]| {
        var removed := Remove(buckets[b][i], srcAccess, b, i);
      }
    }

    /** What suspend_callback() does to the entry; `source` is empty for automatic suspensions. */
    method Suspend(reg: RegUser, source: string, online: bool, srcAccess: int, exp: int, modif: string,
                   ghost b: nat, ghost i: nat)
      requires Valid() && b < BUCKETS && i < |buckets[b]| && buckets[b][i] == reg
      modifies this`model, reg
      ensures Valid()
      ensures var e := old(model).cache[b][i];
        model == SetEntry(old(model), b, i, Suspended(e, source != "", online, srcAccess, exp, modif))
    {
      Alone(b, i);
      CommandSafe(b, i, Suspended(reg.Read(), source != "", online, srcAccess, exp, modif));
      if source != "" && srcAccess <= reg.access {
      } else if source != "" || reg.suspend < exp {
        reg.suspend := exp;
        reg.modified := true;
        if source != "" && online {
          reg.modif := modif;
        }
      }
      Record(reg, b, i);
    }

    lemma CommandSafe(b: nat, i: nat, e': Entry<RegUser>)
      requires Valid() && b < BUCKETS && i < |buckets[b]| && e'.inuse == model.cache[b][i].inuse
      requires e' == model.cache[b][i] || Changes(model.cache[b][i], e')
      ensures Ok(SetEntry(model, b, i, e'))
    {
      if e' == model.cache[b][i] {
        assert model.cache[b][i := e'] == model.cache[b] && model.cache[b := model.cache[b]] == model.cache;
      } else {
        StepKeeps(model, Changed(b, i, e'));
      }
    }

    /** do_modinfo() for a user validated through entry `asker` */
    method DoModinfo(reg: RegUser, asker: RegUser, q: Request, modif: string, now: int, ghost b: nat, ghost i: nat)
      requires Valid() && b < BUCKETS && i < |buckets[b]| && buckets[b][i] == reg
      modifies this`model, reg
      ensures Valid()
      ensures var e := old(model).cache[b][i];
        model == SetEntry(old(model), b, i, ModInfo(e, old(asker.access), reg == asker, q, modif, now))
    {
      Alone(b, i);
      CommandSafe(b, i, ModInfo(reg.Read(), asker.access, reg == asker, q, modif, now));
      reg.Modify(asker, q, modif, now);
      Record(reg, b, i);
    }
  }
}
