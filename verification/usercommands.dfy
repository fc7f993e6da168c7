// What the commands that change an entry do to the channel's records (remuser_callback(),
// suspend_callback() and do_modinfo() of Sources/userlist.c, make_dbuser() of Sources/dbio.c).
module UserCommands {

  import opened CaseFold
  import opened UserDb

  /** A stored word is as much of the word as fits. */
  ghost predicate Fits(stored: string, word: string, size: nat) {
    stored <= word && |stored| == if |word| < size then |word| else size
  }

  /** `r` is the record of this entry; one with access 0 is not kept. */
  ghost predicate Shows<Id>(r: DbUser, e: Entry<Id>) {
    && Fits(r.nick, e.realname, 79) && Fits(r.mask, e.mask, 79) && Fits(r.modif, e.modif, 79)
    && Fits(r.channel, e.channel, 49) && Fits(r.passwd, e.passwd, 19)
    && r.access == e.access && r.flags == e.flags && r.suspend == e.suspend && r.lastseen == e.lastseen
  }

  lemma RecordShows<Id>(e: Entry<Id>, r: DbUser)
    ensures MakeDbUser(e) == Used(r) <==> e.access != 0 && Shows(r, e)
    ensures MakeDbUser(e) == Free <==> e.access == 0
  {
  }

  lemma {:induction false} DiskAlone<Id>(es: seq<Entry<Id>>, file: seq<Slot>, key: string, r: DbUser, n: nat)
    requires es == [] && n <= |file|
    ensures DiskCount(es, file, key, r, n) == if Folded(r.channel) == key then multiset(file[..n])[Used(r)] else 0
  {
    if n > 0 {
      DiskAlone(es, file, key, r, n - 1);
      assert file[..n] == file[..n - 1] + [file[n - 1]];
    }
  }

  /** While nothing of its bucket is in memory, a channel has exactly the records of its file that carry its name,
      each as often as the file has it. */
  lemma FileAlone<Id>(st: State<Id>, channel: string, r: DbUser)
    requires |st.cache| == BUCKETS && st.cache[UlHash(channel)] == []
    ensures Times(st, channel, r) == if FoldEq(r.channel, channel) && Folded(channel) in st.files
                                     then multiset(st.files[Folded(channel)])[Used(r)] else 0
  {
    var file := FileOf(st.files, Folded(channel));
    DiskAlone(st.cache[UlHash(channel)], file, Folded(channel), r, |file|);
    assert file[..|file|] == file;
  }

  /** In the database one copy of record `r` of this channel has become `r'`, and nothing else has changed. */
  ghost predicate Turned<Id>(st: State<Id>, st': State<Id>, channel: string, r: DbUser, r': DbUser)
    requires |st.cache| == |st'.cache| == BUCKETS
  {
    forall c, x ::
      Times(st', c, x) + (if FoldEq(c, channel) && x == r && r.access != 0 then 1 else 0)
      == Times(st, c, x) + (if FoldEq(c, channel) && x == r' && r'.access != 0 then 1 else 0)
  }

  lemma Turns<Id>(st: State<Id>, b: nat, i: nat, e': Entry<Id>, r: DbUser, r': DbUser)
    requires SlotsOwned(st) && b < BUCKETS && i < |st.cache[b]|
    requires e'.channel == st.cache[b][i].channel && e'.offset == st.cache[b][i].offset
    requires Shows(r, st.cache[b][i]) && Shows(r', e')
    ensures Turned(st, SetEntry(st, b, i, e'), e'.channel, r, r')
  {
    forall c, x
      ensures Times(SetEntry(st, b, i, e'), c, x)
              + (if FoldEq(c, e'.channel) && x == r && r.access != 0 then 1 else 0)
           == Times(st, c, x) + (if FoldEq(c, e'.channel) && x == r' && r'.access != 0 then 1 else 0)
    {
      ChangeEffect(st, b, i, e', c, x);
      RecordShows(st.cache[b][i], x);
      RecordShows(e', x);
      OneRecord(st.cache[b][i], r, x);
      OneRecord(e', r', x);
    }
  }

  lemma OneRecord<Id>(e: Entry<Id>, r: DbUser, x: DbUser)
    requires Shows(r, e)
    ensures Shows(x, e) <==> x == r
  {
  }

  /** A deletion takes exactly one copy of the entry's record out of the database. */
  lemma RemoveEffect<Id>(st: State<Id>, b: nat, i: nat, r: DbUser)
    requires SlotsOwned(st) && b < BUCKETS && i < |st.cache[b]| && Shows(r, st.cache[b][i])
    ensures var e, e' := st.cache[b][i], Deleted(st.cache[b][i]);
      && e' == e.(realname := "!DEL!", mask := "!DEL!", access := 0, flags := 0, modified := e.offset != -1)
      && forall c, x :: Times(SetEntry(st, b, i, e'), c, x)
           == Times(st, c, x) - if FoldEq(c, e.channel) && x == r && r.access != 0 then 1 else 0
  {
    var e' := Deleted(st.cache[b][i]);
    var none := r.(nick := "!DEL!", mask := "!DEL!", access := 0, flags := 0);
    Turns(st, b, i, e', r, none);
    assert Turned(st, SetEntry(st, b, i, e'), e'.channel, r, none);
  }

  /** What remains undone leaves everything as it is. */
  lemma Untouched<Id>(st: State<Id>, b: nat, i: nat)
    requires b < |st.cache| && i < |st.cache[b]|
    ensures SetEntry(st, b, i, st.cache[b][i]) == st
  {
    assert st.cache[b][i := st.cache[b][i]] == st.cache[b];
    assert st.cache[b := st.cache[b]] == st.cache;
  }

  /** A user of higher rank sets the date, whatever it was; an automatic suspension only moves it back. `f` is
      as much of the note about the change as a record holds. */
  lemma SuspendEffect<Id>(st: State<Id>, b: nat, i: nat, byUser: bool, online: bool, srcAccess: int, exp: int,
                          modif: string, r: DbUser, f: string)
    requires SlotsOwned(st) && b < BUCKETS && i < |st.cache[b]| && Shows(r, st.cache[b][i]) && Fits(f, modif, 79)
    ensures var e := st.cache[b][i];
      var e' := Suspended(e, byUser, online, srcAccess, exp, modif);
      var st' := SetEntry(st, b, i, e');
      if byUser && srcAccess > e.access then
        && e' == e.(suspend := exp, modified := true, modif := if online then modif else e.modif)
        && Turned(st, st', e.channel, r, r.(suspend := exp, modif := if online then f else r.modif))
      else if !byUser && exp > e.suspend then
        e' == e.(suspend := exp, modified := true) && Turned(st, st', e.channel, r, r.(suspend := exp))
      else st' == st
  {
    var e := st.cache[b][i];
    var e' := Suspended(e, byUser, online, srcAccess, exp, modif);
    if byUser && srcAccess > e.access {
      Turns(st, b, i, e', r, r.(suspend := exp, modif := if online then f else r.modif));
    } else if !byUser && exp > e.suspend {
      Turns(st, b, i, e', r, r.(suspend := exp));
    } else {
      Untouched(st, b, i);
    }
  }

  /** The entry is marked as changed and as used now. */
  ghost predicate Touched<Id>(e: Entry<Id>, e': Entry<Id>, now: int) {
    e'.modified && e'.lastused == now && e'.id == e.id && e'.inuse == e.inuse && e'.offset == e.offset
  }

  /** A new mask by a user of higher rank. */
  lemma MaskEffect<Id>(st: State<Id>, b: nat, i: nat, srcAccess: int, own: bool, mask: string, valid: bool,
                       modif: string, now: int, r: DbUser, m: string, f: string)
    requires SlotsOwned(st) && b < BUCKETS && i < |st.cache[b]| && Shows(r, st.cache[b][i])
    requires Fits(m, mask, 79) && Fits(f, modif, 79)
    ensures var e := st.cache[b][i];
      var e' := ModInfo(e, srcAccess, own, NewMask(mask, valid), modif, now);
      var st' := SetEntry(st, b, i, e');
      if valid && srcAccess > e.access then
        && Turned(st, st', e.channel, r, r.(mask := m, modif := f))
        && Touched(e, e', now) && e'.mask == mask && e'.passwd == e.passwd
      else st' == st
  {
    var e := st.cache[b][i];
    if valid && srcAccess > e.access {
      Turns(st, b, i, ModInfo(e, srcAccess, own, NewMask(mask, valid), modif, now), r, r.(mask := m, modif := f));
    } else {
      Untouched(st, b, i);
    }
  }

  /** A new access: at most four characters, not negative, and below that of the one who asks. Access 0 takes
      the record out of the database. */
  lemma AccessEffect<Id>(st: State<Id>, b: nat, i: nat, srcAccess: int, own: bool, text: string, value: int,
                         modif: string, now: int, r: DbUser, f: string)
    requires SlotsOwned(st) && b < BUCKETS && i < |st.cache[b]| && Shows(r, st.cache[b][i]) && Fits(f, modif, 79)
    ensures var e := st.cache[b][i];
      var e' := ModInfo(e, srcAccess, own, NewAccess(text, value), modif, now);
      var st' := SetEntry(st, b, i, e');
      if srcAccess > e.access && |text| <= 4 && 0 <= value < srcAccess then
        && Turned(st, st', e.channel, r, r.(access := value, modif := f))
        && Touched(e, e', now) && e'.mask == e.mask && e'.passwd == e.passwd
      else st' == st
  {
    var e := st.cache[b][i];
    if srcAccess > e.access && |text| <= 4 && 0 <= value < srcAccess {
      var e' := ModInfo(e, srcAccess, own, NewAccess(text, value), modif, now);
      Turns(st, b, i, e', r, r.(access := value, modif := f));
    } else {
      Untouched(st, b, i);
    }
  }

  /** The lowest bit of the flags is set by `on` and `yes`, cleared by `off` and `no`, and left by other words;
      the other bits stay, and so does the note about the last change. */
  lemma AutoOpEffect<Id>(st: State<Id>, b: nat, i: nat, srcAccess: int, own: bool, text: string, modif: string,
                         now: int, r: DbUser, flags: int)
    requires SlotsOwned(st) && b < BUCKETS && i < |st.cache[b]| && Shows(r, st.cache[b][i])
    requires flags / 2 == r.flags / 2
    requires flags % 2 == if FoldEq(text, "on") || FoldEq(text, "yes") then 1
                          else if FoldEq(text, "off") || FoldEq(text, "no") then 0 else r.flags % 2
    ensures var e := st.cache[b][i];
      var e' := ModInfo(e, srcAccess, own, AutoOp(text), modif, now);
      var st' := SetEntry(st, b, i, e');
      if srcAccess > e.access || own then
        && Turned(st, st', e.channel, r, r.(flags := flags))
        && Touched(e, e', now) && e'.mask == e.mask && e'.passwd == e.passwd && e'.modif == e.modif
      else st' == st
  {
    var e := st.cache[b][i];
    if srcAccess > e.access || own {
      var e' := ModInfo(e, srcAccess, own, AutoOp(text), modif, now);
      assert Folded("ON") == Folded("on") && Folded("YES") == Folded("yes");
      assert Folded("OFF") == Folded("off") && Folded("NO") == Folded("no");
      Turns(st, b, i, e', r, r.(flags := flags));
    } else {
      Untouched(st, b, i);
    }
  }

  /** A new password: 6 to 18 characters, by a user of higher rank or the one whose entry it is. */
  lemma PasswdEffect<Id>(st: State<Id>, b: nat, i: nat, srcAccess: int, own: bool, passwd: string, modif: string,
                         now: int, r: DbUser, f: string)
    requires SlotsOwned(st) && b < BUCKETS && i < |st.cache[b]| && Shows(r, st.cache[b][i]) && Fits(f, modif, 79)
    ensures var e := st.cache[b][i];
      var e' := ModInfo(e, srcAccess, own, NewPasswd(passwd), modif, now);
      var st' := SetEntry(st, b, i, e');
      if (srcAccess > e.access || own) && 6 <= |passwd| <= 18 then
        && Turned(st, st', e.channel, r, r.(passwd := passwd, modif := f))
        && Touched(e, e', now) && e'.passwd == passwd && e'.mask == e.mask
      else st' == st
  {
    var e := st.cache[b][i];
    if (srcAccess > e.access || own) && 6 <= |passwd| <= 18 {
      var e' := ModInfo(e, srcAccess, own, NewPasswd(passwd), modif, now);
      Turns(st, b, i, e', r, r.(passwd := passwd, modif := f));
    } else {
      Untouched(st, b, i);
    }
  }
}
