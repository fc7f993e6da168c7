// An entry the cache loses: its channel name is longer than a database record can store
// (Sources/dbio.c, Sources/struct.h).
module UserLimits {

  import opened CaseFold
  import opened UserDb
  import opened UserRefs

  /** The entry of the bot's master */
  function Master<Id>(id: Id): Entry<Id> {
    Entry(id, "master", "*!*@*", "*", "secret", "", MASTER_ACCESS, 0, 0, 0, NO_SLOT, 0, false, 0)
  }

  /** A new entry for a channel whose name has 50 characters. */
  function LongNamed<Id>(id: Id): Entry<Id> {
    Entry(id, "nick", "*!*@*", "#" + seq(49, _ => 'a'), "secret", "", 100, 0, 0, 0, NO_SLOT, 0, true, 0)
  }

  /** A user is added, and the saver comes by when his entry is idle. */
  function AddThenSave<Id>(id: Id): seq<Step<Id>> {
    var e := LongNamed(id);
    [Added(e), SavedSlice(UlHash(e.channel), CACHE_TIMEOUT + 1)]
  }

  lemma NotThere<Id>(master: Id, e: Entry<Id>, r: DbUser)
    requires Folded(e.channel) != Folded("*") && e.id != master
    ensures var st := Start(Master(master), map[], []);
      Times(st, e.channel, r) == 0 && !HasEntry(st.cache, e.id)
  {
    var st := Start(Master(master), map[], []);
    var es := st.cache[UlHash(e.channel)];
    assert es == [] || es == [Master(master)];
    assert es != [] ==> es[1..] == [] && NewOne(es[0], Folded(e.channel), r) == 0;
    assert NewCount(es, Folded(e.channel), r) == 0;
    assert DiskCount(es, FileOf(st.files, Folded(e.channel)), Folded(e.channel), r, 0) == 0;
  }

  lemma TwoSteps<Id>(st: State<Id>, steps: seq<Step<Id>>, channel: string, r: DbUser)
    requires |steps| == 2 && Ok(st) && Enabled(st, steps[0]) && Enabled(OkNext(st, steps[0]), steps[1])
    ensures Possible(st, steps)
    ensures var st1 := OkNext(st, steps[0]);
      && Meant(st, steps, channel, r) == Effect(st, steps[0], channel, r) + Effect(st1, steps[1], channel, r)
      && Losses(st, steps, channel, r) == Loss(st, steps[0], channel, r) + Loss(st1, steps[1], channel, r)
  {
    var st1, rest := OkNext(st, steps[0]), steps[1..];
    assert rest[0] == steps[1] && rest[1..] == [];
    assert Possible(st1, rest);
    var st2 := OkNext(st1, rest[0]);
    assert Meant(st2, rest[1..], channel, r) == 0 && Losses(st2, rest[1..], channel, r) == 0;
  }

  /** On a database without files the command added one record, and the run loses it. */
  lemma LongNameIsLost<Id>(master: Id, id: Id)
    requires id != master
    ensures var st, steps, e := Start(Master(master), map[], []), AddThenSave(id), LongNamed(id);
      && Ok(st) && Possible(st, steps)
      && Meant(st, steps, e.channel, MakeDbUser(e).rec) == 1
      && Ok(Run(st, steps)) && Times(Run(st, steps), e.channel, MakeDbUser(e).rec) == 0
  {
    var st, steps, e := Start(Master(master), map[], []), AddThenSave(id), LongNamed(id);
    var b, r := UlHash(e.channel), MakeDbUser(e).rec;
    StartIsSafe(Master(master), map[], []);
    assert Folded(e.channel)[0] == '#' && Folded("*")[0] == '*';
    NotThere(master, e, r);
    var st1 := OkNext(st, steps[0]);
    assert st1.cache[b][0] == e;
    LostNothing(st1.cache[b], Folded(e.channel), r, CACHE_TIMEOUT + 1);
    TwoSteps(st, steps, e.channel, r);
    RunIsSafe(st, steps, e.channel, r);
  }
}
