// Who points at a cached entry: the validated-channel lists of the users against the use
// counts of the entries, and whole runs of the user database (Sources/userlist.c,
// Sources/users.c, Sources/dbio.c).
module UserRefs {

  import opened CaseFold
  import opened UserDb
  import opened Lists

  // ----- counting links -----

  function LinkCount<Id(==)>(links: seq<Link<Id>>, id: Id): nat {
    if links == [] then 0 else (if links[0].id == id then 1 else 0) + LinkCount(links[1..], id)
  }

  /** How many validated-channel nodes of all users point to the entry. */
  function Uses<Id(==)>(users: seq<Luser<Id>>, id: Id): nat {
    if users == [] then 0 else LinkCount(users[0].valchan, id) + Uses(users[1..], id)
  }

  lemma {:induction false} LinkCounted<Id>(links: seq<Link<Id>>, j: nat)
    requires j < |links|
    ensures LinkCount(links, links[j].id) > 0
    decreases |links|
  {
    if j > 0 {
      LinkCounted(links[1..], j - 1);
    }
  }

  lemma {:induction false} LinkRemoved<Id>(links: seq<Link<Id>>, j: nat, id: Id)
    requires j < |links|
    ensures LinkCount(RemoveAt(links, j), id) == LinkCount(links, id) - if links[j].id == id then 1 else 0
    decreases |links|
  {
    if j == 0 {
      assert RemoveAt(links, 0) == links[1..];
    } else {
      assert RemoveAt(links, j)[1..] == RemoveAt(links[1..], j - 1);
      LinkRemoved(links[1..], j - 1, id);
    }
  }

  lemma {:induction false} UseCounted<Id>(users: seq<Luser<Id>>, u: nat, j: nat)
    requires u < |users| && j < |users[u].valchan|
    ensures Uses(users, users[u].valchan[j].id) > 0
    decreases |users|
  {
    if u == 0 {
      LinkCounted(users[0].valchan, j);
    } else {
      UseCounted(users[1..], u - 1, j);
    }
  }

  lemma {:induction false} LinkFound<Id>(links: seq<Link<Id>>, id: Id) returns (j: nat)
    requires LinkCount(links, id) > 0
    ensures j < |links| && links[j].id == id
    decreases |links|
  {
    if links[0].id == id {
      j := 0;
    } else {
      j := LinkFound(links[1..], id);
      j := j + 1;
    }
  }

  lemma {:induction false} UseFound<Id>(users: seq<Luser<Id>>, id: Id) returns (u: nat, j: nat)
    requires Uses(users, id) > 0
    ensures u < |users| && j < |users[u].valchan| && users[u].valchan[j].id == id
    decreases |users|
  {
    if LinkCount(users[0].valchan, id) > 0 {
      u := 0;
      j := LinkFound(users[0].valchan, id);
    } else {
      u, j := UseFound(users[1..], id);
      u := u + 1;
    }
  }

  lemma {:induction false} UsesUpdated<Id>(users: seq<Luser<Id>>, u: nat, x: Luser<Id>, id: Id)
    requires u < |users|
    ensures Uses(users[u := x], id) - LinkCount(x.valchan, id) == Uses(users, id) - LinkCount(users[u].valchan, id)
    decreases |users|
  {
    if u == 0 {
      assert users[0 := x][1..] == users[1..];
    } else {
      assert users[u := x][1..] == users[1..][u - 1 := x];
      UsesUpdated(users[1..], u - 1, x, id);
    }
  }

  lemma {:induction false} UsesRemoved<Id>(users: seq<Luser<Id>>, u: nat, id: Id)
    requires u < |users|
    ensures Uses(RemoveAt(users, u), id) == Uses(users, id) - LinkCount(users[u].valchan, id)
    decreases |users|
  {
    if u == 0 {
      assert RemoveAt(users, 0) == users[1..];
    } else {
      assert RemoveAt(users, u)[1..] == RemoveAt(users[1..], u - 1);
      UsesRemoved(users[1..], u - 1, id);
    }
  }

  // ----- the invariant -----

  ghost predicate Sits<Id>(cache: seq<seq<Entry<Id>>>, b: int, i: int, id: Id) {
    0 <= b < |cache| && 0 <= i < |cache[b]| && cache[b][i].id == id
  }

  ghost predicate HasEntry<Id>(cache: seq<seq<Entry<Id>>>, id: Id) {
    exists b, i :: Sits(cache, b, i, id)
  }

  ghost predicate UniqueIds<Id>(cache: seq<seq<Entry<Id>>>) {
    forall b, i, c, j | 0 <= b < |cache| && 0 <= i < |cache[b]| && Sits(cache, c, j, cache[b][i].id) :: b == c && i == j
  }

  /** Each use count is the number of links to the entry, and every link points to an entry in memory. */
  ghost predicate RefsOk<Id>(st: State<Id>) {
    && UniqueIds(st.cache)
    && (forall b, i {:trigger Uses(st.users, st.cache[b][i].id)} | 0 <= b < |st.cache| && 0 <= i < |st.cache[b]| ::
          st.cache[b][i].inuse == Uses(st.users, st.cache[b][i].id))
    && (forall u, j {:trigger HasEntry(st.cache, st.users[u].valchan[j].id)}
          | 0 <= u < |st.users| && 0 <= j < |st.users[u].valchan| ::
          HasEntry(st.cache, st.users[u].valchan[j].id))
  }

  /** Dropping an unused entry leaves no user pointing at it. */
  lemma EvictKeepsRefs<Id>(st: State<Id>, b: nat, i: nat)
    requires RefsOk(st) && b < |st.cache| && i < |st.cache[b]| && st.cache[b][i].inuse == 0
    ensures RefsOk(Evict(st, b, i))
  {
    var st', id := Evict(st, b, i), st.cache[b][i].id;
    forall c, j, x | Sits(st'.cache, c, j, x) ensures Sits(st.cache, c, if c == b && j >= i then j + 1 else j, x) {
    }
    forall u, j | 0 <= u < |st.users| && 0 <= j < |st.users[u].valchan|
      ensures HasEntry(st'.cache, st.users[u].valchan[j].id)
    {
      UseCounted(st.users, u, j);
      var x := st.users[u].valchan[j].id;
      assert HasEntry(st.cache, x) && st.cache[b][i].inuse == Uses(st.users, st.cache[b][i].id);
      var c, k :| Sits(st.cache, c, k, x);
      assert Sits(st'.cache, c, if c == b && k >= i then k - 1 else k, x);
    }
  }

  /** An entry changed in place keeps its links as long as the use count tells the truth. */
  lemma SetKeepsRefs<Id>(st: State<Id>, b: nat, i: nat, e': Entry<Id>, users': seq<Luser<Id>>)
    requires RefsOk(st) && b < |st.cache| && i < |st.cache[b]| && e'.id == st.cache[b][i].id
    requires e'.inuse == Uses(users', e'.id)
    requires forall id | id != e'.id :: Uses(users', id) == Uses(st.users, id)
    ensures RefsOk(SetEntry(st, b, i, e').(users := users'))
  {
    var st' := SetEntry(st, b, i, e').(users := users');
    forall c, j, x ensures Sits(st'.cache, c, j, x) == Sits(st.cache, c, j, x) {
    }
    forall c, j | 0 <= c < |st'.cache| && 0 <= j < |st'.cache[c]|
      ensures st'.cache[c][j].inuse == Uses(users', st'.cache[c][j].id)
    {
      assert Sits(st.cache, b, i, e'.id);
    }
    forall u, j | 0 <= u < |users'| && 0 <= j < |users'[u].valchan|
      ensures HasEntry(st'.cache, users'[u].valchan[j].id)
    {
      var x := users'[u].valchan[j].id;
      UseCounted(users', u, j);
      if x == e'.id {
        assert Sits(st'.cache, b, i, x);
      } else {
        var v, k := UseFound(st.users, x);
        assert HasEntry(st.cache, st.users[v].valchan[k].id);
        var c, l :| Sits(st.cache, c, l, x);
        assert Sits(st'.cache, c, l, x);
      }
    }
  }

  lemma PrependKeepsRefs<Id>(st: State<Id>, e: Entry<Id>)
    requires RefsOk(st) && |st.cache| == BUCKETS && !HasEntry(st.cache, e.id) && e.inuse == 0
    ensures RefsOk(Prepend(st, e))
  {
    var st', b := Prepend(st, e), UlHash(e.channel);
    forall c, j, x | Sits(st'.cache, c, j, x) && !(c == b && j == 0)
      ensures Sits(st.cache, c, if c == b then j - 1 else j, x) && x != e.id
    {
      assert Sits(st.cache, c, if c == b then j - 1 else j, x);
    }
    if Uses(st.users, e.id) > 0 {
      var u, j := UseFound(st.users, e.id);
      assert false;
    }
    forall c, j | 0 <= c < |st'.cache| && 0 <= j < |st'.cache[c]|
      ensures st'.cache[c][j].inuse == Uses(st.users, st'.cache[c][j].id)
    {
      if !(c == b && j == 0) {
        assert st'.cache[c][j] == st.cache[c][if c == b then j - 1 else j];
      }
    }
    forall c, j, d, k | 0 <= c < |st'.cache| && 0 <= j < |st'.cache[c]| && Sits(st'.cache, d, k, st'.cache[c][j].id)
      ensures c == d && j == k
    {
      assert Sits(st'.cache, c, j, st'.cache[c][j].id);
      assert !(c == b && j == 0) ==> Sits(st.cache, c, if c == b then j - 1 else j, st'.cache[c][j].id);
      assert !(d == b && k == 0) ==> Sits(st.cache, d, if d == b then k - 1 else k, st'.cache[c][j].id);
    }
    forall u, j | 0 <= u < |st.users| && 0 <= j < |st.users[u].valchan|
      ensures HasEntry(st'.cache, st.users[u].valchan[j].id)
    {
      var x := st.users[u].valchan[j].id;
      assert HasEntry(st.cache, st.users[u].valchan[j].id);
      var c, k :| Sits(st.cache, c, k, x);
      assert Sits(st'.cache, c, if c == b then k + 1 else k, x);
    }
  }

  /** The saver never frees an entry that a user still points to. */
  lemma {:induction false} SliceKeepsRefs<Id>(st: State<Id>, b: nat, i: nat, now: int)
    requires SlotsOwned(st) && RefsOk(st) && b < BUCKETS && i <= |st.cache[b]|
    ensures RefsOk(Slice(st, b, i, now))
    decreases |st.cache[b]| - i
  {
    if i < |st.cache[b]| {
      var st1, e := Flush(st, b, i), st.cache[b][i];
      SetKeepsRefs(st, b, i, Saved(e, FileOf(st.files, Folded(e.channel))), st.users);
      assert RefsOk(st1);
      if Idle(st1.cache[b][i], now) {
        EvictKeepsRefs(st1, b, i);
        SliceKeepsRefs(SliceStep(st, b, i, now), b, i, now);
      } else {
        SliceKeepsRefs(st1, b, i + 1, now);
      }
    }
  }

  // ----- validation, deauthentication, quit -----

  /** try_find() and successful_auth(): a new link at the head of the user's list. */
  function Attached<Id>(e: Entry<Id>, now: int): Entry<Id> {
    e.(inuse := e.inuse + 1, modified := true, lastseen := now)
  }

  function Attach<Id>(st: State<Id>, u: nat, name: string, b: nat, i: nat, now: int): State<Id>
    requires u < |st.users| && b < |st.cache| && i < |st.cache[b]|
  {
    var e, x := st.cache[b][i], st.users[u];
    SetEntry(st, b, i, Attached(e, now)).(users := st.users[u := x.(valchan := [Link(name, e.id)] + x.valchan)])
  }

  /** Position of the first validation on the channel, or the length of the list. */
  function FindLink<Id>(links: seq<Link<Id>>, channel: string): (j: nat)
    ensures j <= |links| && (j < |links| ==> FoldEq(links[j].name, channel))
    ensures forall k | 0 <= k < j :: !FoldEq(links[k].name, channel)
  {
    if links == [] || FoldEq(links[0].name, channel) then 0
    else
      var j := FindLink(links[1..], channel);
      assert forall k | 1 <= k < j + 1 :: links[k] == links[1..][k - 1];
      j + 1
  }

  /** The place of an entry in the cache. */
  ghost function Place<Id>(cache: seq<seq<Entry<Id>>>, id: Id): (p: (nat, nat))
    requires HasEntry(cache, id)
    ensures Sits(cache, p.0, p.1, id)
  {
    var b, i :| Sits(cache, b, i, id);
    (b, i)
  }

  /** One link of a user goes away; deauthentication also stamps the entry, a quit does not. */
  ghost function Detach<Id>(st: State<Id>, u: nat, j: nat, stamp: bool, now: int): State<Id>
    requires RefsOk(st) && u < |st.users| && j < |st.users[u].valchan|
  {
    var x := st.users[u];
    var p := Place(st.cache, x.valchan[j].id);
    var e := st.cache[p.0][p.1];
    SetEntry(st, p.0, p.1, e.(inuse := e.inuse - 1, lastused := if stamp then now else e.lastused))
      .(users := st.users[u := x.(valchan := RemoveAt(x.valchan, j))])
  }

  lemma AttachKeepsRefs<Id>(st: State<Id>, u: nat, name: string, b: nat, i: nat, now: int)
    requires RefsOk(st) && u < |st.users| && b < |st.cache| && i < |st.cache[b]|
    ensures RefsOk(Attach(st, u, name, b, i, now))
  {
    var e, x := st.cache[b][i], st.users[u];
    var x' := x.(valchan := [Link(name, e.id)] + x.valchan);
    assert x'.valchan[1..] == x.valchan;
    forall id ensures Uses(st.users[u := x'], id) == Uses(st.users, id) + if id == e.id then 1 else 0 {
      UsesUpdated(st.users, u, x', id);
    }
    assert e.inuse == Uses(st.users, st.cache[b][i].id);
    SetKeepsRefs(st, b, i, Attached(e, now), st.users[u := x']);
  }

  lemma DetachKeepsRefs<Id>(st: State<Id>, u: nat, j: nat, stamp: bool, now: int)
    requires RefsOk(st) && u < |st.users| && j < |st.users[u].valchan|
    ensures RefsOk(Detach(st, u, j, stamp, now))
  {
    var x := st.users[u];
    var p := Place(st.cache, x.valchan[j].id);
    var e, x' := st.cache[p.0][p.1], x.(valchan := RemoveAt(x.valchan, j));
    forall id ensures Uses(st.users[u := x'], id) == Uses(st.users, id) - if id == e.id then 1 else 0 {
      UsesUpdated(st.users, u, x', id);
      LinkRemoved(x.valchan, j, id);
    }
    assert e.inuse == Uses(st.users, st.cache[p.0][p.1].id);
    var e' := e.(inuse := e.inuse - 1, lastused := if stamp then now else e.lastused);
    SetKeepsRefs(st, p.0, p.1, e', st.users[u := x']);
  }

  /** onquit() unlinks all validations of the user. */
  ghost function DropLinks<Id>(st: State<Id>, u: nat): (st': State<Id>)
    requires RefsOk(st) && u < |st.users|
    ensures RefsOk(st') && |st'.users| == |st.users| && st'.users[u].valchan == []
    decreases |st.users[u].valchan|
  {
    if st.users[u].valchan == [] then st
    else
      DetachKeepsRefs(st, u, 0, false, 0);
      DropLinks(Detach(st, u, 0, false, 0), u)
  }

  ghost function Quit<Id>(st: State<Id>, u: nat): State<Id>
    requires RefsOk(st) && u < |st.users|
  {
    var st' := DropLinks(st, u);
    st'.(users := RemoveAt(st'.users, u))
  }

  lemma QuitKeepsRefs<Id>(st: State<Id>, u: nat)
    requires RefsOk(st) && u < |st.users|
    ensures RefsOk(Quit(st, u))
  {
    var st' := DropLinks(st, u);
    var users' := RemoveAt(st'.users, u);
    forall id ensures Uses(users', id) == Uses(st'.users, id) {
      UsesRemoved(st'.users, u, id);
    }
    forall v, j | 0 <= v < |users'| && 0 <= j < |users'[v].valchan|
      ensures HasEntry(st'.cache, users'[v].valchan[j].id)
    {
      assert users'[v] == st'.users[if v < u then v else v + 1];
    }
    assert UniqueIds(Quit(st, u).cache);
    assert forall b, i | 0 <= b < |st'.cache| && 0 <= i < |st'.cache[b]| ::
      st'.cache[b][i].inuse == Uses(users', st'.cache[b][i].id);
  }

  // ----- whole runs -----

  /** What can happen to the user database, each at time `now` where the time matters. */
  datatype Step<Id> =
    | Loaded(channel: string, k: nat, id: Id, now: int)
    | Misplaced(channel: string, k: nat, id: Id)
    | SavedOne(b: nat, i: nat)
    | SavedSlice(b: nat, now: int)
    | Added(entry: Entry<Id>)
    | Changed(b: nat, i: nat, entry: Entry<Id>)
    | Validated(u: nat, name: string, b: nat, i: nat, now: int)
    | Deauthed(u: nat, j: nat, now: int)
    | HasQuit(u: nat)
    | Connected(num: string)

  ghost predicate Ok<Id>(st: State<Id>) {
    SlotsOwned(st) && RefsOk(st)
  }

  /** When the step can happen: the records a callback sees are those of the file, memory is
      allocated fresh, and commands change entries that are not the master's. */
  ghost predicate Enabled<Id>(st: State<Id>, step: Step<Id>)
    requires Ok(st)
  {
    match step
    case Loaded(channel, k, id, _) =>
      !HasEntry(st.cache, id) && k < |FileOf(st.files, Folded(channel))|
      && FileOf(st.files, Folded(channel))[k].Used?
      && FoldEq(FileOf(st.files, Folded(channel))[k].rec.channel, channel)
    case Misplaced(channel, k, id) =>
      !HasEntry(st.cache, id) && k < |FileOf(st.files, Folded(channel))|
      && FileOf(st.files, Folded(channel))[k].Used?
      && !FoldEq(FileOf(st.files, Folded(channel))[k].rec.channel, channel)
    case SavedOne(b, i) => b < BUCKETS && i < |st.cache[b]| && st.cache[b][i].access < MASTER_ACCESS
    case SavedSlice(b, _) => b < BUCKETS
    case Added(e) =>
      !HasEntry(st.cache, e.id) && e.offset == NO_SLOT && e.modified && e.inuse == 0
    case Changed(b, i, e') =>
      b < BUCKETS && i < |st.cache[b]| && Changes(st.cache[b][i], e') && e'.inuse == st.cache[b][i].inuse
    case Validated(u, _, b, i, _) => u < |st.users| && b < BUCKETS && i < |st.cache[b]|
    case Deauthed(u, j, _) => u < |st.users| && j < |st.users[u].valchan|
    case HasQuit(u) => u < |st.users|
    case Connected(_) => true
  }

  ghost function Next<Id>(st: State<Id>, step: Step<Id>): State<Id>
    requires Ok(st) && Enabled(st, step)
  {
    match step
    case Loaded(channel, k, id, now) => Load(st, channel, k, id, now)
    case Misplaced(channel, k, id) => Fix(st, channel, k, id)
    case SavedOne(b, i) => Save(st, b, i)
    case SavedSlice(b, now) => Slice(st, b, 0, now)
    case Added(e) => Prepend(st, e)
    case Changed(b, i, e') => SetEntry(st, b, i, e')
    case Validated(u, name, b, i, now) => Attach(st, u, name, b, i, now)
    case Deauthed(u, j, now) => Detach(st, u, j, true, now)
    case HasQuit(u) => Quit(st, u)
    case Connected(num) => st.(users := [Luser(num, [])] + st.users)
  }

  /** What a command means for the logical database: how many copies of `r` it adds to the channel.
      Whatever else happens means nothing. */
  ghost function Effect<Id>(st: State<Id>, step: Step<Id>, channel: string, r: DbUser): int
    requires Ok(st) && Enabled(st, step)
  {
    match step
    case Added(e) => if FoldEq(channel, e.channel) then Is(MakeDbUser(e), r) else 0
    case Changed(b, i, e') =>
      if FoldEq(channel, e'.channel) then Is(MakeDbUser(e'), r) - Is(MakeDbUser(st.cache[b][i]), r) else 0
    case Validated(u, name, b, i, now) =>
      if FoldEq(channel, st.cache[b][i].channel)
      then Is(MakeDbUser(Attached(st.cache[b][i], now)), r) - Is(MakeDbUser(st.cache[b][i]), r) else 0
    case _ => 0
  }

  /** What the saver loses, which nobody meant. */
  function Loss<Id>(st: State<Id>, step: Step<Id>, channel: string, r: DbUser): nat {
    match step
    case SavedSlice(b, now) =>
      if UlHash(channel) == b && b < |st.cache| then Lost(st.cache[b], Folded(channel), r, now) else 0
    case _ => 0
  }

  lemma DetachQuiet<Id>(st: State<Id>, u: nat, j: nat, stamp: bool, now: int)
    requires SlotsOwned(st) && RefsOk(st) && u < |st.users| && j < |st.users[u].valchan|
    ensures SlotsOwned(Detach(st, u, j, stamp, now))
    ensures forall channel, r :: Times(Detach(st, u, j, stamp, now), channel, r) == Times(st, channel, r)
  {
    var p := Place(st.cache, st.users[u].valchan[j].id);
    var e := st.cache[p.0][p.1];
    var e' := e.(inuse := e.inuse - 1, lastused := if stamp then now else e.lastused);
    ChangeKeepsOwners(st, p.0, p.1, e');
    forall channel, r ensures Times(Detach(st, u, j, stamp, now), channel, r) == Times(st, channel, r) {
      ChangeEffect(st, p.0, p.1, e', channel, r);
    }
  }

  lemma {:induction false} DropLinksQuiet<Id>(st: State<Id>, u: nat)
    requires SlotsOwned(st) && RefsOk(st) && u < |st.users|
    ensures SlotsOwned(DropLinks(st, u))
    ensures forall channel, r :: Times(DropLinks(st, u), channel, r) == Times(st, channel, r)
    decreases |st.users[u].valchan|
  {
    if st.users[u].valchan != [] {
      DetachQuiet(st, u, 0, false, 0);
      DetachKeepsRefs(st, u, 0, false, 0);
      DropLinksQuiet(Detach(st, u, 0, false, 0), u);
    }
  }

  /** Every step keeps the invariants and does to the logical database what it means to do, except
      for what the saver loses. */
  lemma StepIsSafe<Id>(st: State<Id>, step: Step<Id>, channel: string, r: DbUser)
    requires Ok(st) && Enabled(st, step)
    ensures Ok(Next(st, step))
    ensures Times(Next(st, step), channel, r) + Loss(st, step, channel, r)
         == Times(st, channel, r) + Effect(st, step, channel, r)
  {
    match step
    case Loaded(c, k, id, now) =>
      LoadTransparent(st, c, k, id, now, channel, r);
      if !Cached(st, c, k) {
        PrependKeepsRefs(st, LoadedEntry(id, FileOf(st.files, Folded(c))[k].rec, k, now));
      }
    case Misplaced(c, k, id) =>
      FixTransparent(st, c, k, id, channel, r);
      if !Cached(st, c, k) {
        PrependKeepsRefs(st, Tombstone(id, c, k));
      }
    case SavedOne(b, i) =>
      SaveKeepsOwners(st, b, i);
      SaveTransparent(st, b, i, channel, r);
      var e := st.cache[b][i];
      assert e.inuse == Uses(st.users, st.cache[b][i].id);
      SetKeepsRefs(st, b, i, Saved(e, FileOf(st.files, Folded(e.channel))), st.users);
    case SavedSlice(b, now) =>
      SliceExact(st, b, 0, now, channel, r);
      assert st.cache[b][0..] == st.cache[b];
      SliceKeepsRefs(st, b, 0, now);
    case Added(e) =>
      PrependKeepsOwners(st, e);
      AddEffect(st, e, channel, r);
      PrependKeepsRefs(st, e);
    case Changed(b, i, e') =>
      ChangeKeepsOwners(st, b, i, e');
      ChangeEffect(st, b, i, e', channel, r);
      SetKeepsRefs(st, b, i, e', st.users);
    case Validated(u, name, b, i, now) =>
      ChangeKeepsOwners(st, b, i, Attached(st.cache[b][i], now));
      ChangeEffect(st, b, i, Attached(st.cache[b][i], now), channel, r);
      AttachKeepsRefs(st, u, name, b, i, now);
    case Deauthed(u, j, now) =>
      DetachQuiet(st, u, j, true, now);
      DetachKeepsRefs(st, u, j, true, now);
    case HasQuit(u) =>
      DropLinksQuiet(st, u);
      QuitKeepsRefs(st, u);
    case Connected(num) =>
      assert Next(st, step).users[1..] == st.users;
  }

  lemma StepKeeps<Id>(st: State<Id>, step: Step<Id>)
    requires Ok(st) && Enabled(st, step)
    ensures Ok(Next(st, step))
  {
    StepIsSafe(st, step, "", DbUser("", "", "", "", "", 0, 0, 0, 0));
  }

  ghost function OkNext<Id>(st: State<Id>, step: Step<Id>): (st': State<Id>)
    requires Ok(st) && Enabled(st, step)
    ensures Ok(st') && st' == Next(st, step)
  {
    StepKeeps(st, step);
    Next(st, step)
  }

  /** A run is a sequence of steps each of which can happen when its turn comes. */
  ghost predicate Possible<Id>(st: State<Id>, steps: seq<Step<Id>>)
    requires Ok(st)
    decreases |steps|
  {
    steps != [] ==> Enabled(st, steps[0]) && Possible(OkNext(st, steps[0]), steps[1..])
  }

  ghost function Run<Id>(st: State<Id>, steps: seq<Step<Id>>): State<Id>
    requires Ok(st) && Possible(st, steps)
    decreases |steps|
  {
    if steps == [] then st else Run(OkNext(st, steps[0]), steps[1..])
  }

  ghost function Meant<Id>(st: State<Id>, steps: seq<Step<Id>>, channel: string, r: DbUser): int
    requires Ok(st) && Possible(st, steps)
    decreases |steps|
  {
    if steps == [] then 0
    else Effect(st, steps[0], channel, r) + Meant(OkNext(st, steps[0]), steps[1..], channel, r)
  }

  ghost function Losses<Id>(st: State<Id>, steps: seq<Step<Id>>, channel: string, r: DbUser): nat
    requires Ok(st) && Possible(st, steps)
    decreases |steps|
  {
    if steps == [] then 0
    else Loss(st, steps[0], channel, r) + Losses(OkNext(st, steps[0]), steps[1..], channel, r)
  }

  /** Over every run: no record has two owners, no user points at a freed entry, and the logical
      database is what the commands made of it, less what the saver lost. */
  lemma {:induction false} RunIsSafe<Id>(st: State<Id>, steps: seq<Step<Id>>, channel: string, r: DbUser)
    requires Ok(st) && Possible(st, steps)
    ensures Ok(Run(st, steps))
    ensures Times(Run(st, steps), channel, r) + Losses(st, steps, channel, r)
         == Times(st, channel, r) + Meant(st, steps, channel, r)
    decreases |steps|
  {
    if steps != [] {
      StepIsSafe(st, steps[0], channel, r);
      RunIsSafe(OkNext(st, steps[0]), steps[1..], channel, r);
    }
  }

  // ----- channel names that fit a record -----

  /** The channel names in the cache fit the array of struct dbuser. */
  ghost predicate Fits<Id>(st: State<Id>) {
    forall b, i {:trigger st.cache[b][i]} | 0 <= b < |st.cache| && 0 <= i < |st.cache[b]| ::
      |st.cache[b][i].channel| <= 49
  }

  /** New names come from a new entry or from the file in which a stray record was found. */
  predicate NameFits<Id>(step: Step<Id>) {
    match step
    case Added(e) => |e.channel| <= 49
    case Misplaced(channel, _, _) => |channel| <= 49
    case _ => true
  }

  lemma SetFits<Id>(st: State<Id>, b: nat, i: nat, e: Entry<Id>)
    requires Fits(st) && b < |st.cache| && i < |st.cache[b]| && |e.channel| <= 49
    ensures Fits(SetEntry(st, b, i, e))
  {
  }

  lemma PrependFits<Id>(st: State<Id>, e: Entry<Id>)
    requires Fits(st) && |st.cache| == BUCKETS && |e.channel| <= 49
    ensures Fits(Prepend(st, e))
  {
  }

  lemma {:induction false} SliceFits<Id>(st: State<Id>, b: nat, i: nat, now: int)
    requires SlotsOwned(st) && Fits(st) && b < BUCKETS && i <= |st.cache[b]|
    ensures Fits(Slice(st, b, i, now))
    decreases |st.cache[b]| - i
  {
    if i < |st.cache[b]| {
      var st1 := Flush(st, b, i);
      assert Fits(st1);
      assert Fits(SliceStep(st, b, i, now));
      SliceFits(SliceStep(st, b, i, now), b, if Idle(st1.cache[b][i], now) then i else i + 1, now);
    }
  }

  lemma DetachFits<Id>(st: State<Id>, u: nat, j: nat, stamp: bool, now: int)
    requires RefsOk(st) && Fits(st) && u < |st.users| && j < |st.users[u].valchan|
    ensures Fits(Detach(st, u, j, stamp, now))
  {
    var p := Place(st.cache, st.users[u].valchan[j].id);
    var e := st.cache[p.0][p.1];
    SetFits(st, p.0, p.1, e.(inuse := e.inuse - 1, lastused := if stamp then now else e.lastused));
  }

  lemma {:induction false} DropLinksFits<Id>(st: State<Id>, u: nat)
    requires RefsOk(st) && Fits(st) && u < |st.users|
    ensures Fits(DropLinks(st, u))
    decreases |st.users[u].valchan|
  {
    if st.users[u].valchan != [] {
      DetachKeepsRefs(st, u, 0, false, 0);
      DetachFits(st, u, 0, false, 0);
      DropLinksFits(Detach(st, u, 0, false, 0), u);
    }
  }

  lemma NextFits<Id>(st: State<Id>, step: Step<Id>)
    requires Ok(st) && Enabled(st, step) && Fits(st) && NameFits(step)
    ensures Fits(Next(st, step))
  {
    match step
    case Loaded(channel, k, id, now) =>
      assert FileOk(st.files[Folded(channel)]);
      PrependFits(st, LoadedEntry(id, FileOf(st.files, Folded(channel))[k].rec, k, now));
    case Misplaced(channel, k, id) => PrependFits(st, Tombstone(id, channel, k));
    case SavedOne(b, i) => SetFits(st, b, i, Saved(st.cache[b][i], FileOf(st.files, Folded(st.cache[b][i].channel))));
    case SavedSlice(b, now) => SliceFits(st, b, 0, now);
    case Added(e) => PrependFits(st, e);
    case Changed(b, i, e') => SetFits(st, b, i, e');
    case Validated(_, _, b, i, now) => SetFits(st, b, i, Attached(st.cache[b][i], now));
    case Deauthed(u, j, now) => DetachFits(st, u, j, true, now);
    case HasQuit(u) => DropLinksFits(st, u);
    case Connected(_) =>
  }

  /** The saver loses nothing when the names in the cache fit. */
  lemma NothingLost<Id>(st: State<Id>, step: Step<Id>, channel: string, r: DbUser)
    requires Ok(st) && Enabled(st, step) && Fits(st)
    ensures Loss(st, step, channel, r) == 0
  {
    if step.SavedSlice? {
      LostNothing(st.cache[step.b], Folded(channel), r, step.now);
    }
  }

  lemma {:induction false} NeverLost<Id>(st: State<Id>, steps: seq<Step<Id>>, channel: string, r: DbUser)
    requires Ok(st) && Possible(st, steps) && Fits(st)
    requires forall k | 0 <= k < |steps| :: NameFits(steps[k])
    ensures Fits(Run(st, steps)) && Losses(st, steps, channel, r) == 0
    decreases |steps|
  {
    if steps != [] {
      NothingLost(st, steps[0], channel, r);
      NextFits(st, steps[0]);
      NeverLost(OkNext(st, steps[0]), steps[1..], channel, r);
    }
  }

  /** As long as no channel name is longer than a record can store, the logical database is what the
      commands alone made of it, however loads, repairs, saves and evictions were interleaved with
      them. */
  lemma RunTransparent<Id>(st: State<Id>, steps: seq<Step<Id>>, channel: string, r: DbUser)
    requires Ok(st) && Possible(st, steps) && Fits(st)
    requires forall k | 0 <= k < |steps| :: NameFits(steps[k])
    ensures Ok(Run(st, steps))
    ensures Times(Run(st, steps), channel, r) == Times(st, channel, r) + Meant(st, steps, channel, r)
  {
    RunIsSafe(st, steps, channel, r);
    NeverLost(st, steps, channel, r);
  }

  /** The database after start-up: the master's entry, the files found on disk, nobody validated. */
  function Start<Id>(master: Entry<Id>, files: map<string, seq<Slot>>, users: seq<Luser<Id>>): State<Id> {
    State(seq(BUCKETS, _ => [])[UlHash(master.channel) := [master]], files, users)
  }

  lemma {:induction false} NobodyLinked<Id>(users: seq<Luser<Id>>, id: Id)
    requires forall u | 0 <= u < |users| :: users[u].valchan == []
    ensures Uses(users, id) == 0
  {
    if users != [] {
      NobodyLinked(users[1..], id);
    }
  }

  lemma StartIsSafe<Id>(master: Entry<Id>, files: map<string, seq<Slot>>, users: seq<Luser<Id>>)
    requires master.access >= MASTER_ACCESS && master.offset == NO_SLOT && master.inuse == 0
    requires forall key {:trigger FileOk(files[key])} | key in files :: FileOk(files[key])
    requires forall u | 0 <= u < |users| :: users[u].valchan == []
    ensures Ok(Start(master, files, users)) && (|master.channel| <= 49 ==> Fits(Start(master, files, users)))
  {
    var st := Start(master, files, users);
    NobodyLinked(users, master.id);
    forall b | 0 <= b < BUCKETS ensures BucketOk(st.cache[b], b, files) {
    }
  }
}
