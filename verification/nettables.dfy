// The tables behind the network picture, changed in place as the program does it: user and
// channel objects, the hashed channel list, and the users' lists of the servers
// (Sources/servers.c, Sources/users.c, Sources/channels.c). Every method performs a step of Network or NetSteps.
module NetTables {

  import opened CaseFold
  import opened ServerTree
  import opened Network
  import opened NetSteps
  import opened Lists

  /** Buckets of the channel list. */
  const CHANNEL_BUCKETS := 1000

  /** A node of a channel's user list. */
  datatype AUser = AUser(N: Luser, chanop: bool)

  class Luser {
    const num: string
    const server: string
    var nick: string
    var channel: seq<AChannel>

    constructor (num: string, nick: string, server: string)
      ensures this.num == num && Read() == User(nick, server, [])
    {
      this.num, this.nick, this.server, this.channel := num, nick, server, [];
    }

    ghost function Read(): User
      reads this
    {
      User(nick, server, Keys(channel))
    }
  }

  class AChannel {
    const name: string
    var on: bool
    var users: seq<AUser>

    constructor (name: string, on: bool)
      ensures this.name == name && Read() == Channel(name, on, [])
    {
      this.name, this.on, this.users := name, on, [];
    }

    ghost function Read(): Channel
      reads this
    {
      Channel(name, on, Nums(users))
    }
  }

  /** The folded names of the channels in a user's list. */
  function Keys(cs: seq<AChannel>): (ks: seq<string>)
    ensures |ks| == |cs|
  {
    if cs == [] then [] else [Folded(cs[0].name)] + Keys(cs[1..])
  }

  function Nums(us: seq<AUser>): (ms: seq<Member>)
    ensures |ms| == |us|
  {
    if us == [] then [] else [Member(us[0].N.num, us[0].chanop)] + Nums(us[1..])
  }

  lemma RemoveAtTail<T>(s: seq<T>, k: nat)
    requires s != []
    ensures k == 0 ==> RemoveAt(s, k) == s[1..]
    ensures k > 0 ==> RemoveAt(s, k) == [s[0]] + RemoveAt(s[1..], k - 1)
  {
    if k > 0 {
      var l, r := RemoveAt(s, k), [s[0]] + RemoveAt(s[1..], k - 1);
      assert |l| == |r|;
      forall j | 0 <= j < |l| ensures l[j] == r[j] {
        if j > 0 && k < |s| {
          assert r[j] == RemoveAt(s[1..], k - 1)[j - 1];
        }
      }
    }
  }

  lemma KeysCons(c: AChannel, cs: seq<AChannel>)
    ensures Keys([c] + cs) == [Folded(c.name)] + Keys(cs)
  {
    assert ([c] + cs)[1..] == cs;
  }

  lemma NumsCons(u: AUser, us: seq<AUser>)
    ensures Nums([u] + us) == [Member(u.N.num, u.chanop)] + Nums(us)
  {
    assert ([u] + us)[1..] == us;
  }

  lemma {:induction false} RemoveIsDrop(cs: seq<AChannel>, k: nat, key: string)
    requires k <= |cs| && forall j | 0 <= j < k :: Folded(cs[j].name) != key
    requires k < |cs| ==> Folded(cs[k].name) == key
    ensures Drop(Keys(cs), key) == Keys(RemoveAt(cs, k))
    decreases |cs|
  {
    if cs != [] {
      assert Keys(cs)[0] == Folded(cs[0].name) && Keys(cs)[1..] == Keys(cs[1..]);
      RemoveAtTail(cs, k);
      if k > 0 {
        RemoveIsDrop(cs[1..], k - 1, key);
        KeysCons(cs[0], RemoveAt(cs[1..], k - 1));
      }
    }
  }

  lemma {:induction false} RemoveIsDropMember(us: seq<AUser>, k: nat, num: string)
    requires k <= |us| && forall j | 0 <= j < k :: us[j].N.num != num
    requires k < |us| ==> us[k].N.num == num
    ensures DropMember(Nums(us), num) == Nums(RemoveAt(us, k))
    decreases |us|
  {
    if us != [] {
      assert Nums(us)[0] == Member(us[0].N.num, us[0].chanop) && Nums(us)[1..] == Nums(us[1..]);
      RemoveAtTail(us, k);
      if k > 0 {
        RemoveIsDropMember(us[1..], k - 1, num);
        NumsCons(us[0], RemoveAt(us[1..], k - 1));
      }
    }
  }

  /** Folding a folded name changes nothing, so a channel and its folded name share a bucket. */
  lemma FoldedTwice(s: string)
    ensures Folded(Folded(s)) == Folded(s) && ClHash(Folded(s)) == ClHash(s)
  {
    assert Folded(Folded(s)) == Folded(s);
    HashesRespectFold(s, Folded(s));
  }

  // ----- the channel list -----

  /** Each channel is in the bucket of its name, and no name occurs twice. */
  ghost predicate Hashed(cl: seq<seq<AChannel>>) {
    && |cl| == CHANNEL_BUCKETS
    && (forall b, i {:trigger cl[b][i]} | 0 <= b < CHANNEL_BUCKETS && 0 <= i < |cl[b]| :: ClHash(cl[b][i].name) == b)
    && (forall b, i, j {:trigger Folded(cl[b][i].name), Folded(cl[b][j].name)}
          | 0 <= b < CHANNEL_BUCKETS && 0 <= i < j < |cl[b]| ::
          Folded(cl[b][i].name) != Folded(cl[b][j].name))
  }

  ghost predicate Sits(cl: seq<seq<AChannel>>, key: string, i: int) {
    |cl| == CHANNEL_BUCKETS && 0 <= i < |cl[ClHash(key)]| && Folded(cl[ClHash(key)][i].name) == key
  }

  ghost predicate Stored(cl: seq<seq<AChannel>>, key: string) {
    exists i :: Sits(cl, key, i)
  }

  lemma OnlyOne(cl: seq<seq<AChannel>>, b: nat, i: nat, c: nat, j: nat)
    requires Hashed(cl) && b < CHANNEL_BUCKETS && i < |cl[b]| && c < CHANNEL_BUCKETS && j < |cl[c]|
    requires FoldEq(cl[b][i].name, cl[c][j].name)
    ensures b == c && i == j
  {
    HashesRespectFold(cl[b][i].name, cl[c][j].name);
  }

  lemma NoOther(cl: seq<seq<AChannel>>, b: nat, i: nat)
    requires Hashed(cl) && b < CHANNEL_BUCKETS && i < |cl[b]|
    ensures forall d, j {:trigger cl[d][j]} | 0 <= d < CHANNEL_BUCKETS && 0 <= j < |cl[d]| && !(d == b && j == i) ::
      cl[d][j] != cl[b][i] && Folded(cl[d][j].name) != Folded(cl[b][i].name)
  {
    forall d, j | 0 <= d < CHANNEL_BUCKETS && 0 <= j < |cl[d]| && !(d == b && j == i)
      ensures Folded(cl[d][j].name) != Folded(cl[b][i].name)
    {
      if Folded(cl[d][j].name) == Folded(cl[b][i].name) {
        OnlyOne(cl, b, i, d, j);
      }
    }
  }

  function Unhang(cl: seq<seq<AChannel>>, b: nat, i: nat): (r: seq<seq<AChannel>>)
    requires b < |cl| && i < |cl[b]|
  {
    cl[b := RemoveAt(cl[b], i)]
  }

  /** Where the channels of the shorter list were. */
  lemma UnhangFrom(cl: seq<seq<AChannel>>, b: nat, i: nat, c: nat, j: nat)
    requires b < |cl| && i < |cl[b]| && c < |cl| && j < |Unhang(cl, b, i)[c]|
    ensures var j0 := if c == b && j >= i then j + 1 else j;
      j0 < |cl[c]| && Unhang(cl, b, i)[c][j] == cl[c][j0] && !(c == b && j0 == i)
  {
  }

  lemma UnhangHashed(cl: seq<seq<AChannel>>, b: nat, i: nat)
    requires Hashed(cl) && b < CHANNEL_BUCKETS && i < |cl[b]|
    ensures Hashed(Unhang(cl, b, i))
  {
    var cl': seq<seq<AChannel>> := Unhang(cl, b, i);
    forall c, j | 0 <= c < CHANNEL_BUCKETS && 0 <= j < |cl'[c]| ensures ClHash(cl'[c][j].name) == c {
      UnhangFrom(cl, b, i, c, j);
    }
    forall c, j, k | 0 <= c < CHANNEL_BUCKETS && 0 <= j < k < |cl'[c]|
      ensures Folded(cl'[c][j].name) != Folded(cl'[c][k].name)
    {
      UnhangFrom(cl, b, i, c, j);
      UnhangFrom(cl, b, i, c, k);
    }
  }

  lemma UnhangTo(cl: seq<seq<AChannel>>, b: nat, i: nat, key: string)
    requires Hashed(cl) && b < CHANNEL_BUCKETS && i < |cl[b]| && key != Folded(cl[b][i].name) && Stored(cl, key)
    ensures Stored(Unhang(cl, b, i), key)
  {
    var j :| Sits(cl, key, j);
    var c := ClHash(key);
    var j' := if c == b && j > i then j - 1 else j;
    assert Unhang(cl, b, i)[c][j'] == cl[c][j];
    assert Sits(Unhang(cl, b, i), key, j');
  }

  lemma UnhangLeaves(cl: seq<seq<AChannel>>, b: nat, i: nat, c: nat, j: nat)
    requires Hashed(cl) && b < CHANNEL_BUCKETS && i < |cl[b]| && c < CHANNEL_BUCKETS && j < |Unhang(cl, b, i)[c]|
    ensures Unhang(cl, b, i)[c][j] in cl[c] && Folded(Unhang(cl, b, i)[c][j].name) != Folded(cl[b][i].name)
  {
    UnhangFrom(cl, b, i, c, j);
    var j0 := if c == b && j >= i then j + 1 else j;
    if Folded(cl[c][j0].name) == Folded(cl[b][i].name) {
      OnlyOne(cl, b, i, c, j0);
    }
  }

  lemma UnhangKeeps(cl: seq<seq<AChannel>>, b: nat, i: nat, key: string)
    requires Hashed(cl) && b < CHANNEL_BUCKETS && i < |cl[b]| && key == Folded(cl[b][i].name)
    ensures Hashed(Unhang(cl, b, i))
    ensures forall c, j {:trigger Unhang(cl, b, i)[c][j]}
              | 0 <= c < CHANNEL_BUCKETS && 0 <= j < |Unhang(cl, b, i)[c]| ::
      Unhang(cl, b, i)[c][j] in cl[c] && Folded(Unhang(cl, b, i)[c][j].name) != key
    ensures forall k {:trigger Stored(Unhang(cl, b, i), k)} | Stored(cl, k) && k != key :: Stored(Unhang(cl, b, i), k)
  {
    UnhangHashed(cl, b, i);
    forall c, j | 0 <= c < CHANNEL_BUCKETS && 0 <= j < |Unhang(cl, b, i)[c]|
      ensures Unhang(cl, b, i)[c][j] in cl[c] && Folded(Unhang(cl, b, i)[c][j].name) != key
    {
      UnhangLeaves(cl, b, i, c, j);
    }
    forall k | Stored(cl, k) && k != key ensures Stored(Unhang(cl, b, i), k) {
      UnhangTo(cl, b, i, k);
    }
  }

  /** A new channel goes to the front of its bucket. */
  function HangUp(cl: seq<seq<AChannel>>, c: AChannel): (r: seq<seq<AChannel>>)
    requires |cl| == CHANNEL_BUCKETS
  {
    cl[ClHash(c.name) := [c] + cl[ClHash(c.name)]]
  }

  lemma HangUpKeeps(cl: seq<seq<AChannel>>, c: AChannel)
    requires Hashed(cl) && !Stored(cl, Folded(c.name))
    ensures Hashed(HangUp(cl, c)) && Stored(HangUp(cl, c), Folded(c.name))
    ensures forall k {:trigger Stored(HangUp(cl, c), k)} | Stored(cl, k) :: Stored(HangUp(cl, c), k)
  {
    var cl', b := HangUp(cl, c), ClHash(c.name);
    FoldedTwice(c.name);
    forall j | 0 <= j < |cl[b]| ensures Folded(cl[b][j].name) != Folded(c.name) {
      assert !Sits(cl, Folded(c.name), j);
    }
    assert Sits(cl', Folded(c.name), 0);
    forall k | Stored(cl, k) ensures Stored(cl', k) {
      var j :| Sits(cl, k, j);
      assert Sits(cl', k, if ClHash(k) == b then j + 1 else j);
    }
  }

  /** Where the channels of the longer list were. */
  lemma HangUpFrom(cl: seq<seq<AChannel>>, c: AChannel, d: nat, j: nat)
    requires |cl| == CHANNEL_BUCKETS && d < CHANNEL_BUCKETS && j < |HangUp(cl, c)[d]|
    ensures var b := ClHash(c.name);
      if d == b && j == 0 then HangUp(cl, c)[d][j] == c
      else var j0 := if d == b then j - 1 else j; j0 < |cl[d]| && HangUp(cl, c)[d][j] == cl[d][j0]
  {
  }

  lemma NotStored(cl: seq<seq<AChannel>>, name: string)
    requires Hashed(cl) && forall j | 0 <= j < |cl[ClHash(name)]| :: !FoldEq(cl[ClHash(name)][j].name, name)
    ensures !Stored(cl, Folded(name))
  {
    FoldedTwice(name);
  }

  // ----- links -----

  /** Every channel object of this list is the one in the table. */
  ghost predicate Hung(cl: seq<seq<AChannel>>, cs: seq<AChannel>) {
    |cl| == CHANNEL_BUCKETS && forall x | x in cs :: x in cl[ClHash(x.name)]
  }

  /** Every member is the user object in the table. */
  ghost predicate Known(lusers: map<string, Luser>, us: seq<AUser>) {
    forall x | x in us :: x.N.num in lusers && lusers[x.N.num] == x.N
  }

  lemma {:induction false} KeysIn(cs: seq<AChannel>, x: AChannel)
    requires x in cs
    ensures Folded(x.name) in Keys(cs)
  {
    if x != cs[0] {
      KeysIn(cs[1..], x);
      assert Keys(cs)[1..] == Keys(cs[1..]);
    }
  }

  lemma {:induction false} NumsIn(us: seq<AUser>, x: AUser)
    requires x in us
    ensures Member(x.N.num, x.chanop) in Nums(us)
  {
    if x != us[0] {
      NumsIn(us[1..], x);
      assert Nums(us)[1..] == Nums(us[1..]);
    }
  }

  /** Putting one in hurts none. */
  lemma HungStays(cl: seq<seq<AChannel>>, c: AChannel, cs: seq<AChannel>)
    requires Hung(cl, cs)
    ensures Hung(HangUp(cl, c), cs)
  {
  }

  /** Taking a channel out of the table hurts no list that does not name it. */
  lemma HungWithout(cl: seq<seq<AChannel>>, b: nat, i: nat, cs: seq<AChannel>)
    requires Hashed(cl) && b < CHANNEL_BUCKETS && i < |cl[b]| && Hung(cl, cs)
    requires Folded(cl[b][i].name) !in Keys(cs)
    ensures Hung(Unhang(cl, b, i), cs)
  {
    forall x | x in cs ensures x in Unhang(cl, b, i)[ClHash(x.name)] {
      KeysIn(cs, x);
      var c := ClHash(x.name);
      var j :| 0 <= j < |cl[c]| && cl[c][j] == x;
      assert Unhang(cl, b, i)[c][if c == b && j > i then j - 1 else j] == x;
    }
  }

  lemma KnownWithout(lusers: map<string, Luser>, num: string, us: seq<AUser>)
    requires Known(lusers, us) && forall m | m in Nums(us) :: m.num != num
    ensures Known(lusers - {num}, us)
  {
    forall x | x in us ensures x.N.num in lusers - {num} {
      NumsIn(us, x);
    }
  }

  class Tables {
    var lusers: map<string, Luser>
    var channelList: seq<seq<AChannel>>
    var homes: map<string, seq<seq<string>>>
    var servers: Servers
    ghost var model: Net
    ghost var repr: set<object>

    /** The user is in the model as he is here, and his list leads to channels of the table. */
    ghost predicate UserOk(num: string)
      reads this, repr
    {
      && num in lusers && num in model.users && lusers[num] in repr && lusers[num].num == num
      && lusers[num].Read() == model.users[num] && Hung(channelList, lusers[num].channel)
    }

    /** The same for the channel at position `i` of bucket `b` and its members. */
    ghost predicate ChanOk(b: int, i: int)
      requires 0 <= b < |channelList| && 0 <= i < |channelList[b]|
      reads this, repr
    {
      var chan := channelList[b][i];
      && chan in repr && Folded(chan.name) in model.chans
      && chan.Read() == model.chans[Folded(chan.name)] && Known(lusers, chan.users)
    }

    /** `model` is what the tables hold, and all links between the objects of the tables stay in the
        tables. */
    ghost predicate Mirrors()
      reads this, repr
    {
      && Hashed(channelList) && this !in repr
      && homes == model.homes && servers == model.servers && lusers.Keys == model.users.Keys
      && (forall num {:trigger UserOk(num)} | num in lusers :: UserOk(num))
      && (forall b, i {:trigger ChanOk(b, i)} | 0 <= b < CHANNEL_BUCKETS && 0 <= i < |channelList[b]| :: ChanOk(b, i))
      && (forall key {:trigger Stored(channelList, key)} | key in model.chans :: Stored(channelList, key))
    }

    ghost predicate Valid()
      reads this, repr
    {
      Mirrors() && Sound(model)
    }

    /** A search that ends without a hit has seen the whole bucket. */
    lemma Missed(name: string)
      requires Valid()
      requires forall j | 0 <= j < |channelList[ClHash(name)]| :: !FoldEq(channelList[ClHash(name)][j].name, name)
      ensures Folded(name) !in model.chans && !Stored(channelList, Folded(name))
    {
      NotStored(channelList, name);
      assert Folded(name) in model.chans ==> Stored(channelList, Folded(name));
    }

    /** ToChannel(): a channel is found under every spelling of its name. */
    method ToChannel(name: string) returns (b: nat, i: nat)
      requires Valid()
      ensures b == ClHash(name) && i <= |channelList[b]|
      ensures i < |channelList[b]| <==> Folded(name) in model.chans
      ensures i < |channelList[b]| ==> FoldEq(channelList[b][i].name, name)
      ensures i == |channelList[b]| ==> !Stored(channelList, Folded(name))
    {
      b := ComputeClHash(name);
      i := 0;
      while i < |channelList[b]| && !FoldEq(channelList[b][i].name, name)
        invariant i <= |channelList[b]| && forall j | 0 <= j < i :: !FoldEq(channelList[b][j].name, name)
      {
        i := i + 1;
      }
      if i == |channelList[b]| {
        Missed(name);
      } else {
        assert ChanOk(b, i);
      }
    }

    /** A user gets this list of channels. */
    method SetChannels(luser: Luser, channel: seq<AChannel>)
      requires Mirrors() && luser.num in lusers && lusers[luser.num] == luser && Hung(channelList, channel)
      modifies this`model, luser`channel
      ensures luser.num in old(model).users && Mirrors()
      ensures var user := old(model).users[luser.num];
        model == old(model).(users := old(model).users[luser.num := user.(channel := Keys(channel))])
    {
      assert UserOk(luser.num);
      luser.channel := channel;
      model := model.(users := model.users[luser.num := model.users[luser.num].(channel := Keys(channel))]);
      forall num | num in lusers ensures UserOk(num) {
        assert old(UserOk(num));
      }
      forall d, j | 0 <= d < CHANNEL_BUCKETS && 0 <= j < |channelList[d]| ensures ChanOk(d, j) {
        assert old(ChanOk(d, j));
      }
    }

    /** A channel gets this list of users. */
    method SetUsers(chan: AChannel, b: nat, i: nat, users: seq<AUser>)
      requires Mirrors() && b < CHANNEL_BUCKETS && i < |channelList[b]| && channelList[b][i] == chan
      requires Known(lusers, users)
      modifies this`model, chan`users
      ensures Folded(chan.name) in old(model).chans && Mirrors()
      ensures var key := Folded(chan.name);
        model == old(model).(chans := old(model).chans[key := old(model).chans[key].(users := Nums(users))])
    {
      ghost var key := Folded(chan.name);
      assert ChanOk(b, i);
      chan.users := users;
      model := model.(chans := model.chans[key := model.chans[key].(users := Nums(users))]);
      NoOther(channelList, b, i);
      forall num | num in lusers ensures UserOk(num) {
        assert old(UserOk(num));
      }
      forall d, j | 0 <= d < CHANNEL_BUCKETS && 0 <= j < |channelList[d]| ensures ChanOk(d, j) {
        assert old(ChanOk(d, j));
      }
    }

    /** DelChannel() on the channel at position `i` of bucket `b`, which nobody is on */
    method DelChannel(b: nat, i: nat)
      requires Mirrors() && b < CHANNEL_BUCKETS && i < |channelList[b]|
      requires Deserted(model, Folded(channelList[b][i].name))
      modifies this`channelList, this`model
      ensures Mirrors()
      ensures model == old(model).(chans := old(model).chans - {Folded(old(channelList[b][i]).name)})
    {
      ghost var key := Folded(channelList[b][i].name);
      UnhangKeeps(channelList, b, i, key);
      channelList := Unhang(channelList, b, i);
      model := model.(chans := model.chans - {key});
      forall num | num in lusers ensures UserOk(num) {
        assert old(UserOk(num)) && old(Listed(model, num)) == Keys(lusers[num].channel);
        HungWithout(old(channelList), b, i, lusers[num].channel);
      }
      forall c, j | 0 <= c < CHANNEL_BUCKETS && 0 <= j < |channelList[c]| ensures ChanOk(c, j) {
        UnhangFrom(old(channelList), b, i, c, j);
        assert old(ChanOk(c, if c == b && j >= i then j + 1 else j));
      }
    }

    /** onpart() takes the user out of the channel's list, */
    method WithoutMember(us: seq<AUser>, num: string) returns (r: seq<AUser>)
      ensures Nums(r) == DropMember(Nums(us), num) && (Known(lusers, us) ==> Known(lusers, r))
    {
      var j := 0;
      while j < |us| && us[j].N.num != num
        invariant j <= |us| && forall k | 0 <= k < j :: us[k].N.num != num
      {
        j := j + 1;
      }
      RemoveIsDropMember(us, j, num);
      r := RemoveAt(us, j);
      assert forall x | x in r :: x in us;
    }

    /** and the channel out of the user's. */
    method WithoutNode(cs: seq<AChannel>, name: string) returns (r: seq<AChannel>)
      ensures Keys(r) == Drop(Keys(cs), Folded(name)) && (Hung(channelList, cs) ==> Hung(channelList, r))
    {
      var j := 0;
      while j < |cs| && !FoldEq(name, cs[j].name)
        invariant j <= |cs| && forall k | 0 <= k < j :: Folded(cs[k].name) != Folded(name)
      {
        j := j + 1;
      }
      RemoveIsDrop(cs, j, Folded(name));
      r := RemoveAt(cs, j);
      assert forall x | x in r :: x in cs;
    }

    /** Both copies of the membership go, and the channel stays. */
    method EndMembership(luser: Luser, chan: AChannel, name: string, b: nat, i: nat)
      requires Mirrors() && luser.num in lusers && lusers[luser.num] == luser
      requires b < CHANNEL_BUCKETS && i < |channelList[b]| && channelList[b][i] == chan && FoldEq(chan.name, name)
      modifies this`model, repr
      ensures luser.num in old(model).users && Folded(name) in old(model).chans
      ensures Mirrors() && model == Left(old(model), luser.num, Folded(name))
      ensures Nums(chan.users) == Members(model, Folded(name)) && chan.on == model.chans[Folded(name)].on
    {
      assert UserOk(luser.num) && ChanOk(b, i);
      var users := WithoutMember(chan.users, luser.num);
      var channel := WithoutNode(luser.channel, name);
      SetUsers(chan, b, i, users);
      SetChannels(luser, channel);
      assert ChanOk(b, i);
    }

    /** onpart() for one channel */
    method OnPart(num: string, name: string)
      requires Valid()
      modifies this`channelList, this`model, repr
      ensures Valid() && model == Part(old(model), num, Folded(name))
    {
      PartSound(model, num, Folded(name));
      if num !in lusers {
        return;
      }
      var luser := lusers[num];
      var b, i := ToChannel(name);
      if i == |channelList[b]| {
        return;
      }
      var chan := channelList[b][i];
      LeftKeeps(model, num, Folded(name));
      assert UserOk(num);
      EndMembership(luser, chan, name, b, i);
      if chan.users == [] && !chan.on {
        EmptyIsDeserted(model, Folded(name));
        DelChannel(b, i);
      }
    }

    /** onpart() for a list of channels; empty names are skipped. */
    method OnPartList(num: string, names: seq<string>)
      requires Valid()
      modifies this`channelList, this`model, repr
      ensures Valid() && model == PartList(old(model), num, names)
    {
      var rest := names;
      ghost var all := PartList(model, num, names);
      while rest != []
        invariant Valid() && PartList(model, num, rest) == all
      {
        if rest[0] != "" {
          OnPart(num, rest[0]);
        }
        rest := rest[1..];
      }
    }

    // ----- joining -----

    /** NewChannel() for a name that is not in the table */
    method NewChannel(name: string, on: bool)
      requires Mirrors() && !Stored(channelList, Folded(name)) && Folded(name) !in model.chans
      modifies this`channelList, this`model, this`repr
      ensures Mirrors() && model == Open(old(model), name, on)
      ensures fresh(repr - old(repr))
      ensures channelList[ClHash(name)] != [] && FoldEq(channelList[ClHash(name)][0].name, name)
    {
      var chan := new AChannel(name, on);
      HangUpKeeps(channelList, chan);
      channelList := HangUp(channelList, chan);
      model := Open(model, name, on);
      repr := repr + {chan};
      forall num | num in lusers ensures UserOk(num) {
        assert old(UserOk(num));
        HungStays(old(channelList), chan, lusers[num].channel);
      }
      forall c, j | 0 <= c < CHANNEL_BUCKETS && 0 <= j < |channelList[c]| ensures ChanOk(c, j) {
        HangUpFrom(old(channelList), chan, c, j);
        if !(c == ClHash(name) && j == 0) {
          assert old(ChanOk(c, if c == ClHash(name) then j - 1 else j));
        }
      }
    }

    /** JoinUser() */
    method JoinUser(luser: Luser, isOp: bool, b: nat, i: nat)
      requires Mirrors() && luser.num in lusers && lusers[luser.num] == luser
      requires b < CHANNEL_BUCKETS && i < |channelList[b]|
      modifies this`model, repr
      ensures Mirrors() && channelList == old(channelList)
      ensures model == Join(old(model), luser.num, isOp, Folded(old(channelList)[b][i].name))
    {
      var chan := channelList[b][i];
      ghost var key := Folded(chan.name);
      assert UserOk(luser.num) && ChanOk(b, i);
      KeysCons(chan, luser.channel);
      NumsCons(AUser(luser, isOp), chan.users);
      SetChannels(luser, [chan] + luser.channel);
      SetUsers(chan, b, i, [AUser(luser, isOp)] + chan.users);
    }

    /** ToChannel(), then NewChannel() if there is none */
    method Obtain(name: string, on: bool) returns (b: nat, i: nat)
      requires Valid()
      modifies this`channelList, this`model, this`repr
      ensures Mirrors() && model == Open(old(model), name, on)
      ensures fresh(repr - old(repr))
      ensures b < CHANNEL_BUCKETS && i < |channelList[b]| && FoldEq(channelList[b][i].name, name)
    {
      b, i := ToChannel(name);
      if i == |channelList[b]| {
        NewChannel(name, on);
        i := 0;
      }
    }

    /** One name of onjoin()'s list */
    method JoinOneName(num: string, isOp: bool, name: string)
      requires Valid() && num in lusers
      modifies this`channelList, this`model, this`repr, repr
      ensures Valid() && num in lusers && model == JoinOne(old(model), num, isOp, name)
      ensures fresh(repr - old(repr))
    {
      JoinOneSound(model, num, isOp, name);
      if name == "0" {
        PartEverything(num);
      } else if name != "" {
        var b, i := Obtain(name, false);
        assert UserOk(num);
        JoinUser(lusers[num], isOp, b, i);
      }
    }

    /** Leaving the first channel of the list */
    method PartFirst(num: string)
      requires Valid() && num in lusers && lusers[num].channel != []
      modifies this`channelList, this`model, repr
      ensures Valid() && num in lusers && PartAll(model, num) == PartAll(old(model), num)
      ensures |Listed(model, num)| < |Listed(old(model), num)|
    {
      var name := lusers[num].channel[0].name;
      assert UserOk(num);
      assert Listed(model, num)[0] == Folded(name);
      ListedExists(model, num, 0);
      CountPositive(Listed(model, num), 0);
      DropCounts(Listed(model, num), Folded(name), Folded(name));
      OnPart(num, name);
    }

    /** The same until the list is empty */
    method PartEverything(num: string)
      requires Valid() && num in lusers
      modifies this`channelList, this`model, repr
      ensures Valid() && model == PartAll(old(model), num) && num in lusers && lusers[num].channel == []
    {
      while lusers[num].channel != []
        invariant Valid() && num in lusers && PartAll(model, num) == PartAll(old(model), num)
        decreases |Listed(model, num)|
      {
        PartFirst(num);
      }
      assert UserOk(num);
    }

    // ----- quit -----

    /** The search of onquit() in the server's list. */
    static method Unlist(s: seq<string>, num: string) returns (r: seq<string>)
      ensures r == Drop(s, num)
    {
      var j := 0;
      while j < |s| && s[j] != num
        invariant j <= |s| && num !in s[..j]
      {
        j := j + 1;
      }
      DropAt(s, num, j);
      r := if j < |s| then s[..j] + s[j + 1..] else s;
    }

    /** onquit() */
    method OnQuit(num: string)
      requires Valid()
      modifies this`lusers, this`channelList, this`homes, this`model, repr
      ensures Valid() && model == Quit(old(model), num)
    {
      QuitExact(model, num);
      if num !in lusers {
        return;
      }
      PartEverything(num);
      Forget(num);
    }

    /** The last part of onquit() */
    method Forget(num: string)
      requires Valid() && num in lusers
      requires lusers[num].channel == []
      modifies this`lusers, this`homes, this`model
      ensures Mirrors()
      ensures num in old(model).users && old(model).users[num].server in old(model).homes
      ensures |old(model).homes[old(model).users[num].server]| == HOME_BUCKETS
      ensures model == Erase(old(model), num)
    {
      var luser := lusers[num];
      assert UserOk(num);
      var s, h := luser.server, SuHash(num);
      assert s in model.homes && |model.homes[s]| == HOME_BUCKETS;
      NoChannelsNoSeats(model, num);
      Unseated(num);
      var rest := Unlist(homes[s][h], num);
      homes := homes[s := homes[s][h := rest]];
      lusers := lusers - {num};
      model := Erase(model, num);
      forall n | n in lusers ensures UserOk(n) {
        assert old(UserOk(n));
      }
      forall b, i | 0 <= b < CHANNEL_BUCKETS && 0 <= i < |channelList[b]| ensures ChanOk(b, i) {
        assert old(ChanOk(b, i));
      }
    }

    /** No channel links to a user who is a member of none. */
    lemma Unseated(num: string)
      requires Mirrors() && Seatless(model, num)
      ensures forall b, i {:trigger channelList[b][i]} | 0 <= b < CHANNEL_BUCKETS && 0 <= i < |channelList[b]| ::
                Known(lusers - {num}, channelList[b][i].users)
    {
      forall b, i | 0 <= b < CHANNEL_BUCKETS && 0 <= i < |channelList[b]|
        ensures Known(lusers - {num}, channelList[b][i].users)
      {
        var chan := channelList[b][i];
        assert ChanOk(b, i) && Members(model, Folded(chan.name)) == Nums(chan.users);
        KnownWithout(lusers, num, chan.users);
      }
    }

    // ----- squit -----

    /** The inner loop of onsquit() over one bucket */
    method QuitOneBucket(key: string, h: nat)
      requires Valid() && key in homes && h < HOME_BUCKETS
      modifies this`lusers, this`channelList, this`homes, this`model, repr
      ensures Valid() && model == QuitBucket(old(model), key, h)
      ensures QuitFrom(model, key, h + 1) == QuitFrom(old(model), key, h)
    {
      BucketIsInBucket(model, key, h);
      while homes[key][h] != []
        invariant Valid() && key in homes && |homes[key]| == HOME_BUCKETS && servers == old(servers)
        invariant QuitBucket(model, key, h) == QuitBucket(old(model), key, h)
        decreases |homes[key][h]|
      {
        QuitShrinks(model, key, h);
        OnQuit(homes[key][h][0]);
      }
    }

    /** The loops of onsquit() over the server's buckets */
    method QuitAllOn(key: string)
      requires Valid() && key in homes
      modifies this`lusers, this`channelList, this`homes, this`model, repr
      ensures Valid() && model == QuitFrom(old(model), key, 0)
    {
      var h := 0;
      while h < HOME_BUCKETS
        invariant Valid() && key in homes && h <= HOME_BUCKETS
        invariant QuitFrom(model, key, h) == QuitFrom(old(model), key, 0)
      {
        QuitOneBucket(key, h);
        h := h + 1;
      }
    }

    /** The loop of onsquit() over the servers below */
    method SquitAllBelow(key: string)
      requires Valid() && Squittable(model, key)
      modifies this`lusers, this`channelList, this`homes, this`servers, this`model, repr
      ensures Valid() && model == SquitBelow(old(model), key)
      decreases Size(Find(servers, key).down), 1
    {
      while Find(servers, key).down.Node?
        invariant Valid() && Squittable(model, key)
        invariant SquitBelow(model, key) == SquitBelow(old(model), key)
        invariant Size(Find(servers, key).down) <= old(Size(Find(servers, key).down))
        decreases Size(Find(servers, key).down)
      {
        ghost var m := model;
        ChildReady(m, key);
        var child := Find(servers, key).down.name;
        OnSquit(child, Absent);
        ChildGone(m, key, model);
      }
    }

    /** onsquit() */
    method OnSquit(name: string, stamp: Stamp)
      requires Valid()
      modifies this`lusers, this`channelList, this`homes, this`servers, this`model, repr
      ensures Valid() && model == NetSteps.OnSquit(old(model), name, stamp)
      decreases Size(Find(servers, Folded(name))), 0
    {
      var key := Folded(name);
      var t := Find(servers, key);
      if t.None? {
        return;
      }
      if t != servers && stamp.Given? && t.ts != stamp.ts {
        return;
      }
      ghost var m := model;
      SquitSound(m, key);
      SquitAllBelow(key);
      ReadyToQuit(m, key, model);
      UnlinkServer(key);
    }

    /** The last part of onsquit() */
    method UnlinkServer(key: string)
      requires Valid() && key in homes
      modifies this`lusers, this`channelList, this`homes, this`servers, this`model, repr
      ensures Mirrors() && model == QuitServer(old(model), key)
    {
      QuitAllOn(key);
      DropServer(key);
    }

    method DropServer(key: string)
      requires Valid()
      modifies this`homes, this`servers, this`model
      ensures Mirrors()
      ensures model == old(model).(servers := Prune(old(model).servers, key), homes := old(model).homes - {key})
    {
      servers := Prune(servers, key);
      homes := homes - {key};
      model := model.(servers := servers, homes := homes);
      SameObjects();
    }

    /** Users and channels, and what the model says of them, are the same. */
    twostate lemma SameObjects()
      requires old(Mirrors()) && unchanged(`lusers) && unchanged(`channelList) && unchanged(`repr) && unchanged(repr)
      requires model.users == old(model.users) && model.chans == old(model.chans)
      requires homes == model.homes && servers == model.servers
      ensures Mirrors()
    {
      forall num | num in lusers ensures UserOk(num) {
        assert old(UserOk(num));
      }
      forall b, i | 0 <= b < CHANNEL_BUCKETS && 0 <= i < |channelList[b]| ensures ChanOk(b, i) {
        assert old(ChanOk(b, i));
      }
    }

    // ----- the other steps -----

    /** onserver(); the result is false when an unknown uplink ends the program. A name that is in use
        makes the picture unsound. */
    method OnServer(uplink: string, name: string, yy: string, ts: int) returns (alive: bool)
      requires Valid()
      modifies this`servers, this`homes, this`model
      ensures NetSteps.OnServer(old(model), uplink, name, yy, ts) == if alive then Goes(model) else Crash
      ensures Mirrors() && (!alive ==> unchanged(this))
      ensures alive && Valid() <==> KnownUplink(old(servers), uplink) && Folded(name) !in old(homes)
    {
      OnServerSoundIff(model, uplink, name, yy, ts);
      alive := uplink == "" || FindYY(servers, uplink).Node?;
      if alive {
        HangServer(uplink, name, yy, ts);
      }
    }

    /** The new server gets its place, and nobody is on it yet. */
    method HangServer(uplink: string, name: string, yy: string, ts: int)
      requires Mirrors() && KnownUplink(servers, uplink)
      modifies this`servers, this`homes, this`model
      ensures Mirrors() && KnownUplink(old(model).servers, uplink)
      ensures model == AddServer(old(model), uplink, name, yy, ts)
    {
      if uplink == "" {
        servers := Node(name, yy, ts, None, servers);
      } else {
        servers := Hang(servers, uplink, name, yy, ts);
      }
      homes := homes[Folded(name) := NoUsers()];
      model := AddServer(model, uplink, name, yy, ts);
      SameObjects();
    }

    /** The loop of onjoin() */
    method JoinNames(num: string, created: bool, names: seq<string>)
      requires Valid() && num in lusers
      modifies this`channelList, this`model, this`repr, repr
      ensures Valid() && fresh(repr - old(repr))
      ensures model == JoinList(old(model), num, created, names)
    {
      var rest := names;
      ghost var all := JoinList(model, num, created, names);
      while rest != []
        invariant Valid() && num in lusers && fresh(repr - old(repr))
        invariant JoinList(model, num, created, rest) == all
      {
        JoinOneName(num, created, rest[0]);
        rest := rest[1..];
      }
    }

    /** onjoin() */
    method OnJoin(num: string, created: bool, names: seq<string>)
      requires Valid()
      modifies this`channelList, this`model, this`repr, repr
      ensures Valid() && fresh(repr - old(repr))
      ensures model == if num in old(model).users then JoinList(old(model), num, created, names) else old(model)
    {
      if num in lusers {
        JoinNames(num, created, names);
      }
    }

    /** Who of the listed members is known joins the channel at position `i` of bucket `b`. */
    method JoinMembers(ms: seq<Member>, b: nat, i: nat)
      requires Mirrors() && b < CHANNEL_BUCKETS && i < |channelList[b]|
      modifies this`model, repr
      ensures Mirrors()
      ensures model == JoinAll(old(model), Folded(channelList[b][i].name), ms)
    {
      var rest := ms;
      ghost var key := Folded(channelList[b][i].name);
      ghost var all := JoinAll(model, key, ms);
      while rest != []
        invariant Mirrors() && JoinAll(model, key, rest) == all
      {
        if rest[0].num in lusers {
          assert UserOk(rest[0].num);
          JoinUser(lusers[rest[0].num], rest[0].chanop, b, i);
        }
        rest := rest[1..];
      }
    }

    /** onburst(); a new channel of which no listed member is known makes the picture unsound. */
    method OnBurst(name: string, ms: seq<Member>)
      requires Valid()
      modifies this`channelList, this`model, this`repr, repr
      ensures Mirrors() && fresh(repr - old(repr))
      ensures model == Burst(old(model), name, ms)
      ensures Valid() <==> Folded(name) in old(model).chans || SomeKnown(old(model), ms)
    {
      BurstSoundIff(model, name, ms);
      var b, i := Obtain(name, false);
      JoinMembers(ms, b, i);
    }

    /** `on` of one channel */
    method SetOn(chan: AChannel, on: bool, b: nat, i: nat)
      requires Mirrors() && b < CHANNEL_BUCKETS && i < |channelList[b]| && channelList[b][i] == chan
      modifies this`model, repr
      ensures Mirrors() && Folded(chan.name) in old(model).chans
      ensures var key := Folded(chan.name);
        && model == old(model).(chans := old(model).chans[key := old(model).chans[key].(on := on)])
        && chan.Read() == model.chans[key]
    {
      assert ChanOk(b, i);
      chan.on := on;
      model := model.(chans := model.chans[Folded(chan.name) := chan.Read()]);
      NoOther(channelList, b, i);
      forall num | num in lusers ensures UserOk(num) {
        assert old(UserOk(num));
      }
      forall d, j | 0 <= d < CHANNEL_BUCKETS && 0 <= j < |channelList[d]| ensures ChanOk(d, j) {
        assert old(ChanOk(d, j));
      }
    }

    /** join() by the bot */
    method JoinSelf(name: string)
      requires Valid()
      modifies this`channelList, this`model, this`repr, repr
      ensures Valid() && fresh(repr - old(repr))
      ensures model == BotJoin(old(model), name)
    {
      BotJoinSound(model, name);
      var b, i := ToChannel(name);
      if i == |channelList[b]| {
        NewChannel(name, true);
      } else {
        SetOn(channelList[b][i], true, b, i);
      }
    }

    /** part() by the bot, also when it is kicked */
    method PartSelf(name: string)
      requires Valid()
      modifies this`channelList, this`model, repr
      ensures Valid() && model == BotPart(old(model), name)
    {
      BotPartSound(model, name);
      var b, i := ToChannel(name);
      if i < |channelList[b]| {
        var chan := channelList[b][i];
        SetOn(chan, false, b, i);
        if chan.users == [] {
          SetChannel(old(model), Folded(name), chan.Read());
          EmptyIsDeserted(model, Folded(name));
          DelChannel(b, i);
        }
      }
    }

    /** onkick() */
    method OnKick(me: string, num: string, name: string)
      requires Valid()
      modifies this`channelList, this`model, repr
      ensures Valid() && model == if num == me then BotPart(old(model), name) else Part(old(model), num, Folded(name))
    {
      if num == me {
        PartSelf(name);
      } else {
        OnPart(num, name);
      }
    }

    /** A new user enters the user table and his server's list. */
    method Settle(num: string, nick: string, s: string)
      requires Valid() && num !in lusers && s in homes
      modifies this`lusers, this`homes, this`model, this`repr
      ensures Mirrors() && fresh(repr - old(repr))
      ensures |old(model).homes[s]| == HOME_BUCKETS
      ensures var home := old(model).homes[s][SuHash(num) := [num] + old(model).homes[s][SuHash(num)]];
        model == old(model).(users := old(model).users[num := User(nick, s, [])],
                             homes := old(model).homes[s := home])
    {
      assert |model.homes[s]| == HOME_BUCKETS;
      Enrol(num, nick, s);
      var h := SuHash(num);
      label Enrolled:
      homes := homes[s := homes[s][h := [num] + homes[s][h]]];
      model := model.(homes := homes);
      SameObjects@Enrolled();
    }

    /** A new user enters the user table. */
    method Enrol(num: string, nick: string, s: string)
      requires Mirrors() && num !in lusers
      modifies this`lusers, this`model, this`repr
      ensures Mirrors() && fresh(repr - old(repr))
      ensures model == old(model).(users := old(model).users[num := User(nick, s, [])])
    {
      var user := new Luser(num, nick, s);
      lusers := lusers[num := user];
      repr := repr + {user};
      model := model.(users := model.users[num := user.Read()]);
      forall n | n in lusers ensures UserOk(n) {
        assert n != num ==> old(UserOk(n));
      }
      forall b, i | 0 <= b < CHANNEL_BUCKETS && 0 <= i < |channelList[b]| ensures ChanOk(b, i) {
        assert old(ChanOk(b, i));
      }
    }

    /** A user whose numeric is given away again quits. */
    method EndOldUser(num: string)
      requires Valid()
      modifies this`lusers, this`channelList, this`homes, this`model, repr
      ensures Valid() && model == Quit(old(model), num)
    {
      if num in lusers {
        OnQuit(num);
      }
    }

    /** onnick() for a new user */
    method OnNewUser(num: string, nick: string, yy: string)
      requires Valid() && HasHome(servers, nick, yy)
      modifies this`lusers, this`channelList, this`homes, this`model, this`repr, repr
      ensures Valid() && fresh(repr - old(repr))
      ensures model == AddUser(old(model), num, nick, yy)
    {
      ghost var m := model;
      AddUserSound(m, num, nick, yy);
      NewHome(m, num, nick, yy);
      EndOldUser(num);
      Settle(num, nick, Home(servers, nick, yy));
    }

    /** A user gets this nick. */
    method SetNick(user: Luser, nick: string)
      requires Mirrors() && user.num in lusers && lusers[user.num] == user
      modifies this`model, user`nick
      ensures Mirrors() && model == ChangeNick(old(model), user.num, nick)
    {
      assert UserOk(user.num);
      user.nick := nick;
      model := ChangeNick(model, user.num, nick);
      forall num | num in lusers ensures UserOk(num) {
        assert old(UserOk(num));
      }
      forall d, j | 0 <= d < CHANNEL_BUCKETS && 0 <= j < |channelList[d]| ensures ChanOk(d, j) {
        assert old(ChanOk(d, j));
      }
    }

    /** onnick() for a known user */
    method OnNickChange(num: string, nick: string)
      requires Valid()
      modifies this`model, repr
      ensures Valid() && model == ChangeNick(old(model), num, nick)
    {
      ChangeNickSound(model, num, nick);
      if num in lusers {
        assert UserOk(num);
        SetNick(lusers[num], nick);
      }
    }
  }

  lemma NewHome(net: Net, num: string, nick: string, yy: string)
    requires Sound(net) && HasHome(net.servers, nick, yy)
    ensures var net1 := Quit(net, num);
      && Sound(net1) && num !in net1.users && net1.servers == net.servers && Home(net.servers, nick, yy) in net1.homes
  {
    QuitExact(net, num);
    HomeExists(net, nick, yy);
  }

  lemma {:induction false} DropAt(s: seq<string>, x: string, j: nat)
    requires j <= |s| && x !in s[..j] && (j < |s| ==> s[j] == x)
    ensures Drop(s, x) == if j < |s| then s[..j] + s[j + 1..] else s
    decreases |s|
  {
    if j > 0 {
      assert s[1..][..j - 1] == s[..j][1..];
      DropAt(s[1..], x, j - 1);
    } else if s != [] {
      assert s[..0] + s[1..] == s[1..];
    }
  }
}
