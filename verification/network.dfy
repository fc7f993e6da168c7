// The bot's picture of the network: the tree of servers, the users homed on each of them, and
// channel membership, which is stored twice (Sources/servers.c, Sources/users.c,
// Sources/channels.c). This module says when the picture is coherent, and what leaving a channel,
// a quit and a netsplit do to it.
module Network {

  import opened CaseFold
  import opened ServerTree

  /** Buckets of the user list of one server. */
  const HOME_BUCKETS := 100

  datatype Member = Member(num: string, chanop: bool)

  datatype Channel = Channel(name: string, on: bool, users: seq<Member>)

  /** A user; his channels are named by their folded names, his server by its folded name. */
  datatype User = User(nick: string, server: string, channel: seq<string>)

  datatype Net = Net(users: map<string, User>, chans: map<string, Channel>,
                     homes: map<string, seq<seq<string>>>, servers: Servers)

  // ----- lists -----

  function Count(s: seq<string>, x: string): nat {
    if s == [] then 0 else (if s[0] == x then 1 else 0) + Count(s[1..], x)
  }

  function CountMember(ms: seq<Member>, num: string): nat {
    if ms == [] then 0 else (if ms[0].num == num then 1 else 0) + CountMember(ms[1..], num)
  }

  /** The list without its first occurrence of `x`. */
  function Drop(s: seq<string>, x: string): seq<string> {
    if s == [] then [] else if s[0] == x then s[1..] else [s[0]] + Drop(s[1..], x)
  }

  function DropMember(ms: seq<Member>, num: string): seq<Member> {
    if ms == [] then [] else if ms[0].num == num then ms[1..] else [ms[0]] + DropMember(ms[1..], num)
  }

  /** The list without all members of the set. */
  function Keep(s: seq<string>, gone: set<string>): seq<string> {
    if s == [] then [] else (if s[0] in gone then [] else [s[0]]) + Keep(s[1..], gone)
  }

  function KeepMembers(ms: seq<Member>, gone: set<string>): seq<Member> {
    if ms == [] then [] else (if ms[0].num in gone then [] else [ms[0]]) + KeepMembers(ms[1..], gone)
  }

  lemma {:induction false} DropCounts(s: seq<string>, x: string, y: string)
    ensures Count(Drop(s, x), y) == Count(s, y) - if x == y && Count(s, x) > 0 then 1 else 0
    ensures |Drop(s, x)| == |s| - if Count(s, x) > 0 then 1 else 0
  {
    if s != [] && s[0] != x {
      DropCounts(s[1..], x, y);
      assert ([s[0]] + Drop(s[1..], x))[1..] == Drop(s[1..], x);
    }
  }

  lemma {:induction false} DropMemberCounts(ms: seq<Member>, x: string, y: string)
    ensures CountMember(DropMember(ms, x), y) == CountMember(ms, y) - if x == y && CountMember(ms, x) > 0 then 1 else 0
  {
    if ms != [] && ms[0].num != x {
      DropMemberCounts(ms[1..], x, y);
      assert ([ms[0]] + DropMember(ms[1..], x))[1..] == DropMember(ms[1..], x);
    }
  }

  lemma {:induction false} KeepCounts(s: seq<string>, gone: set<string>, x: string)
    ensures Count(Keep(s, gone), x) == if x in gone then 0 else Count(s, x)
  {
    if s != [] {
      KeepCounts(s[1..], gone, x);
      assert s[0] !in gone ==> ([s[0]] + Keep(s[1..], gone))[1..] == Keep(s[1..], gone);
      assert s[0] in gone ==> [] + Keep(s[1..], gone) == Keep(s[1..], gone);
    }
  }

  lemma {:induction false} KeepMemberCounts(ms: seq<Member>, gone: set<string>, x: string)
    ensures CountMember(KeepMembers(ms, gone), x) == if x in gone then 0 else CountMember(ms, x)
  {
    if ms != [] {
      KeepMemberCounts(ms[1..], gone, x);
      assert ms[0].num !in gone ==> ([ms[0]] + KeepMembers(ms[1..], gone))[1..] == KeepMembers(ms[1..], gone);
      assert ms[0].num in gone ==> [] + KeepMembers(ms[1..], gone) == KeepMembers(ms[1..], gone);
    }
  }

  lemma {:induction false} KeepTwice(s: seq<string>, a: set<string>, b: set<string>)
    ensures Keep(Keep(s, a), b) == Keep(s, a + b)
  {
    if s != [] {
      KeepTwice(s[1..], a, b);
      assert s[0] !in a ==> ([s[0]] + Keep(s[1..], a))[1..] == Keep(s[1..], a);
      assert s[0] in a ==> [] + Keep(s[1..], a) == Keep(s[1..], a);
    }
  }

  lemma {:induction false} KeepMembersTwice(ms: seq<Member>, a: set<string>, b: set<string>)
    ensures KeepMembers(KeepMembers(ms, a), b) == KeepMembers(ms, a + b)
  {
    if ms != [] {
      KeepMembersTwice(ms[1..], a, b);
      assert ms[0].num !in a ==> ([ms[0]] + KeepMembers(ms[1..], a))[1..] == KeepMembers(ms[1..], a);
      assert ms[0].num in a ==> [] + KeepMembers(ms[1..], a) == KeepMembers(ms[1..], a);
    }
  }

  lemma {:induction false} KeepAll(s: seq<string>, gone: set<string>)
    requires forall x | x in gone :: Count(s, x) == 0
    ensures Keep(s, gone) == s
  {
    if s != [] {
      assert Count(s, s[0]) > 0;
      assert forall x | x in gone :: Count(s[1..], x) <= Count(s, x);
      KeepAll(s[1..], gone);
    }
  }

  lemma {:induction false} KeepAllMembers(ms: seq<Member>, gone: set<string>)
    requires forall x | x in gone :: CountMember(ms, x) == 0
    ensures KeepMembers(ms, gone) == ms
  {
    if ms != [] {
      assert CountMember(ms, ms[0].num) > 0;
      assert forall x | x in gone :: CountMember(ms[1..], x) <= CountMember(ms, x);
      KeepAllMembers(ms[1..], gone);
    }
  }

  lemma {:induction false} DropThenKeepMembers(ms: seq<Member>, x: string, gone: set<string>)
    requires x in gone
    ensures KeepMembers(DropMember(ms, x), gone) == KeepMembers(ms, gone)
  {
    if ms != [] && ms[0].num != x {
      DropThenKeepMembers(ms[1..], x, gone);
      assert ([ms[0]] + DropMember(ms[1..], x))[1..] == DropMember(ms[1..], x);
    } else if ms != [] {
      assert [] + KeepMembers(ms[1..], gone) == KeepMembers(ms[1..], gone);
    }
  }

  // ----- coherence -----

  /** lu_hash() and su_hash() sum the same bytes. */
  function ByteSum(s: string): nat {
    if s == [] then 0 else ByteSum(s[..|s| - 1]) + s[|s| - 1] as nat
  }

  function SuHash(num: string): nat {
    ByteSum(num) % HOME_BUCKETS
  }

  function Members(net: Net, key: string): seq<Member> {
    if key in net.chans then net.chans[key].users else []
  }

  function Listed(net: Net, num: string): seq<string> {
    if num in net.users then net.users[num].channel else []
  }

  /** The two copies of one membership agree: the user is in the channel's list as often as the
      channel is in the user's list, and in neither if one of them does not exist. */
  predicate Agree(net: Net, num: string, key: string) {
    CountMember(Members(net, key), num) == Count(Listed(net, num), key)
  }

  /** The user is in bucket `h` of the server exactly if he belongs there, and then once. */
  predicate Homed(net: Net, server: string, h: nat, num: string)
    requires server in net.homes && h < |net.homes[server]|
  {
    Count(net.homes[server][h], num)
    == if num in net.users && net.users[num].server == server && SuHash(num) == h then 1 else 0
  }

  ghost predicate MembershipOk(net: Net) {
    forall num, key {:trigger Agree(net, num, key)} :: Agree(net, num, key)
  }

  ghost predicate HomesOk(net: Net) {
    && (forall num {:trigger net.users[num].server} | num in net.users :: net.users[num].server in net.homes)
    && (forall s {:trigger |net.homes[s]|} | s in net.homes :: |net.homes[s]| == HOME_BUCKETS)
    && (forall s, h, num {:trigger Homed(net, s, h, num)} | s in net.homes && 0 <= h < |net.homes[s]| ::
          Homed(net, s, h, num))
  }

  /** Channels are stored under their folded name, and an empty one only while the bot is on it. */
  predicate ChansOk(net: Net) {
    forall key {:trigger net.chans[key]} | key in net.chans ::
      Folded(net.chans[key].name) == key && (net.chans[key].users == [] ==> net.chans[key].on)
  }

  ghost predicate Coherent(net: Net) {
    MembershipOk(net) && HomesOk(net) && ChansOk(net)
  }

  /** Listed channels exist and their members are known users. */
  lemma ListedExists(net: Net, num: string, k: nat)
    requires Coherent(net) && k < |Listed(net, num)|
    ensures Listed(net, num)[k] in net.chans
  {
    assert Agree(net, num, Listed(net, num)[k]);
    CountPositive(Listed(net, num), k);
  }

  lemma {:induction false} CountPositive(s: seq<string>, k: nat)
    requires k < |s|
    ensures Count(s, s[k]) > 0
  {
    if k > 0 {
      CountPositive(s[1..], k - 1);
    }
  }

  // ----- leaving a channel -----

  function Edit(net: Net, num: string, ks: seq<string>, key: string, ms: seq<Member>): Net
    requires num in net.users && key in net.chans
  {
    net.(users := net.users[num := net.users[num].(channel := ks)],
         chans := net.chans[key := net.chans[key].(users := ms)])
  }

  /** DelChannel() on an empty channel the bot is not on. */
  function Sweep(net: Net, key: string): Net {
    if key in net.chans && net.chans[key].users == [] && !net.chans[key].on
    then net.(chans := net.chans - {key})
    else net
  }

  /** Both copies of one membership are gone; the channel is still there. */
  function Left(net: Net, num: string, key: string): Net
    requires num in net.users && key in net.chans
  {
    Edit(net, num, Drop(Listed(net, num), key), key, DropMember(Members(net, key), num))
  }

  /** onpart() for one channel */
  function Part(net: Net, num: string, key: string): Net {
    if num !in net.users || key !in net.chans then net
    else Sweep(Left(net, num, key), key)
  }

  lemma SweepKeeps(net: Net, key: string)
    requires MembershipOk(net) && HomesOk(net)
    ensures MembershipOk(Sweep(net, key)) && HomesOk(Sweep(net, key))
    ensures forall k | k != key :: k in Sweep(net, key).chans <==> k in net.chans
  {
    var net' := Sweep(net, key);
    forall n, k ensures Agree(net', n, k) {
      assert Agree(net, n, k);
    }
    forall s, h, n | s in net'.homes && 0 <= h < |net'.homes[s]| ensures Homed(net', s, h, n) {
      assert Homed(net, s, h, n);
    }
  }

  lemma EditKeeps(net: Net, num: string, ks: seq<string>, key: string, ms: seq<Member>)
    requires Coherent(net) && num in net.users && key in net.chans
    requires forall n {:trigger CountMember(ms, n)} | n != num ::
               CountMember(ms, n) == CountMember(Members(net, key), n)
    requires forall k {:trigger Count(ks, k)} | k != key :: Count(ks, k) == Count(Listed(net, num), k)
    requires CountMember(ms, num) == Count(ks, key)
    ensures MembershipOk(Edit(net, num, ks, key, ms)) && HomesOk(Edit(net, num, ks, key, ms))
  {
    var net' := Edit(net, num, ks, key, ms);
    forall n, k ensures Agree(net', n, k) {
      assert Agree(net, n, k);
      assert CountMember(ms, n) >= 0 && Count(ks, k) >= 0;
    }
    forall s, h, n | s in net'.homes && 0 <= h < |net'.homes[s]| ensures Homed(net', s, h, n) {
      assert Homed(net, s, h, n);
    }
  }

  lemma LeftKeeps(net: Net, num: string, key: string)
    requires Coherent(net) && num in net.users && key in net.chans
    ensures MembershipOk(Left(net, num, key)) && HomesOk(Left(net, num, key))
  {
    var ks, ms := Drop(Listed(net, num), key), DropMember(Members(net, key), num);
    forall n
      ensures CountMember(ms, n) == CountMember(Members(net, key), n)
                                    - if n == num && CountMember(Members(net, key), num) > 0 then 1 else 0
    {
      DropMemberCounts(Members(net, key), num, n);
    }
    forall k
      ensures Count(ks, k) == Count(Listed(net, num), k) - if k == key && Count(Listed(net, num), key) > 0 then 1 else 0
    {
      DropCounts(Listed(net, num), key, k);
    }
    assert Agree(net, num, key);
    EditKeeps(net, num, ks, key, ms);
  }

  lemma PartCoherent(net: Net, num: string, key: string)
    requires Coherent(net)
    ensures Coherent(Part(net, num, key))
  {
    if num in net.users && key in net.chans {
      LeftKeeps(net, num, key);
      SweepKeeps(Left(net, num, key), key);
    }
  }

  /** A channel without members is in nobody's list. */
  ghost predicate Deserted(net: Net, key: string) {
    forall num {:trigger Listed(net, num)} :: key !in Listed(net, num)
  }

  lemma EmptyIsDeserted(net: Net, key: string)
    requires MembershipOk(net) && Members(net, key) == []
    ensures Deserted(net, key)
  {
    forall num ensures key !in Listed(net, num) {
      assert Agree(net, num, key);
      if k :| 0 <= k < |Listed(net, num)| && Listed(net, num)[k] == key {
        CountPositive(Listed(net, num), k);
      }
    }
  }

  /** A user without channels is a member of none. */
  ghost predicate Seatless(net: Net, num: string) {
    forall key {:trigger Members(net, key)} :: forall m | m in Members(net, key) :: m.num != num
  }

  lemma NoChannelsNoSeats(net: Net, num: string)
    requires MembershipOk(net) && Listed(net, num) == []
    ensures Seatless(net, num)
  {
    forall key, m | m in Members(net, key) ensures m.num != num {
      assert Agree(net, num, key);
      NotCounted(Members(net, key), num);
    }
  }

  lemma {:induction false} NotCounted(ms: seq<Member>, num: string)
    requires CountMember(ms, num) == 0
    ensures forall m | m in ms :: m.num != num
  {
    if ms != [] {
      NotCounted(ms[1..], num);
    }
  }

  // ----- removing users -----

  /** The network as if the users had never been there. */
  function WithoutChannel(c: Channel, gone: set<string>): Channel {
    c.(users := KeepMembers(c.users, gone))
  }

  predicate Survives(c: Channel, gone: set<string>) {
    c.on || KeepMembers(c.users, gone) != []
  }

  function KeepBuckets(bs: seq<seq<string>>, gone: set<string>): (r: seq<seq<string>>)
    ensures |r| == |bs| && forall h | 0 <= h < |bs| :: r[h] == Keep(bs[h], gone)
  {
    seq(|bs|, h requires 0 <= h < |bs| => Keep(bs[h], gone))
  }

  function Without(net: Net, gone: set<string>): Net {
    Net(map num | num in net.users && num !in gone :: net.users[num],
        map key | key in net.chans && Survives(net.chans[key], gone) :: WithoutChannel(net.chans[key], gone),
        map s | s in net.homes :: KeepBuckets(net.homes[s], gone),
        net.servers)
  }

  lemma ChansTwice(net: Net, a: set<string>, b: set<string>)
    ensures Without(Without(net, a), b).chans == Without(net, a + b).chans
  {
    var x, y := Without(Without(net, a), b), Without(net, a + b);
    forall key | key in net.chans
      ensures KeepMembers(KeepMembers(net.chans[key].users, a), b) == KeepMembers(net.chans[key].users, a + b)
      ensures KeepMembers(net.chans[key].users, a) == [] ==> KeepMembers(net.chans[key].users, a + b) == []
    {
      KeepMembersTwice(net.chans[key].users, a, b);
    }
    assert x.chans.Keys == y.chans.Keys;
  }

  lemma HomesTwice(net: Net, a: set<string>, b: set<string>)
    ensures Without(Without(net, a), b).homes == Without(net, a + b).homes
  {
    var x, y := Without(Without(net, a), b), Without(net, a + b);
    forall s | s in net.homes ensures x.homes[s] == y.homes[s] {
      forall h | 0 <= h < |net.homes[s]| ensures x.homes[s][h] == y.homes[s][h] {
        KeepTwice(net.homes[s][h], a, b);
      }
    }
  }

  lemma WithoutTwice(net: Net, a: set<string>, b: set<string>)
    ensures Without(Without(net, a), b) == Without(net, a + b)
  {
    ChansTwice(net, a, b);
    HomesTwice(net, a, b);
    assert Without(Without(net, a), b).users == Without(net, a + b).users;
  }

  lemma WithoutNobody(net: Net, gone: set<string>)
    requires Coherent(net) && forall num | num in gone :: num !in net.users
    ensures Without(net, gone) == net
  {
    var x := Without(net, gone);
    assert x.users == net.users;
    forall key | key in net.chans ensures KeepMembers(net.chans[key].users, gone) == net.chans[key].users {
      forall num | num in gone ensures CountMember(net.chans[key].users, num) == 0 {
        assert Agree(net, num, key);
      }
      KeepAllMembers(net.chans[key].users, gone);
    }
    assert x.chans == net.chans;
    forall s | s in net.homes ensures x.homes[s] == net.homes[s] {
      forall h | 0 <= h < |net.homes[s]| ensures x.homes[s][h] == net.homes[s][h] {
        forall num | num in gone ensures Count(net.homes[s][h], num) == 0 {
          assert Homed(net, s, h, num);
        }
        KeepAll(net.homes[s][h], gone);
      }
    }
    assert x.homes == net.homes;
  }

  lemma WithoutCoherent(net: Net, gone: set<string>)
    requires Coherent(net)
    ensures Coherent(Without(net, gone))
  {
    var x := Without(net, gone);
    forall num, key ensures Agree(x, num, key) {
      assert Agree(net, num, key);
      KeepMemberCounts(Members(net, key), gone, num);
    }
    forall s, h, num | s in x.homes && 0 <= h < |x.homes[s]| ensures Homed(x, s, h, num) {
      assert Homed(net, s, h, num);
      KeepCounts(net.homes[s][h], gone, num);
    }
  }

  // ----- quit -----

  lemma PartTouches(net: Net, num: string, key: string)
    requires num in net.users && key in net.chans
    ensures var n := Part(net, num, key);
      && n.homes == net.homes && n.servers == net.servers && n.users - {num} == net.users - {num}
      && n.chans - {key} == net.chans - {key}
      && var ms := DropMember(net.chans[key].users, num);
         if ms == [] && !net.chans[key].on then key !in n.chans
         else key in n.chans && n.chans[key] == net.chans[key].(users := ms)
  {
  }

  /** Leaving one more channel cannot be told from never having been there. */
  lemma PartInvisible(net: Net, num: string, key: string)
    requires Coherent(net)
    ensures Without(Part(net, num, key), {num}) == Without(net, {num})
  {
    if num in net.users && key in net.chans {
      PartTouches(net, num, key);
      DropThenKeepMembers(net.chans[key].users, num, {num});
      WithoutSame(Part(net, num, key), net, num, key);
    }
  }

  lemma WithoutSame(a: Net, b: Net, num: string, key: string)
    requires a.homes == b.homes && a.servers == b.servers && a.users - {num} == b.users - {num}
    requires a.chans - {key} == b.chans - {key} && key in b.chans
    requires key in a.chans ==>
      && a.chans[key].(users := []) == b.chans[key].(users := [])
      && KeepMembers(a.chans[key].users, {num}) == KeepMembers(b.chans[key].users, {num})
    requires key !in a.chans ==> !Survives(b.chans[key], {num})
    ensures Without(a, {num}) == Without(b, {num})
  {
    var x, y := Without(a, {num}), Without(b, {num});
    assert x.users == a.users - {num} && y.users == b.users - {num};
    forall k | k != key ensures k in a.chans <==> k in b.chans
      ensures k in a.chans ==> a.chans[k] == b.chans[k]
    {
      assert k in a.chans <==> k in a.chans - {key};
      assert k in b.chans <==> k in b.chans - {key};
    }
    assert x.chans.Keys == y.chans.Keys;
    assert x.chans == y.chans;
  }

  /** The loop of onquit() over the user's channels: the first one is left again and again. */
  ghost function PartAll(net: Net, num: string): (r: Net)
    requires Coherent(net)
    ensures Coherent(r) && Listed(r, num) == [] && (num in r.users <==> num in net.users)
    ensures Without(r, {num}) == Without(net, {num})
    ensures num in net.users ==> r.users[num].server == net.users[num].server
    decreases |Listed(net, num)|
  {
    if Listed(net, num) == [] then net
    else
      var key := Listed(net, num)[0];
      ListedExists(net, num, 0);
      PartCoherent(net, num, key);
      PartInvisible(net, num, key);
      DropCounts(Listed(net, num), key, key);
      PartAll(Part(net, num, key), num)
  }

  /** The user leaves his server's list and the user table. */
  function Erase(net: Net, num: string): Net
    requires num in net.users && net.users[num].server in net.homes
    requires |net.homes[net.users[num].server]| == HOME_BUCKETS
  {
    var s, h := net.users[num].server, SuHash(num);
    net.(homes := net.homes[s := net.homes[s][h := Drop(net.homes[s][h], num)]], users := net.users - {num})
  }

  /** onquit() */
  ghost function Quit(net: Net, num: string): Net
    requires Coherent(net)
  {
    if num !in net.users then net else Erase(PartAll(net, num), num)
  }

  lemma {:induction false} KeepIsDrop(s: seq<string>, x: string)
    requires Count(s, x) == 1
    ensures Keep(s, {x}) == Drop(s, x)
  {
    assert [] + Keep(s[1..], {x}) == Keep(s[1..], {x});
    if s[0] == x {
      KeepAll(s[1..], {x});
    } else {
      KeepIsDrop(s[1..], x);
    }
  }

  lemma NotAMember(net: Net, num: string)
    requires Coherent(net) && Listed(net, num) == []
    ensures Without(net, {num}).chans == net.chans
  {
    forall key | key in net.chans ensures KeepMembers(net.chans[key].users, {num}) == net.chans[key].users {
      assert Agree(net, num, key);
      KeepAllMembers(net.chans[key].users, {num});
    }
  }

  /** A quit removes exactly the user: from the user table, his server's list and every channel;
      a channel goes with its last member unless the bot is on it. */
  lemma QuitExact(net: Net, num: string)
    requires Coherent(net)
    ensures Quit(net, num) == Without(net, {num}) && Coherent(Quit(net, num))
  {
    WithoutCoherent(net, {num});
    if num !in net.users {
      WithoutNobody(net, {num});
    } else {
      var net1 := PartAll(net, num);
      var x, y := Quit(net, num), Without(net1, {num});
      NotAMember(net1, num);
      assert x.users == y.users;
      assert x.homes.Keys == y.homes.Keys;
      forall s | s in net1.homes ensures x.homes[s] == y.homes[s] {
        assert |net1.homes[s]| == HOME_BUCKETS;
        forall h | 0 <= h < |net1.homes[s]| ensures x.homes[s][h] == y.homes[s][h] {
          assert Homed(net1, s, h, num);
          if Count(net1.homes[s][h], num) == 0 {
            KeepAll(net1.homes[s][h], {num});
          } else {
            KeepIsDrop(net1.homes[s][h], num);
          }
        }
      }
      assert x.homes == y.homes;
    }
  }

  // ----- squit -----

  function InBucket(net: Net, s: string, h: nat): set<string> {
    set num | num in net.users && net.users[num].server == s && SuHash(num) == h
  }

  lemma {:induction false} KeepShrinks(s: seq<string>, gone: set<string>)
    ensures |Keep(s, gone)| <= |s|
  {
    if s != [] {
      KeepShrinks(s[1..], gone);
    }
  }

  /** Each quit takes its user out of the bucket. */
  lemma QuitShrinks(net: Net, s: string, h: nat)
    requires Coherent(net) && s in net.homes && h < HOME_BUCKETS
    requires |net.homes[s]| == HOME_BUCKETS && net.homes[s][h] != []
    ensures var net1 := Quit(net, net.homes[s][h][0]);
      && Coherent(net1) && s in net1.homes && |net1.homes[s]| == HOME_BUCKETS && net1.servers == net.servers
      && |net1.homes[s][h]| < |net.homes[s][h]|
  {
    var b := net.homes[s][h];
    QuitExact(net, b[0]);
    KeepShrinks(b[1..], {b[0]});
  }

  lemma BucketIsInBucket(net: Net, s: string, h: nat)
    requires Coherent(net) && s in net.homes && h < HOME_BUCKETS
    ensures |net.homes[s]| == HOME_BUCKETS
    ensures forall num | num in InBucket(net, s, h) :: Count(net.homes[s][h], num) == 1
    ensures net.homes[s][h] != [] ==> net.homes[s][h][0] in InBucket(net, s, h)
  {
    assert |net.homes[s]| == HOME_BUCKETS;
    forall num | num in InBucket(net, s, h) ensures Count(net.homes[s][h], num) == 1 {
      assert Homed(net, s, h, num);
    }
    if net.homes[s][h] != [] {
      CountPositive(net.homes[s][h], 0);
      assert Homed(net, s, h, net.homes[s][h][0]);
    }
  }

  /** The loop of onsquit() over one bucket: its first user quits until it is empty. */
  ghost function QuitBucket(net: Net, s: string, h: nat): (r: Net)
    requires Coherent(net) && s in net.homes && h < HOME_BUCKETS
    ensures Coherent(r) && s in r.homes && r.servers == net.servers
    decreases if |net.homes[s]| == HOME_BUCKETS then |net.homes[s][h]| else 0
  {
    assert |net.homes[s]| == HOME_BUCKETS;
    if net.homes[s][h] == [] then net
    else
      QuitShrinks(net, s, h);
      QuitBucket(Quit(net, net.homes[s][h][0]), s, h)
  }

  lemma {:induction false} QuitBucketExact(net: Net, s: string, h: nat)
    requires Coherent(net) && s in net.homes && h < HOME_BUCKETS
    ensures QuitBucket(net, s, h) == Without(net, InBucket(net, s, h))
    decreases if |net.homes[s]| == HOME_BUCKETS then |net.homes[s][h]| else 0
  {
    BucketIsInBucket(net, s, h);
    if net.homes[s][h] == [] {
      WithoutNobody(net, {});
      assert InBucket(net, s, h) == {};
    } else {
      var num := net.homes[s][h][0];
      QuitShrinks(net, s, h);
      QuitBucketExact(Quit(net, num), s, h);
      QuitExact(net, num);
      OneOfBucket(net, s, h, num);
    }
  }

  lemma OneOfBucket(net: Net, s: string, h: nat, num: string)
    requires num in InBucket(net, s, h)
    ensures Without(Without(net, {num}), InBucket(Without(net, {num}), s, h)) == Without(net, InBucket(net, s, h))
  {
    WithoutTwice(net, {num}, InBucket(Without(net, {num}), s, h));
    assert {num} + InBucket(Without(net, {num}), s, h) == InBucket(net, s, h);
  }

  function FromBucket(net: Net, s: string, h: nat): set<string> {
    set num | num in net.users && net.users[num].server == s && SuHash(num) >= h
  }

  /** The loop of onsquit() over the buckets, from bucket `h` on. */
  ghost function QuitFrom(net: Net, s: string, h: nat): (r: Net)
    requires Coherent(net) && s in net.homes && h <= HOME_BUCKETS
    ensures Coherent(r) && s in r.homes && r.servers == net.servers
    decreases HOME_BUCKETS - h
  {
    if h == HOME_BUCKETS then net else QuitFrom(QuitBucket(net, s, h), s, h + 1)
  }

  lemma {:induction false} QuitFromExact(net: Net, s: string, h: nat)
    requires Coherent(net) && s in net.homes && h <= HOME_BUCKETS
    ensures QuitFrom(net, s, h) == Without(net, FromBucket(net, s, h))
    decreases HOME_BUCKETS - h
  {
    if h == HOME_BUCKETS {
      WithoutNobody(net, {});
      assert FromBucket(net, s, h) == {};
    } else {
      var net1 := QuitBucket(net, s, h);
      QuitBucketExact(net, s, h);
      QuitFromExact(net1, s, h + 1);
      WithoutTwice(net, InBucket(net, s, h), FromBucket(net1, s, h + 1));
      assert InBucket(net, s, h) + FromBucket(net1, s, h + 1) == FromBucket(net, s, h);
    }
  }

  function UsersOn(net: Net, gone: set<string>): set<string> {
    set num | num in net.users && net.users[num].server in gone
  }

  /** The network without some servers and the users homed on them. */
  function WithoutServers(net: Net, gone: set<string>, rest: Servers): Net {
    var net1 := Without(net, UsersOn(net, gone));
    net1.(homes := net1.homes - gone, servers := rest)
  }

  lemma WithoutServersCoherent(net: Net, gone: set<string>, rest: Servers)
    requires Coherent(net)
    ensures Coherent(WithoutServers(net, gone, rest))
  {
    var x, y := Without(net, UsersOn(net, gone)), WithoutServers(net, gone, rest);
    WithoutCoherent(net, UsersOn(net, gone));
    forall num, key ensures Agree(y, num, key) {
      assert Agree(x, num, key);
    }
    forall s, h, num | s in y.homes && 0 <= h < |y.homes[s]| ensures Homed(y, s, h, num) {
      assert Homed(x, s, h, num);
    }
    assert forall s | s in y.homes :: |x.homes[s]| == HOME_BUCKETS;
  }

  lemma WithoutServersTwice(net: Net, a: set<string>, b: set<string>, r1: Servers, r2: Servers)
    ensures WithoutServers(WithoutServers(net, a, r1), b, r2) == WithoutServers(net, a + b, r2)
  {
    var n1 := WithoutServers(net, a, r1);
    var u, v := UsersOn(net, a), UsersOn(n1, b);
    WithoutTwice(net, u, v);
    assert u + v == UsersOn(net, a + b);
    var x, y := WithoutServers(n1, b, r2), WithoutServers(net, a + b, r2);
    var z := Without(Without(net, u), v);
    assert x.users == z.users && x.chans == z.chans;
    assert x.homes == z.homes - a - b;
    assert y.homes == z.homes - (a + b);
  }

  lemma AllBuckets(net: Net, key: string)
    ensures FromBucket(net, key, 0) == UsersOn(net, {key})
  {
  }

  /** The users of one server quit, bucket by bucket, and the server is unlinked. */
  ghost function QuitServer(net: Net, key: string): (r: Net)
    requires Coherent(net) && key in net.homes
    ensures r == WithoutServers(net, {key}, Prune(net.servers, key))
  {
    var net1 := QuitFrom(net, key, 0);
    QuitFromExact(net, key, 0);
    AllBuckets(net, key);
    net1.(servers := Prune(net1.servers, key), homes := net1.homes - {key})
  }

  lemma TwoCuts(net: Net, a: set<string>, b: set<string>, net1: Net, r: Net, all: set<string>)
    requires Coherent(net) && a + b == all
    requires net1 == WithoutServers(net, a, net1.servers) && r == WithoutServers(net1, b, r.servers)
    ensures r == WithoutServers(net, all, r.servers)
  {
    WithoutServersTwice(net, a, b, net1.servers, r.servers);
  }

  /** The homes that are left after a cut. */
  lemma CutKeeps(net: Net, a: set<string>, net1: Net)
    requires Coherent(net) && net1 == WithoutServers(net, a, net1.servers)
    ensures Coherent(net1) && net1.homes.Keys == net.homes.Keys - a
  {
    WithoutServersCoherent(net, a, net1.servers);
  }

  /** What onsquit() needs: it knows the server and a list of users for each server below. */
  ghost predicate Squittable(net: Net, key: string) {
    Coherent(net) && UniqueNames(net.servers) && Find(net.servers, key).Node?
    && Below(Find(net.servers, key)) <= net.homes.Keys
  }

  /** What is left after the server and everything below it is gone. */
  ghost predicate CutOff(net: Net, key: string, r: Net) {
    Find(net.servers, key).Node? && r == WithoutServers(net, Below(Find(net.servers, key)), Prune(net.servers, key))
  }

  /** What is left after everything below the server is gone. */
  ghost predicate CutBelow(net: Net, key: string, r: Net) {
    && Find(net.servers, key).Node?
    && r == WithoutServers(net, Names(Find(net.servers, key).down), r.servers)
    && UniqueNames(r.servers) && Prune(r.servers, key) == Prune(net.servers, key)
    && Find(r.servers, key) == Find(net.servers, key).(down := None)
  }

  lemma ReadyToQuit(net: Net, key: string, net1: Net)
    requires Squittable(net, key) && CutBelow(net, key, net1)
    ensures Coherent(net1) && key in net1.homes
  {
    FindFinds(net.servers, key);
    CutKeeps(net, Names(Find(net.servers, key).down), net1);
  }

  lemma AllCut(net: Net, key: string, net1: Net, r: Net)
    requires Squittable(net, key) && CutBelow(net, key, net1)
    requires r == WithoutServers(net1, {key}, Prune(net1.servers, key))
    ensures CutOff(net, key, r)
  {
    FindFinds(net.servers, key);
    var t := Find(net.servers, key);
    TwoCuts(net, Names(t.down), {key}, net1, r, Below(t));
  }

  lemma NothingBelow(net: Net, key: string)
    requires Squittable(net, key) && Find(net.servers, key).down.None?
    ensures CutBelow(net, key, net)
  {
    WithoutNobody(net, UsersOn(net, {}));
    assert net.homes - {} == net.homes;
  }

  lemma ChildReady(net: Net, key: string)
    requires Squittable(net, key) && Find(net.servers, key).down.Node?
    ensures var d := Find(net.servers, key).down;
      Squittable(net, Folded(d.name)) && Find(net.servers, Folded(d.name)) == d
  {
    FirstBelow(net.servers, key);
  }

  lemma ChildGone(net: Net, key: string, net1: Net)
    requires Squittable(net, key) && Find(net.servers, key).down.Node?
    requires CutOff(net, Folded(Find(net.servers, key).down.name), net1)
    ensures Squittable(net1, key)
    ensures Find(net1.servers, key) == var t := Find(net.servers, key); t.(down := t.down.next)
    ensures Prune(net1.servers, key) == Prune(net.servers, key)
  {
    FirstBelow(net.servers, key);
    FindFinds(net.servers, key);
    CutKeeps(net, Below(Find(net.servers, key).down), net1);
  }

  lemma RestGone(net: Net, key: string, net1: Net, r: Net)
    requires Squittable(net, key) && Find(net.servers, key).down.Node?
    requires CutOff(net, Folded(Find(net.servers, key).down.name), net1)
    requires Squittable(net1, key) && CutBelow(net1, key, r)
    ensures CutBelow(net, key, r)
  {
    ChildGone(net, key, net1);
    FirstBelow(net.servers, key);
    var d := Find(net.servers, key).down;
    TwoCuts(net, Below(d), Names(d.next), net1, r, Names(d));
  }

  /** onsquit() once it has found the server: everything below goes first, then its users, then the
      server itself. What is left is the network without that subtree and the users homed on it. */
  ghost function Squit(net: Net, key: string): (r: Net)
    requires Squittable(net, key)
    ensures CutOff(net, key, r)
    decreases Find(net.servers, key), 0
  {
    var net1 := SquitBelow(net, key);
    ReadyToQuit(net, key, net1);
    AllCut(net, key, net1, QuitServer(net1, key));
    QuitServer(net1, key)
  }

  /** The loop of onsquit() over the servers below. */
  ghost function SquitBelow(net: Net, key: string): (r: Net)
    requires Squittable(net, key)
    ensures CutBelow(net, key, r)
    decreases Find(net.servers, key).down, 1
  {
    var d := Find(net.servers, key).down;
    if d.None? then
      NothingBelow(net, key);
      net
    else
      ChildReady(net, key);
      var net1 := Squit(net, Folded(d.name));
      ChildGone(net, key, net1);
      RestGone(net, key, net1, SquitBelow(net1, key));
      SquitBelow(net1, key)
  }
}
