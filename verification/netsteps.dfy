// All protocol steps that change the network picture, and whole runs of them (Sources/servers.c,
// Sources/users.c, Sources/channels.c).
module NetSteps {

  import opened CaseFold
  import opened ServerTree
  import opened Network

  /** The server that holds the users the bot makes up itself; it is not in the tree. */
  const VIRTUAL := Folded("virtual.server")

  /** The tree and the users' lists know the same servers, each under one name. */
  ghost predicate ServersOk(net: Net) {
    UniqueNames(net.servers) && VIRTUAL !in Names(net.servers) && net.homes.Keys == Names(net.servers) + {VIRTUAL}
  }

  ghost predicate Sound(net: Net) {
    Coherent(net) && ServersOk(net)
  }

  function NoUsers(): (r: seq<seq<string>>)
    ensures |r| == HOME_BUCKETS && forall h | 0 <= h < |r| :: r[h] == []
  {
    seq(HOME_BUCKETS, _ => [])
  }

  /** `uplink` is empty for the server the bot itself connects to; any other server names one of the
      tree. */
  predicate KnownUplink(t: Servers, uplink: string) {
    uplink == "" || FindYY(t, uplink).Node?
  }

  function AddServer(net: Net, uplink: string, name: string, yy: string, ts: int): Net
    requires KnownUplink(net.servers, uplink)
  {
    net.(servers := if uplink == "" then Node(name, yy, ts, None, net.servers)
                    else Hang(net.servers, uplink, name, yy, ts),
         homes := net.homes[Folded(name) := NoUsers()])
  }

  /** What a step comes to: the search for an unknown numeric yields no server, and using it ends the
      program. */
  datatype Outcome = Crash | Goes(net: Net)

  /** onserver() */
  function OnServer(net: Net, uplink: string, name: string, yy: string, ts: int): Outcome {
    if KnownUplink(net.servers, uplink) then Goes(AddServer(net, uplink, name, yy, ts)) else Crash
  }

  /** Users the bot makes up have a nick with '+'; they live on the virtual server, whatever the numeric
      of their server is. Anybody else names a server of the tree. */
  predicate MadeUp(nick: string) {
    nick != [] && nick[0] == '+'
  }

  predicate HasHome(t: Servers, nick: string, yy: string) {
    MadeUp(nick) || FindYY(t, yy).Node?
  }

  function Home(t: Servers, nick: string, yy: string): string
    requires HasHome(t, nick, yy)
  {
    if MadeUp(nick) then VIRTUAL else Folded(FindYY(t, yy).name)
  }

  /** onnick() for a new user: an old user with the same numeric quits first. */
  ghost function AddUser(net: Net, num: string, nick: string, yy: string): Net
    requires Coherent(net) && HasHome(net.servers, nick, yy)
  {
    var net1, s, h := Quit(net, num), Home(net.servers, nick, yy), SuHash(num);
    if s in net1.homes && h < |net1.homes[s]| then
      net1.(users := net1.users[num := User(nick, s, [])],
            homes := net1.homes[s := net1.homes[s][h := [num] + net1.homes[s][h]]])
    else net1
  }

  /** onnick() for a known user */
  function ChangeNick(net: Net, num: string, nick: string): Net {
    if num in net.users then net.(users := net.users[num := net.users[num].(nick := nick)]) else net
  }

  /** NewChannel() unless the channel exists */
  function Open(net: Net, name: string, on: bool): Net {
    if Folded(name) in net.chans then net else net.(chans := net.chans[Folded(name) := Channel(name, on, [])])
  }

  /** JoinUser() */
  function Join(net: Net, num: string, chanop: bool, key: string): Net {
    if num in net.users && key in net.chans
    then Edit(net, num, [key] + Listed(net, num), key, [Member(num, chanop)] + Members(net, key))
    else net
  }

  /** One name of onjoin()'s list. */
  ghost function JoinOne(net: Net, num: string, chanop: bool, name: string): Net
    requires Coherent(net)
  {
    if name == "0" then PartAll(net, num)
    else if name == "" then net
    else Join(Open(net, name, false), num, chanop, Folded(name))
  }

  /** onburst(): unknown users are skipped. */
  function JoinAll(net: Net, key: string, ms: seq<Member>): Net
    decreases |ms|
  {
    if ms == [] then net else JoinAll(Join(net, ms[0].num, ms[0].chanop, key), key, ms[1..])
  }

  function Burst(net: Net, name: string, ms: seq<Member>): Net {
    JoinAll(Open(net, name, false), Folded(name), ms)
  }

  /** join() by the bot */
  function BotJoin(net: Net, name: string): Net {
    var key := Folded(name);
    if key in net.chans then net.(chans := net.chans[key := net.chans[key].(on := true)]) else Open(net, name, true)
  }

  /** part() by the bot */
  function BotPart(net: Net, name: string): Net {
    var key := Folded(name);
    if key in net.chans then Sweep(net.(chans := net.chans[key := net.chans[key].(on := false)]), key) else net
  }

  /** After the message of a new server the bot has a sound picture exactly if it knows the uplink
      and no server of that name. */
  lemma OnServerSoundIff(net: Net, uplink: string, name: string, yy: string, ts: int)
    requires Sound(net)
    ensures var o := OnServer(net, uplink, name, yy, ts);
      o.Goes? && Sound(o.net) <==> KnownUplink(net.servers, uplink) && Folded(name) !in net.homes
  {
    if KnownUplink(net.servers, uplink) {
      AddServerSoundIff(net, uplink, name, yy, ts);
    }
  }

  /** A new server below a known one keeps the picture sound exactly if its name is not in use. */
  lemma AddServerSoundIff(net: Net, uplink: string, name: string, yy: string, ts: int)
    requires Sound(net) && KnownUplink(net.servers, uplink)
    ensures Sound(AddServer(net, uplink, name, yy, ts)) <==> Folded(name) !in net.homes
  {
    if Folded(name) !in net.homes {
      AddServerSound(net, uplink, name, yy, ts);
    } else if uplink == "" {
      assert Folded(name) in Names(AddServer(net, uplink, name, yy, ts).servers);
    } else {
      HangNames(net.servers, uplink, name, yy, ts);
      if Folded(name) in Names(net.servers) {
        HangTwice(net.servers, uplink, name, yy, ts);
      }
    }
  }

  lemma AddServerSound(net: Net, uplink: string, name: string, yy: string, ts: int)
    requires Sound(net) && KnownUplink(net.servers, uplink) && Folded(name) !in net.homes
    ensures Sound(AddServer(net, uplink, name, yy, ts))
  {
    var x := AddServer(net, uplink, name, yy, ts);
    if uplink != "" {
      HangExact(net.servers, uplink, name, yy, ts);
    }
    forall n, k ensures Agree(x, n, k) {
      assert Agree(net, n, k);
    }
    forall s, h, n | s in x.homes && 0 <= h < |x.homes[s]| ensures Homed(x, s, h, n) {
      if s != Folded(name) {
        assert Homed(net, s, h, n);
      }
    }
    assert forall s | s in net.homes :: |net.homes[s]| == HOME_BUCKETS;
  }

  /** A user nobody knows yet moves in. */
  lemma Settle(net: Net, num: string, s: string, nick: string)
    requires Coherent(net) && num !in net.users && s in net.homes && |net.homes[s]| == HOME_BUCKETS
    ensures var home := net.homes[s][SuHash(num) := [num] + net.homes[s][SuHash(num)]];
      Coherent(net.(users := net.users[num := User(nick, s, [])], homes := net.homes[s := home]))
  {
    var b := net.homes[s][SuHash(num)];
    assert ([num] + b)[1..] == b;
    var x := net.(users := net.users[num := User(nick, s, [])],
                  homes := net.homes[s := net.homes[s][SuHash(num) := [num] + b]]);
    forall n, k ensures Agree(x, n, k) {
      assert Agree(net, n, k);
    }
    forall r, j, n | r in x.homes && 0 <= j < |x.homes[r]| ensures Homed(x, r, j, n) {
      assert Homed(net, r, j, n);
    }
    assert forall r | r in net.homes :: |net.homes[r]| == HOME_BUCKETS;
  }

  lemma AddUserSound(net: Net, num: string, nick: string, yy: string)
    requires Sound(net) && HasHome(net.servers, nick, yy)
    ensures Sound(AddUser(net, num, nick, yy))
    ensures num in AddUser(net, num, nick, yy).users && AddUser(net, num, nick, yy).users[num].nick == nick
  {
    QuitExact(net, num);
    HomeExists(net, nick, yy);
    var net1, s := Quit(net, num), Home(net.servers, nick, yy);
    assert s in net1.homes && |net1.homes[s]| == HOME_BUCKETS;
    Settle(net1, num, s, nick);
  }

  lemma HomeExists(net: Net, nick: string, yy: string)
    requires Sound(net) && HasHome(net.servers, nick, yy)
    ensures Home(net.servers, nick, yy) in net.homes
  {
    if !MadeUp(nick) {
      YYIsNamed(net.servers, yy);
    }
  }

  lemma ChangeNickSound(net: Net, num: string, nick: string)
    requires Sound(net)
    ensures Sound(ChangeNick(net, num, nick))
  {
    var x := ChangeNick(net, num, nick);
    forall n, k ensures Agree(x, n, k) {
      assert Agree(net, n, k);
    }
    forall s, h, n | s in x.homes && 0 <= h < |x.homes[s]| ensures Homed(x, s, h, n) {
      assert Homed(net, s, h, n);
    }
  }

  /** Everything but the rule about empty channels. */
  ghost predicate Linked(net: Net) {
    MembershipOk(net) && HomesOk(net) && ServersOk(net)
  }

  lemma SetChannel(net: Net, key: string, c: Channel)
    requires Linked(net) && c.users == Members(net, key)
    ensures Linked(net.(chans := net.chans[key := c]))
  {
    var x := net.(chans := net.chans[key := c]);
    forall n, k ensures Agree(x, n, k) {
      assert Agree(net, n, k);
    }
    forall s, h, n | s in x.homes && 0 <= h < |x.homes[s]| ensures Homed(x, s, h, n) {
      assert Homed(net, s, h, n);
    }
  }

  lemma JoinLinked(net: Net, num: string, chanop: bool, key: string)
    requires Linked(net)
    ensures Linked(Join(net, num, chanop, key))
  {
    if num in net.users && key in net.chans {
      var x := Join(net, num, chanop, key);
      assert ([key] + Listed(net, num))[1..] == Listed(net, num);
      assert ([Member(num, chanop)] + Members(net, key))[1..] == Members(net, key);
      forall n, k ensures Agree(x, n, k) {
        assert Agree(net, n, k);
      }
      forall s, h, n | s in x.homes && 0 <= h < |x.homes[s]| ensures Homed(x, s, h, n) {
        assert Homed(net, s, h, n);
      }
    }
  }

  lemma BotJoinSound(net: Net, name: string)
    requires Sound(net)
    ensures Sound(BotJoin(net, name))
  {
    var key := Folded(name);
    SetChannel(net, key, if key in net.chans then net.chans[key].(on := true) else Channel(name, true, []));
  }

  lemma BotPartSound(net: Net, name: string)
    requires Sound(net)
    ensures Sound(BotPart(net, name))
  {
    var key := Folded(name);
    if key in net.chans {
      SetChannel(net, key, net.chans[key].(on := false));
      SweepKeeps(net.(chans := net.chans[key := net.chans[key].(on := false)]), key);
    }
  }

  lemma JoinOneSound(net: Net, num: string, chanop: bool, name: string)
    requires Sound(net) && num in net.users
    ensures Sound(JoinOne(net, num, chanop, name)) && num in JoinOne(net, num, chanop, name).users
  {
    if name == "0" {
      PartAllServers(net, num);
    } else if name != "" {
      var key := Folded(name);
      if key !in net.chans {
        SetChannel(net, key, Channel(name, false, []));
      }
      JoinLinked(Open(net, name, false), num, chanop, key);
    }
  }

  lemma PartAllServers(net: Net, num: string)
    requires Coherent(net)
    ensures PartAll(net, num).servers == net.servers && PartAll(net, num).homes == net.homes
    decreases |Listed(net, num)|
  {
    if Listed(net, num) != [] {
      var key := Listed(net, num)[0];
      ListedExists(net, num, 0);
      PartCoherent(net, num, key);
      DropCounts(Listed(net, num), key, key);
      PartAllServers(Part(net, num, key), num);
    }
  }

  predicate SomeKnown(net: Net, ms: seq<Member>) {
    exists j | 0 <= j < |ms| :: ms[j].num in net.users
  }

  lemma {:induction false} JoinAllLinked(net: Net, key: string, ms: seq<Member>)
    requires Linked(net) && key in net.chans
    ensures var x := JoinAll(net, key, ms);
      && Linked(x) && x.chans.Keys == net.chans.Keys && x.users.Keys == net.users.Keys
      && (forall k {:trigger x.chans[k]} | k in net.chans && k != key :: x.chans[k] == net.chans[k])
      && x.chans[key].name == net.chans[key].name && x.chans[key].on == net.chans[key].on
      && (x.chans[key].users == [] <==> net.chans[key].users == [] && !SomeKnown(net, ms))
    decreases |ms|
  {
    if ms != [] {
      var net1 := Join(net, ms[0].num, ms[0].chanop, key);
      JoinLinked(net, ms[0].num, ms[0].chanop, key);
      JoinAllLinked(net1, key, ms[1..]);
      assert net1.users.Keys == net.users.Keys && net1.chans.Keys == net.chans.Keys;
      assert SomeKnown(net, ms) <==> ms[0].num in net.users || SomeKnown(net1, ms[1..]) by {
        assert forall j | 1 <= j < |ms| :: ms[j] == ms[1..][j - 1];
      }
    }
  }

  /** A burst keeps the picture sound exactly if it does not create a channel all of whose listed
      members are unknown. */
  lemma BurstSoundIff(net: Net, name: string, ms: seq<Member>)
    requires Sound(net)
    ensures Sound(Burst(net, name, ms)) <==> Folded(name) in net.chans || SomeKnown(net, ms)
  {
    var key := Folded(name);
    var net1 := Open(net, name, false);
    if key !in net.chans {
      SetChannel(net, key, Channel(name, false, []));
    }
    JoinAllLinked(net1, key, ms);
    var x := Burst(net, name, ms);
    assert forall k | k in net.chans ::
      Folded(net.chans[k].name) == k && (net.chans[k].users == [] ==> net.chans[k].on);
    assert x.chans[key].users == [] ==> net1.chans[key].users == [];
  }

  // ----- what the steps change -----

  /** A join adds exactly one membership, in front of both lists, and touches nothing else. */
  lemma JoinEffect(net: Net, num: string, chanop: bool, key: string, n: string, k: string)
    requires num in net.users && key in net.chans
    ensures var x := Join(net, num, chanop, key);
      && Members(x, key) == [Member(num, chanop)] + Members(net, key) && Listed(x, num) == [key] + Listed(net, num)
      && CountMember(Members(x, k), n) == CountMember(Members(net, k), n) + (if n == num && k == key then 1 else 0)
      && x.users - {num} == net.users - {num} && x.chans - {key} == net.chans - {key}
      && x.homes == net.homes && x.servers == net.servers
  {
    assert ([Member(num, chanop)] + Members(net, key))[1..] == Members(net, key);
  }

  /** A part ends exactly one membership, if there is one; the channel goes with its last member
      unless the bot is on it. */
  lemma PartEffect(net: Net, num: string, key: string, n: string, k: string)
    requires Coherent(net) && num in net.users && key in net.chans
    ensures var x := Part(net, num, key);
      var was := CountMember(Members(net, k), n);
      && CountMember(Members(x, k), n) == (if n == num && k == key && was > 0 then was - 1 else was)
      && (key in x.chans <==> net.chans[key].on || DropMember(Members(net, key), num) != [])
      && x.users - {num} == net.users - {num} && x.chans - {key} == net.chans - {key}
      && x.homes == net.homes && x.servers == net.servers
  {
    PartTouches(net, num, key);
    DropMemberCounts(Members(net, key), num, n);
    if k != key {
      assert k in net.chans <==> k in net.chans - {key};
      assert k in Part(net, num, key).chans <==> k in Part(net, num, key).chans - {key};
    }
  }

  /** A new user starts in no channel and displaces at most the old owner of his numeric. He lives on
      a server with the numeric that announced him, unless the bot made him up. */
  lemma AddUserEffect(net: Net, num: string, nick: string, yy: string)
    requires Sound(net) && HasHome(net.servers, nick, yy)
    ensures var x := AddUser(net, num, nick, yy);
      && x.users - {num} == net.users - {num} && x.chans == Without(net, {num}).chans && x.servers == net.servers
      && num in x.users && x.users[num].channel == []
      && x.users[num].nick == nick
      && if nick != [] && nick[0] == '+' then x.users[num].server == Folded("virtual.server")
         else exists n :: In(n, net.servers) && n.yy == yy && x.users[num].server == Folded(n.name)
  {
    QuitExact(net, num);
    HomeExists(net, nick, yy);
    FindYYFinds(net.servers, yy);
    assert |Quit(net, num).homes[Home(net.servers, nick, yy)]| == HOME_BUCKETS;
    assert Without(net, {num}).users == net.users - {num};
  }

  // ----- whole runs -----

  /** The time stamp of a SQUIT message; netsplits the bot makes up itself carry none. */
  datatype Stamp = Absent | Given(ts: int)

  datatype Event =
    | Server(uplink: string, name: string, yy: string, ts: int)
    | NewUser(num: string, nick: string, yy: string)
    | NickChange(num: string, nick: string)
    | Joins(num: string, created: bool, names: seq<string>)
    | Bursts(name: string, members: seq<Member>)
    | Parts(num: string, names: seq<string>)
    | Kicked(num: string, name: string)
    | BotKicked(name: string)
    | Quits(num: string)
    | SQuits(name: string, stamp: Stamp)
    | BotJoins(name: string)
    | BotParts(name: string)

  ghost function JoinList(net: Net, num: string, chanop: bool, names: seq<string>): (r: Net)
    requires Sound(net) && num in net.users
    ensures Sound(r)
    decreases |names|
  {
    if names == [] then net
    else
      JoinOneSound(net, num, chanop, names[0]);
      JoinList(JoinOne(net, num, chanop, names[0]), num, chanop, names[1..])
  }

  lemma PartSound(net: Net, num: string, key: string)
    requires Sound(net)
    ensures Sound(Part(net, num, key))
  {
    PartCoherent(net, num, key);
  }

  function PartList(net: Net, num: string, names: seq<string>): Net
    decreases |names|
  {
    if names == [] then net
    else PartList(if names[0] == "" then net else Part(net, num, Folded(names[0])), num, names[1..])
  }

  lemma {:induction false} PartListSound(net: Net, num: string, names: seq<string>)
    requires Sound(net)
    ensures Sound(PartList(net, num, names))
    decreases |names|
  {
    if names != [] {
      PartSound(net, num, Folded(names[0]));
      PartListSound(if names[0] == "" then net else Part(net, num, Folded(names[0])), num, names[1..]);
    }
  }

  /** Does the squit message concern a server that is there, under the time stamp it is known by?
      The stamp does not matter for the server the bot hangs on. */
  predicate SquitApplies(net: Net, name: string, stamp: Stamp) {
    var t := Find(net.servers, Folded(name));
    t.Node? && (t == net.servers || stamp.Absent? || t.ts == stamp.ts)
  }

  /** onsquit() */
  ghost function OnSquit(net: Net, name: string, stamp: Stamp): Net
    requires Sound(net)
  {
    if SquitApplies(net, name, stamp) then
      SoundSquittable(net, Folded(name));
      Squit(net, Folded(name))
    else net
  }

  lemma SoundSquittable(net: Net, key: string)
    requires Sound(net) && Find(net.servers, key).Node?
    ensures Squittable(net, key)
  {
    NamesOfFound(net.servers, key);
  }

  /** `x` is `net` without these servers and the users homed on them, entry by entry. */
  ghost predicate UsersGone(net: Net, gone: set<string>, x: Net) {
    && (forall num | num in net.users ::
          if net.users[num].server in gone then num !in x.users
          else num in x.users && x.users[num] == net.users[num])
    && (forall num | num in x.users :: num in net.users)
  }

  ghost predicate MembersGone(net: Net, gone: set<string>, x: Net) {
    && (forall k | k in net.chans ::
          var left := KeepMembers(net.chans[k].users, UsersOn(net, gone));
          if left == [] && !net.chans[k].on then k !in x.chans
          else k in x.chans && x.chans[k] == net.chans[k].(users := left))
    && (forall k | k in x.chans :: k in net.chans)
  }

  ghost predicate HomesGone(net: Net, gone: set<string>, x: Net) {
    && x.homes.Keys == net.homes.Keys - gone
    && (forall s | s in x.homes :: x.homes[s] == net.homes[s])
  }

  lemma CutIsExact(net: Net, gone: set<string>, x: Net)
    requires Coherent(net) && x == WithoutServers(net, gone, x.servers)
    ensures UsersGone(net, gone, x) && MembersGone(net, gone, x) && HomesGone(net, gone, x)
  {
    var u := UsersOn(net, gone);
    assert x.chans == Without(net, u).chans && x.users == Without(net, u).users;
    forall s | s in x.homes ensures x.homes[s] == net.homes[s] {
      assert x.homes[s] == KeepBuckets(net.homes[s], u);
      forall h | 0 <= h < |net.homes[s]| ensures x.homes[s][h] == net.homes[s][h] {
        forall num | num in u ensures Count(net.homes[s][h], num) == 0 {
          assert Homed(net, s, h, num);
        }
        KeepAll(net.homes[s][h], u);
      }
    }
  }

  /** `x` is `net` without the server, everything below it, and the users homed there. */
  ghost predicate Split(net: Net, key: string, x: Net) {
    && Find(net.servers, key).Node?
    && var gone := Below(Find(net.servers, key));
    && x.servers == Prune(net.servers, key) && Names(x.servers) == Names(net.servers) - gone
    && UsersGone(net, gone, x) && MembersGone(net, gone, x) && HomesGone(net, gone, x)
  }

  lemma CutIsSplit(net: Net, key: string, x: Net)
    requires Squittable(net, key) && CutOff(net, key, x)
    ensures Split(net, key, x)
  {
    CutIsExact(net, Below(Find(net.servers, key)), x);
    FindFinds(net.servers, key);
    PruneExact(net.servers, key);
  }

  lemma SquitSound(net: Net, key: string)
    requires Sound(net) && Find(net.servers, key).Node?
    ensures Squittable(net, key) && Sound(Squit(net, key))
  {
    SoundSquittable(net, key);
    CutKeeps(net, Below(Find(net.servers, key)), Squit(net, key));
    CutServersOk(net, key, Squit(net, key));
  }

  lemma CutServersOk(net: Net, key: string, x: Net)
    requires ServersOk(net) && Find(net.servers, key).Node?
    requires x.servers == Prune(net.servers, key) && x.homes.Keys == net.homes.Keys - Below(Find(net.servers, key))
    ensures ServersOk(x)
  {
    NamesOfFound(net.servers, key);
    PruneExact(net.servers, key);
  }

  /** A netsplit removes exactly one subtree of servers and exactly the users homed on it, from the
      user table, the servers' lists and every channel. It happens if and only if the tree has a server
      of that name and either it is the first one, or the message has no time stamp, or it has the
      server's own. */
  lemma SquitExact(net: Net, name: string, stamp: Stamp)
    requires Sound(net)
    ensures Sound(OnSquit(net, name, stamp))
    ensures if exists n :: In(n, net.servers) && Folded(n.name) == Folded(name)
                           && (Folded(net.servers.name) == Folded(name) || stamp.Absent? || stamp.ts == n.ts)
            then Split(net, Folded(name), OnSquit(net, name, stamp))
            else OnSquit(net, name, stamp) == net
  {
    var key := Folded(name);
    var t := Find(net.servers, key);
    FindFinds(net.servers, key);
    forall n | In(n, net.servers) && Folded(n.name) == key ensures n == t {
      InByName(n, net.servers);
    }
    if t.Node? && (t == net.servers || stamp.Absent? || t.ts == stamp.ts) {
      assert In(t, net.servers);
      SquitSound(net, key);
      CutIsSplit(net, key, Squit(net, key));
    }
  }

  ghost predicate Possible(net: Net, e: Event)
    requires Sound(net)
  {
    match e
    case Server(uplink, name, _, _) => KnownUplink(net.servers, uplink) && Folded(name) !in net.homes
    case NewUser(_, nick, yy) => HasHome(net.servers, nick, yy)
    case Bursts(name, ms) => Folded(name) in net.chans || SomeKnown(net, ms)
    case _ => true
  }

  ghost function Next(net: Net, e: Event): Net
    requires Sound(net) && Possible(net, e)
  {
    match e
    case Server(uplink, name, yy, ts) => AddServer(net, uplink, name, yy, ts)
    case NewUser(num, nick, yy) => AddUser(net, num, nick, yy)
    case NickChange(num, nick) => ChangeNick(net, num, nick)
    case Joins(num, created, names) => if num in net.users then JoinList(net, num, created, names) else net
    case Bursts(name, ms) => Burst(net, name, ms)
    case Parts(num, names) => PartList(net, num, names)
    case Kicked(num, name) => Part(net, num, Folded(name))
    case BotKicked(name) => BotPart(net, name)
    case Quits(num) => Quit(net, num)
    case SQuits(name, stamp) => OnSquit(net, name, stamp)
    case BotJoins(name) => BotJoin(net, name)
    case BotParts(name) => BotPart(net, name)
  }

  /** Every protocol step keeps all indexes in agreement. */
  lemma NextSound(net: Net, e: Event)
    requires Sound(net) && Possible(net, e)
    ensures Sound(Next(net, e))
  {
    match e
    case Server(uplink, name, yy, ts) => AddServerSound(net, uplink, name, yy, ts);
    case NewUser(num, nick, yy) => AddUserSound(net, num, nick, yy);
    case NickChange(num, nick) => ChangeNickSound(net, num, nick);
    case Joins(num, created, names) =>
    case Bursts(name, ms) => BurstSoundIff(net, name, ms);
    case Parts(num, names) => PartListSound(net, num, names);
    case Kicked(num, name) => PartSound(net, num, Folded(name));
    case BotKicked(name) => BotPartSound(net, name);
    case Quits(num) => QuitExact(net, num);
    case SQuits(name, stamp) => SquitExact(net, name, stamp);
    case BotJoins(name) => BotJoinSound(net, name);
    case BotParts(name) => BotPartSound(net, name);
  }

  ghost predicate PossibleRun(net: Net, es: seq<Event>)
    requires Sound(net)
    decreases |es|
  {
    es != [] ==> Possible(net, es[0]) && PossibleRun(SoundNext(net, es[0]), es[1..])
  }

  ghost function SoundNext(net: Net, e: Event): (r: Net)
    requires Sound(net) && Possible(net, e)
    ensures Sound(r) && r == Next(net, e)
  {
    NextSound(net, e);
    Next(net, e)
  }

  ghost function Run(net: Net, es: seq<Event>): Net
    requires Sound(net) && PossibleRun(net, es)
    decreases |es|
  {
    if es == [] then net else Run(SoundNext(net, es[0]), es[1..])
  }

  /** The network the bot starts with. */
  function Empty(): Net {
    Net(map[], map[], map[VIRTUAL := NoUsers()], None)
  }

  lemma {:induction false} RunSound(net: Net, es: seq<Event>)
    requires Sound(net) && PossibleRun(net, es)
    ensures Sound(Run(net, es))
    decreases |es|
  {
    if es != [] {
      RunSound(SoundNext(net, es[0]), es[1..]);
    }
  }

  lemma EmptySound()
    ensures Sound(Empty())
  {
    var net := Empty();
    forall n, k ensures Agree(net, n, k) {
    }
    forall s, h, n | s in net.homes && 0 <= h < |net.homes[s]| ensures Homed(net, s, h, n) {
    }
    assert Coherent(net) && ServersOk(net);
  }

  /** A server that hangs below one the bot has not heard of ends the program, even a fresh one. */
  lemma UnknownUplink()
    ensures Sound(Empty()) && OnServer(Empty(), "ZZ", "leaf.net", "AB", 0).Crash?
    ensures Folded("leaf.net") !in Empty().homes && !Possible(Empty(), Server("ZZ", "leaf.net", "AB", 0))
  {
    EmptySound();
    assert |Folded("leaf.net")| != |VIRTUAL|;
  }

  /** A burst that names nobody the bot knows leaves an empty channel the bot is not on. */
  lemma UnknownBurst()
    ensures Sound(Empty()) && !Sound(Burst(Empty(), "#new", [Member("ABCDE", true)]))
  {
    EmptySound();
    BurstSoundIff(Empty(), "#new", [Member("ABCDE", true)]);
  }

  /** In every state the bot can reach, each membership is recorded as often on the user's side as on
      the channel's, each user is in exactly one bucket, that of his own server, and a channel
      without members is one the bot is on. */
  lemma ReachableSound(es: seq<Event>)
    requires Sound(Empty()) && PossibleRun(Empty(), es)
    ensures Sound(Run(Empty(), es))
  {
    RunSound(Empty(), es);
  }
}
