// What the protocol steps do to single users and channels, in terms of the messages alone
// (Sources/channels.c, Sources/users.c, Sources/servers.c).
module NetEffects {

  import opened CaseFold
  import opened ServerTree
  import opened Network
  import opened NetSteps

  // ----- users and the servers they live on -----

  /** The server is the other one or hangs below it. */
  predicate OnOrBelow(n: Servers, m: Servers)
    requires m.Node?
  {
    n == m || In(n, m.down)
  }

  lemma {:induction false} InInside(n: Servers, m: Servers, t: Servers)
    requires In(m, t) && (In(n, m.down) || In(n, m.next))
    ensures In(n, t)
    decreases t
  {
    if m != t {
      if In(m, t.down) {
        InInside(n, m, t.down);
      } else {
        InInside(n, m, t.next);
      }
    }
  }

  lemma BelowByName(t: Servers, n: Servers, m: Servers)
    requires UniqueNames(t) && In(n, t) && In(m, t)
    ensures Folded(n.name) in Below(m) <==> OnOrBelow(n, m)
  {
    InByName(n, t);
    InByName(m, t);
    if In(n, m.down) {
      InByName(n, m.down);
    }
    if Folded(n.name) in Names(m.down) {
      var f := Find(m.down, Folded(n.name));
      FindFinds(m.down, Folded(n.name));
      InInside(f, m, t);
      InByName(f, t);
    }
  }

  /** The user leaves with the server that announced him and with any server above it, and with no
      other: numerics are unique, and the time stamp has to be right. */
  lemma NewUserLeaves(net: Net, num: string, nick: string, n: Servers, name: string, stamp: Stamp)
    requires Sound(net) && UniqueYYs(net.servers) && In(n, net.servers) && (nick == [] || nick[0] != '+')
    ensures HasHome(net.servers, nick, n.yy) && Sound(AddUser(net, num, nick, n.yy))
    ensures var x := AddUser(net, num, nick, n.yy);
      num in x.users
      && (num !in NetSteps.OnSquit(x, name, stamp).users <==>
          exists m :: In(m, net.servers) && Folded(m.name) == Folded(name) && OnOrBelow(n, m)
            && (Folded(net.servers.name) == Folded(name) || stamp.Absent? || stamp.ts == m.ts))
  {
    FindYYFinds(net.servers, n.yy);
    OnlyYY(net.servers, n);
    AddUserSound(net, num, nick, n.yy);
    AddUserEffect(net, num, nick, n.yy);
    var x := AddUser(net, num, nick, n.yy);
    forall k | In(k, net.servers) && k.yy == n.yy ensures k == n {
      OnlyYY(net.servers, k);
    }
    SquitExact(x, name, stamp);
    forall m | In(m, net.servers) && Folded(m.name) == Folded(name)
      ensures Find(net.servers, Folded(name)) == m
      ensures Folded(n.name) in Below(m) <==> OnOrBelow(n, m)
    {
      InByName(m, net.servers);
      BelowByName(net.servers, n, m);
    }
  }

  // ----- joining -----

  /** The channels a list of names stands for; empty names are skipped. */
  function Wanted(names: seq<string>): seq<string> {
    if names == [] then []
    else if names[0] == "" then Wanted(names[1..])
    else [Folded(names[0])] + Wanted(names[1..])
  }

  /** The user joins one channel, known or new, in front of both lists; nothing else changes. */
  lemma JoinOneEffect(net: Net, num: string, chanop: bool, name: string)
    requires Sound(net) && num in net.users && name != "" && name != "0"
    ensures var x, key := JoinOne(net, num, chanop, name), Folded(name);
      && Members(x, key) == [Member(num, chanop)] + Members(net, key)
      && x.users == net.users[num := net.users[num].(channel := [key] + net.users[num].channel)]
      && key in x.chans && x.chans[key].on == (key in net.chans && net.chans[key].on)
      && x.chans[key].name == (if key in net.chans then net.chans[key].name else name)
      && x.chans - {key} == net.chans - {key} && x.homes == net.homes && x.servers == net.servers
  {
  }

  /** Joining `0` is leaving all channels. */
  lemma JoinZeroEffect(net: Net, num: string, chanop: bool)
    requires Sound(net) && num in net.users
    ensures var x := JoinOne(net, num, chanop, "0");
      num in x.users && Listed(x, num) == [] && Without(x, {num}) == Without(net, {num})
  {
  }

  lemma {:induction false} JoinListSplit(net: Net, num: string, chanop: bool, a: seq<string>, b: seq<string>)
    requires Sound(net) && num in net.users
    ensures num in JoinList(net, num, chanop, a).users
    ensures JoinList(net, num, chanop, a + b) == JoinList(JoinList(net, num, chanop, a), num, chanop, b)
    decreases |a|
  {
    if a == [] {
      assert a + b == b;
    } else {
      JoinOneSound(net, num, chanop, a[0]);
      assert (a + b)[1..] == a[1..] + b && (a + b)[0] == a[0];
      JoinListSplit(JoinOne(net, num, chanop, a[0]), num, chanop, a[1..], b);
    }
  }

  /** A list of names adds one membership for each time a channel is named, and no other. */
  lemma {:induction false} JoinListEffect(net: Net, num: string, chanop: bool, names: seq<string>, n: string, k: string)
    requires Sound(net) && num in net.users && "0" !in names
    ensures var x := JoinList(net, num, chanop, names);
      CountMember(Members(x, k), n)
      == CountMember(Members(net, k), n) + if n == num then Count(Wanted(names), k) else 0
    decreases |names|
  {
    if names != [] {
      var net1 := JoinOne(net, num, chanop, names[0]);
      JoinOneSound(net, num, chanop, names[0]);
      JoinListEffect(net1, num, chanop, names[1..], n, k);
      if names[0] != "" {
        JoinOneEffect(net, num, chanop, names[0]);
        var key := Folded(names[0]);
        assert ([Member(num, chanop)] + Members(net, key))[1..] == Members(net, key);
        assert ([key] + Wanted(names[1..]))[1..] == Wanted(names[1..]);
        if k != key {
          assert k in net.chans <==> k in net.chans - {key};
          assert k in net1.chans <==> k in net1.chans - {key};
        }
      }
    }
  }

  /** Who was a member, with or without the right to give modes, stays one. */
  lemma {:induction false} JoinListKeeps(net: Net, num: string, chanop: bool, names: seq<string>, m: Member, k: string)
    requires Sound(net) && num in net.users && "0" !in names && m in Members(net, k)
    ensures m in Members(JoinList(net, num, chanop, names), k)
    decreases |names|
  {
    if names != [] {
      var net1 := JoinOne(net, num, chanop, names[0]);
      JoinOneSound(net, num, chanop, names[0]);
      if names[0] != "" {
        JoinOneEffect(net, num, chanop, names[0]);
        if k != Folded(names[0]) {
          assert k in net.chans - {Folded(names[0])};
          assert k in net1.chans - {Folded(names[0])};
        }
      }
      JoinListKeeps(net1, num, chanop, names[1..], m, k);
    }
  }

  /** Each named channel gets the user, as an operator exactly if the channel was created by him. */
  lemma {:induction false} JoinListOps(net: Net, num: string, chanop: bool, names: seq<string>, i: nat)
    requires Sound(net) && num in net.users && "0" !in names && i < |names| && names[i] != ""
    ensures Member(num, chanop) in Members(JoinList(net, num, chanop, names), Folded(names[i]))
    decreases |names|
  {
    var net1 := JoinOne(net, num, chanop, names[0]);
    JoinOneSound(net, num, chanop, names[0]);
    assert names[0] in names;
    if i == 0 {
      JoinOneEffect(net, num, chanop, names[0]);
      JoinListKeeps(net1, num, chanop, names[1..], Member(num, chanop), Folded(names[0]));
    } else {
      JoinListOps(net1, num, chanop, names[1..], i - 1);
    }
  }

  /** A burst makes exactly its known members, with their right to give modes, members of the channel. */
  lemma {:induction false} JoinAllEffect(net: Net, key: string, ms: seq<Member>)
    requires key in net.chans
    ensures var x := JoinAll(net, key, ms);
      && key in x.chans && x.chans[key].(users := []) == net.chans[key].(users := [])
      && x.chans - {key} == net.chans - {key} && x.homes == net.homes && x.servers == net.servers
      && x.users.Keys == net.users.Keys
      && (forall m :: m in Members(x, key) <==> m in Members(net, key) || (m in ms && m.num in net.users))
      && (forall n :: CountMember(Members(x, key), n)
            == CountMember(Members(net, key), n) + if n in net.users then CountMember(ms, n) else 0)
    decreases |ms|
  {
    if ms != [] {
      var net1 := Join(net, ms[0].num, ms[0].chanop, key);
      JoinAllEffect(net1, key, ms[1..]);
      assert net1.users.Keys == net.users.Keys;
      assert ([Member(ms[0].num, ms[0].chanop)] + Members(net, key))[1..] == Members(net, key);
      assert ms == [ms[0]] + ms[1..];
      assert net1.chans - {key} == net.chans - {key};
    }
  }

  lemma BurstEffect(net: Net, name: string, ms: seq<Member>)
    ensures var x, key := Burst(net, name, ms), Folded(name);
      && key in x.chans && x.chans[key].on == (key in net.chans && net.chans[key].on)
      && x.chans[key].name == (if key in net.chans then net.chans[key].name else name)
      && x.chans - {key} == net.chans - {key} && x.homes == net.homes && x.servers == net.servers
      && x.users.Keys == net.users.Keys
      && (forall m :: m in Members(x, key) <==> m in Members(net, key) || (m in ms && m.num in net.users))
      && (forall n :: CountMember(Members(x, key), n)
            == CountMember(Members(net, key), n) + if n in net.users then CountMember(ms, n) else 0)
  {
    var net1, key := Open(net, name, false), Folded(name);
    JoinAllEffect(net1, key, ms);
    assert net1.chans - {key} == net.chans - {key};
  }

  // ----- leaving -----

  function Less(was: nat, gone: nat): nat {
    if was > gone then was - gone else 0
  }

  /** A list of names ends one membership for each time a channel is named, as long as there are any. */
  lemma {:induction false} PartListEffect(net: Net, num: string, names: seq<string>, n: string, k: string)
    requires Coherent(net) && num in net.users
    ensures var x, was := PartList(net, num, names), CountMember(Members(net, k), n);
      CountMember(Members(x, k), n) == if n == num then Less(was, Count(Wanted(names), k)) else was
    decreases |names|
  {
    if names != [] {
      var key := Folded(names[0]);
      if names[0] == "" {
        PartListEffect(net, num, names[1..], n, k);
      } else {
        var net1 := Part(net, num, key);
        PartCoherent(net, num, key);
        assert ([key] + Wanted(names[1..]))[1..] == Wanted(names[1..]);
        if key in net.chans {
          PartEffect(net, num, key, n, k);
          PartTouches(net, num, key);
          assert num in net1.users;
        }
        PartListEffect(net1, num, names[1..], n, k);
      }
    }
  }

  // ----- the bot -----

  /** The bot is on the channel, and that is all that changes. */
  lemma BotJoinEffect(net: Net, name: string)
    ensures var x, key := BotJoin(net, name), Folded(name);
      && key in x.chans && x.chans[key].on && Members(x, key) == Members(net, key)
      && x.chans[key].name == (if key in net.chans then net.chans[key].name else name)
      && x.chans - {key} == net.chans - {key} && x.(chans := net.chans) == net
  {
  }

  /** The bot is off the channel, which goes if nobody else is on it. */
  lemma BotPartEffect(net: Net, name: string)
    ensures var x, key := BotPart(net, name), Folded(name);
      && (key in x.chans <==> key in net.chans && net.chans[key].users != [])
      && (key in x.chans ==> x.chans[key] == net.chans[key].(on := false))
      && x.chans - {key} == net.chans - {key} && x.(chans := net.chans) == net
  {
  }

  lemma ChangeNickEffect(net: Net, num: string, nick: string)
    requires num in net.users
    ensures var x := ChangeNick(net, num, nick);
      && num in x.users && x.users[num] == User(nick, net.users[num].server, net.users[num].channel)
      && x.users - {num} == net.users - {num} && x.(users := net.users) == net
  {
  }

  // ----- who stays -----

  lemma {:induction false} DropMemberKeeps(ms: seq<Member>, num: string, m: Member)
    requires m.num != num
    ensures m in DropMember(ms, num) <==> m in ms
  {
    if ms != [] {
      DropMemberKeeps(ms[1..], num, m);
      assert ms == [ms[0]] + ms[1..];
    }
  }

  lemma {:induction false} KeepMembersKeep(ms: seq<Member>, gone: set<string>, m: Member)
    ensures m in KeepMembers(ms, gone) <==> m in ms && m.num !in gone
  {
    if ms != [] {
      KeepMembersKeep(ms[1..], gone, m);
      assert ms == [ms[0]] + ms[1..];
    }
  }

  /** Whoever else is on a channel stays, with or without the right to give modes. */
  lemma {:induction false} PartListKeeps(net: Net, num: string, names: seq<string>, m: Member, k: string)
    requires Coherent(net) && m.num != num
    ensures m in Members(PartList(net, num, names), k) <==> m in Members(net, k)
    decreases |names|
  {
    if names != [] {
      var key := Folded(names[0]);
      var net1 := if names[0] == "" then net else Part(net, num, key);
      PartCoherent(net, num, key);
      PartListKeeps(net1, num, names[1..], m, k);
      if names[0] != "" && num in net.users && key in net.chans {
        PartTouches(net, num, key);
        DropMemberKeeps(Members(net, key), num, m);
        assert k != key ==> (k in net.chans <==> k in net.chans - {key});
        assert k != key ==> (k in net1.chans <==> k in net1.chans - {key});
      }
    }
  }

  lemma QuitKeeps(net: Net, num: string, m: Member, k: string)
    requires Coherent(net)
    ensures m in Members(Network.Quit(net, num), k) <==> m in Members(net, k) && m.num != num
  {
    QuitExact(net, num);
    KeepMembersKeep(Members(net, k), {num}, m);
  }

  /** Behind a netsplit the members of a channel are those who were not homed on the servers that left. */
  lemma SplitKeeps(net: Net, name: string, stamp: Stamp, m: Member, k: string)
    requires Sound(net) && Find(net.servers, Folded(name)).Node?
    ensures var x, gone := NetSteps.OnSquit(net, name, stamp), Below(Find(net.servers, Folded(name)));
      m in Members(x, k) <==>
        m in Members(net, k) && (x == net || m.num !in net.users || net.users[m.num].server !in gone)
  {
    SquitExact(net, name, stamp);
    var gone := Below(Find(net.servers, Folded(name)));
    KeepMembersKeep(Members(net, k), UsersOn(net, gone), m);
    var x := NetSteps.OnSquit(net, name, stamp);
    if Split(net, Folded(name), x) {
      assert MembersGone(net, gone, x);
    }
  }

  // ----- new servers -----

  /** The server is still there, with its data and all that hung below it; with the uplink, the new server
      is below it as well. */
  predicate StillThere(t: Servers, t': Servers, a: string, uplink: string, name: string) {
    var n, n' := Find(t, a), Find(t', a);
    && n.Node? && n'.Node? && n'.name == n.name && n'.yy == n.yy && n'.ts == n.ts
    && Below(n') == Below(n) + if uplink in Below(n) then {name} else {}
  }

  lemma {:induction false} HangFinds(t: Servers, yy: string, name: string, newYY: string, ts: int)
    requires UniqueNames(t) && Folded(name) !in Names(t) && FindYY(t, yy).Node?
    ensures var n := Find(Hang(t, yy, name, newYY, ts), Folded(name));
      n.Node? && n.name == name && n.yy == newYY && n.ts == ts && n.down == None
    decreases t
  {
    if t.yy != yy && FindYY(t.down, yy).Node? {
      HangFinds(t.down, yy, name, newYY, ts);
    } else if t.yy != yy {
      FindFinds(t.down, Folded(name));
      HangFinds(t.next, yy, name, newYY, ts);
    }
  }

  /** The tree has one server more, under this name, numeric and time stamp, with nothing below it. It is
      the first one, or hangs below the server with the numeric of its uplink. */
  ghost predicate Extended(t: Servers, t': Servers, uplink: string, name: string, yy: string, ts: int) {
    && Names(t') == Names(t) + {Folded(name)}
    && var n := Find(t', Folded(name));
    && n.Node? && n.name == name && n.yy == yy && n.ts == ts && n.down == None
    && if uplink == "" then n == t' && n.next == t
       else exists up :: In(up, t) && up.yy == uplink && AllThere(t, t', Folded(up.name), Folded(name))
  }

  ghost predicate AllThere(t: Servers, t': Servers, uplink: string, name: string) {
    forall a | a in Names(t) :: StillThere(t, t', a, uplink, name)
  }

  lemma HangExtends(t: Servers, uplink: string, name: string, yy: string, ts: int)
    requires UniqueNames(t) && Folded(name) !in Names(t) && FindYY(t, uplink).Node? && uplink != ""
    ensures Extended(t, Hang(t, uplink, name, yy, ts), uplink, name, yy, ts)
  {
    var up, t' := FindYY(t, uplink), Hang(t, uplink, name, yy, ts);
    FindYYFinds(t, uplink);
    HangExact(t, uplink, name, yy, ts);
    HangFinds(t, uplink, name, yy, ts);
    assert AllThere(t, t', Folded(up.name), Folded(name)) by {
      forall a | a in Names(t) ensures StillThere(t, t', a, Folded(up.name), Folded(name)) {
        HangKeeps(t, uplink, name, yy, ts, a);
      }
    }
  }

  /** A new server changes the tree, nobody is on it yet, and nothing else changes. */
  lemma AddServerEffect(net: Net, uplink: string, name: string, yy: string, ts: int)
    requires Sound(net) && KnownUplink(net.servers, uplink) && Folded(name) !in net.homes
    ensures var x := AddServer(net, uplink, name, yy, ts);
      && Extended(net.servers, x.servers, uplink, name, yy, ts)
      && x.users == net.users && x.chans == net.chans
      && Folded(name) in x.homes && x.homes - {Folded(name)} == net.homes
  {
    if uplink != "" {
      HangExtends(net.servers, uplink, name, yy, ts);
    }
  }
}
