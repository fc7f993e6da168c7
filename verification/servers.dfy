// The tree of servers (Sources/servers.c): searching, linking a new server, and unlinking one
// with everything below it.
module ServerTree {

  import opened CaseFold

  /** The server tree in its own shape: first server below, next server on the same level. */
  datatype Servers = None | Node(name: string, yy: string, ts: int, down: Servers, next: Servers)

  /** The folded names of the servers of a subtree with its right neighbours. */
  function Names(t: Servers): set<string> {
    if t.None? then {} else {Folded(t.name)} + Names(t.down) + Names(t.next)
  }

  predicate UniqueNames(t: Servers) {
    t.Node? ==>
      && UniqueNames(t.down) && UniqueNames(t.next) && Names(t.down) !! Names(t.next)
      && Folded(t.name) !in Names(t.down) + Names(t.next)
  }

  /** `n` is a server of the tree, with all that hangs below and behind it. */
  predicate In(n: Servers, t: Servers) {
    n.Node? && t.Node? && (n == t || In(n, t.down) || In(n, t.next))
  }

  /** A server of the tree is in it by name; with unique names it is the only one of its name. */
  lemma {:induction false} InByName(n: Servers, t: Servers)
    requires In(n, t)
    ensures Folded(n.name) in Names(t) && Names(n) <= Names(t)
    ensures UniqueNames(t) ==> Find(t, Folded(n.name)) == n
    decreases t
  {
    if n != t {
      FindFinds(t.down, Folded(n.name));
      if In(n, t.down) {
        InByName(n, t.down);
      } else {
        InByName(n, t.next);
      }
    }
  }

  /** FindServerName(): the place in the tree where the server hangs. */
  function Find(t: Servers, key: string): Servers {
    if t.None? || Folded(t.name) == key then t
    else if Find(t.down, key).Node? then Find(t.down, key)
    else Find(t.next, key)
  }

  /** Unlinking the server and all below it: its right neighbour takes its place. */
  function Prune(t: Servers, key: string): Servers {
    if t.None? then t
    else if Folded(t.name) == key then t.next
    else if key in Names(t.down) then t.(down := Prune(t.down, key))
    else t.(next := Prune(t.next, key))
  }

  /** The names of a server and of all servers behind it. */
  function Below(t: Servers): set<string>
    requires t.Node?
  {
    {Folded(t.name)} + Names(t.down)
  }

  /** The search finds a server exactly if there is one of that name. */
  lemma {:induction false} FindFinds(t: Servers, key: string)
    ensures var f := Find(t, key); f.Node? <==> key in Names(t)
    ensures var f := Find(t, key); f.Node? ==> Folded(f.name) == key && Names(f) <= Names(t) && In(f, t)
    ensures UniqueNames(t) ==> UniqueNames(Find(t, key))
    decreases t
  {
    if t.Node? {
      FindFinds(t.down, key);
      FindFinds(t.next, key);
    }
  }

  lemma NamesOfFound(t: Servers, a: string)
    requires Find(t, a).Node?
    ensures Below(Find(t, a)) <= Names(t) && a in Names(t)
  {
    FindFinds(t, a);
  }

  /** Pruning removes one subtree and nothing else. */
  lemma {:induction false} PruneExact(t: Servers, key: string)
    requires UniqueNames(t) && key in Names(t)
    ensures Find(t, key).Node? && Names(Prune(t, key)) == Names(t) - Below(Find(t, key))
    ensures UniqueNames(Prune(t, key))
    decreases t
  {
    FindFinds(t, key);
    if Folded(t.name) == key {
    } else if key in Names(t.down) {
      FindFinds(t.down, key);
      PruneExact(t.down, key);
    } else {
      FindFinds(t.down, key);
      FindFinds(t.next, key);
      PruneExact(t.next, key);
    }
  }

  /** Number of servers of a subtree and its right neighbours. */
  function Size(t: Servers): nat {
    if t.None? then 0 else 1 + Size(t.down) + Size(t.next)
  }

  /** The first server below `a` is found by its name, and unlinking it leaves `a` in its place
      with one server less below it. */
  lemma {:induction false} FirstBelow(t: Servers, a: string)
    requires UniqueNames(t) && Find(t, a).Node? && Find(t, a).down.Node?
    ensures var n := Find(t, a);
      var b := Folded(n.down.name);
      && Find(t, b) == n.down && UniqueNames(Prune(t, b))
      && Find(Prune(t, b), a) == n.(down := n.down.next)
      && Prune(Prune(t, b), a) == Prune(t, a)
    decreases t
  {
    FindFinds(t, a);
    var n := Find(t, a);
    var b := Folded(n.down.name);
    PruneExact(t, b) by {
      NamesOfFound(t, a);
    }
    if Folded(t.name) != a {
      FindFinds(t.down, a);
      FindFinds(t.next, a);
      if a in Names(t.down) {
        NamesOfFound(t.down, a);
        FirstBelow(t.down, a);
        FindFinds(Prune(t.down, b), a);
      } else {
        NamesOfFound(t.next, a);
        FirstBelow(t.next, a);
        FindFinds(t.down, b);
        FindFinds(Prune(t.next, b), a);
      }
    }
  }

  /** FindServer(): search by numeric. */
  function FindYY(t: Servers, yy: string): Servers {
    if t.None? || t.yy == yy then t
    else if FindYY(t.down, yy).Node? then FindYY(t.down, yy)
    else FindYY(t.next, yy)
  }

  /** The tree with a new first server below the one with this numeric. */
  function Hang(t: Servers, yy: string, name: string, newYY: string, ts: int): Servers {
    if t.None? then t
    else if t.yy == yy then t.(down := Node(name, newYY, ts, None, t.down))
    else if FindYY(t.down, yy).Node? then t.(down := Hang(t.down, yy, name, newYY, ts))
    else t.(next := Hang(t.next, yy, name, newYY, ts))
  }

  lemma YYIsNamed(t: Servers, yy: string)
    requires FindYY(t, yy).Node?
    ensures Folded(FindYY(t, yy).name) in Names(t)
  {
    FindYYFinds(t, yy);
    InByName(FindYY(t, yy), t);
  }

  /** The search by numeric finds a server with this numeric exactly if there is one. */
  lemma {:induction false} FindYYFinds(t: Servers, yy: string)
    ensures var f := FindYY(t, yy); f.Node? ==> f.yy == yy && In(f, t)
    ensures forall n | In(n, t) && n.yy == yy :: FindYY(t, yy).Node?
    decreases t
  {
    if t.Node? {
      FindYYFinds(t.down, yy);
      FindYYFinds(t.next, yy);
    }
  }

  /** No two servers have the same numeric. */
  predicate UniqueYYs(t: Servers) {
    t.Node? ==>
      && UniqueYYs(t.down) && UniqueYYs(t.next)
      && t.yy !in YYs(t.down) + YYs(t.next) && YYs(t.down) !! YYs(t.next)
  }

  function YYs(t: Servers): set<string> {
    if t.None? then {} else {t.yy} + YYs(t.down) + YYs(t.next)
  }

  lemma {:induction false} OnlyYY(t: Servers, n: Servers)
    requires In(n, t)
    ensures n.yy in YYs(t) && (UniqueYYs(t) ==> FindYY(t, n.yy) == n)
    decreases t
  {
    if n != t {
      FindYYFinds(t.down, n.yy);
      if In(n, t.down) {
        OnlyYY(t.down, n);
      } else {
        OnlyYY(t.next, n);
        if FindYY(t.down, n.yy).Node? {
          OnlyYY(t.down, FindYY(t.down, n.yy));
        }
      }
    }
  }

  /** What is left keeps its data and what hangs below it, except the subtree that went. */
  lemma {:induction false} PruneKeeps(t: Servers, key: string, a: string)
    requires UniqueNames(t) && a in Names(t) && Find(t, key).Node? && a !in Below(Find(t, key))
    ensures Find(t, a).Node? && Find(Prune(t, key), a).Node?
    ensures var n, n', gone := Find(t, a), Find(Prune(t, key), a), Below(Find(t, key));
      && n'.name == n.name && n'.yy == n.yy && n'.ts == n.ts && Below(n') == Below(n) - gone
    decreases t
  {
    FindFinds(t, key);
    FindFinds(t, a);
    PruneExact(t, key);
    FindFinds(Prune(t, key), a);
    FindFinds(t.down, a);
    FindFinds(t.next, a);
    FindFinds(t.down, key);
    if Folded(t.name) == key {
      assert Find(t, key) == t && a in Names(t.next);
      NamesOfFound(t.next, a);
    } else if key in Names(t.down) {
      PruneExact(t.down, key);
      FindFinds(Prune(t.down, key), a);
      if Folded(t.name) != a && a in Names(t.down) {
        PruneKeeps(t.down, key, a);
      } else if Folded(t.name) != a {
        NamesOfFound(t.next, a);
      }
    } else {
      PruneExact(t.next, key);
      FindFinds(t.next, key);
      NamesOfFound(t.next, key);
      if Folded(t.name) != a && a in Names(t.down) {
        NamesOfFound(t.down, a);
      } else if Folded(t.name) != a {
        PruneKeeps(t.next, key, a);
      }
    }
  }

  lemma {:induction false} HangExact(t: Servers, yy: string, name: string, newYY: string, ts: int)
    requires UniqueNames(t) && Folded(name) !in Names(t) && FindYY(t, yy).Node?
    ensures UniqueNames(Hang(t, yy, name, newYY, ts))
    ensures Names(Hang(t, yy, name, newYY, ts)) == Names(t) + {Folded(name)}
    decreases t
  {
    if t.yy == yy {
      assert Names(Node(name, newYY, ts, None, t.down)) == {Folded(name)} + Names(None) + Names(t.down);
      assert Names(Hang(t, yy, name, newYY, ts))
          == {Folded(t.name)} + Names(Node(name, newYY, ts, None, t.down)) + Names(t.next);
    } else if FindYY(t.down, yy).Node? {
      HangExact(t.down, yy, name, newYY, ts);
    } else {
      HangExact(t.next, yy, name, newYY, ts);
    }
  }

  /** The other servers keep their data and what hangs below them. */
  lemma {:induction false} HangKeeps(t: Servers, yy: string, name: string, newYY: string, ts: int, a: string)
    requires UniqueNames(t) && Folded(name) !in Names(t) && FindYY(t, yy).Node? && a in Names(t)
    ensures Find(t, a).Node? && Find(Hang(t, yy, name, newYY, ts), a).Node?
    ensures var n, n' := Find(t, a), Find(Hang(t, yy, name, newYY, ts), a);
      && n'.name == n.name && n'.yy == n.yy && n'.ts == n.ts
      && Below(n') == Below(n) + if Folded(FindYY(t, yy).name) in Below(n) then {Folded(name)} else {}
    decreases t
  {
    var x, new_ := Folded(FindYY(t, yy).name), Node(name, newYY, ts, None, t.down);
    FindFinds(t, a);
    FindFinds(t.down, a);
    FindFinds(t.next, a);
    assert Names(new_) == {Folded(name)} + Names(None) + Names(t.down);
    if t.yy == yy {
      FindFinds(new_, a);
      if Folded(t.name) != a {
        if a in Names(t.down) {
          NamesOfFound(t.down, a);
          assert Find(new_, a) == Find(t.down, a);
        } else {
          NamesOfFound(t.next, a);
        }
      }
    } else if FindYY(t.down, yy).Node? {
      HangExact(t.down, yy, name, newYY, ts);
      YYIsNamed(t.down, yy);
      FindFinds(Hang(t.down, yy, name, newYY, ts), a);
      if Folded(t.name) != a && a in Names(t.down) {
        HangKeeps(t.down, yy, name, newYY, ts, a);
      } else if Folded(t.name) != a {
        NamesOfFound(t.next, a);
      }
    } else {
      HangExact(t.next, yy, name, newYY, ts);
      YYIsNamed(t.next, yy);
      if Folded(t.name) != a && a in Names(t.down) {
        NamesOfFound(t.down, a);
      } else if Folded(t.name) != a {
        HangKeeps(t.next, yy, name, newYY, ts, a);
      }
    }
  }

  lemma {:induction false} HangNames(t: Servers, yy: string, name: string, newYY: string, ts: int)
    requires FindYY(t, yy).Node?
    ensures Folded(name) in Names(Hang(t, yy, name, newYY, ts)) && Names(t) <= Names(Hang(t, yy, name, newYY, ts))
    decreases t
  {
    if t.yy == yy {
      assert Names(Node(name, newYY, ts, None, t.down)) == {Folded(name)} + Names(None) + Names(t.down);
    } else if FindYY(t.down, yy).Node? {
      HangNames(t.down, yy, name, newYY, ts);
    } else {
      HangNames(t.next, yy, name, newYY, ts);
    }
  }

  /** A name that is in use is not unique any more. */
  lemma {:induction false} HangTwice(t: Servers, yy: string, name: string, newYY: string, ts: int)
    requires Folded(name) in Names(t) && FindYY(t, yy).Node?
    ensures !UniqueNames(Hang(t, yy, name, newYY, ts))
    decreases t
  {
    if t.yy == yy {
      assert Folded(name) in Names(Node(name, newYY, ts, None, t.down));
      assert Folded(name) in Names(t.down) ==> !UniqueNames(Node(name, newYY, ts, None, t.down));
    } else if FindYY(t.down, yy).Node? {
      HangNames(t.down, yy, name, newYY, ts);
      if Folded(name) in Names(t.down) {
        HangTwice(t.down, yy, name, newYY, ts);
      }
    } else {
      HangNames(t.next, yy, name, newYY, ts);
      if Folded(name) in Names(t.next) {
        HangTwice(t.next, yy, name, newYY, ts);
      }
    }
  }

  /** The new server hangs directly below its uplink. */
  lemma {:induction false} HangPlaces(t: Servers, yy: string, name: string, newYY: string, ts: int)
    requires FindYY(t, yy).Node?
    ensures var n := FindYY(t, yy);
      FindYY(Hang(t, yy, name, newYY, ts), yy) == n.(down := Node(name, newYY, ts, None, n.down))
    decreases t
  {
    if t.yy != yy {
      if FindYY(t.down, yy).Node? {
        HangPlaces(t.down, yy, name, newYY, ts);
      } else {
        HangPlaces(t.next, yy, name, newYY, ts);
      }
    }
  }
}
