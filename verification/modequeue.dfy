// The queue of pending mode changes of a channel: changemode() and flushmode() of
// Sources/modes.c, on the doubly linked list the source keeps.
module ModeQueue {
  import opened CaseFold
  import opened Words
  import opened ModeLine
  import opened Lists

  class Node {
    var asServer: int
    var sign: char
    var letter: char
    var arg: string
    var prev: Node?
    var next: Node?

    constructor (c: Change)
      ensures Value() == c && prev == null && next == null
    {
      asServer, sign, letter, arg := c.asServer, c.sign, c.letter, c.arg;
      prev, next := null, null;
    }

    function Value(): Change
      reads this
    {
      Change(sign, letter, arg, asServer)
    }
  }

  function ElementAt(nodes: seq<Node>, i: int): Node? {
    if 0 <= i < |nodes| then nodes[i] else null
  }

  /** One line handed to the server, in the name of the server or of the bot. */
  datatype Line = Line(byServer: bool, body: string)

  /** What a reader of the lines sees, line after line. */
  function ReadAll(lines: seq<Line>): seq<Event> {
    if lines == [] then []
    else ReadAll(lines[..|lines| - 1]) + Walk(lines[|lines| - 1].body, '+', 1)
  }

  /** The line shows some well-formed changes with at most six arguments. */
  ghost predicate FitsOneLine(line: Line, ts: int) {
    exists p: seq<Change>, last: char ::
      p != [] && AllWellFormed(p) && |ArgList(p)| <= 6 && line.body == Body(p, last, Decimal(ts))
  }

  /** The server's lines come first and say what the server has to say. */
  ghost predicate ServerLinesFirst(lines: seq<Line>, q: seq<Change>) {
    exists n: nat | n <= |lines| ::
      (forall i | 0 <= i < |lines| :: lines[i].byServer == (i < n)) && ReadAll(lines[..n]) == Events(OfClass(q, 1))
  }

  /** The last word of every line is the channel's timestamp. */
  ghost predicate Stamped(lines: seq<Line>, ts: int) {
    forall i | 0 <= i < |lines| :: ReadNumber(LastWord(lines[i].body)) == ts
  }

  class Channel {
    var on: bool
    var amChanOp: bool
    var ts: int
    var modebuff: Node?
    // The queued changes, the nodes that hold them, in order, and all nodes ever used.
    ghost var queue: seq<Change>
    ghost var nodes: seq<Node>
    ghost var repr: set<Node>

    ghost predicate Linked()
      reads this, repr
    {
      && |queue| == |nodes|
      && (forall i | 0 <= i < |nodes| :: nodes[i] in repr && nodes[i].Value() == queue[i])
      && modebuff == ElementAt(nodes, 0)
      && Distinct(nodes)
      && (forall i {:trigger nodes[i].prev} | 0 <= i < |nodes| :: nodes[i].prev == ElementAt(nodes, i - 1))
      && (forall i {:trigger nodes[i].next} | 0 <= i < |nodes| :: nodes[i].next == ElementAt(nodes, i + 1))
    }

    ghost function NodeAt(i: int): Node?
      reads this
    {
      ElementAt(nodes, i)
    }

    constructor (on: bool, ts: int)
      ensures Linked() && queue == [] && repr == {}
    {
      this.on, this.amChanOp, this.ts := on, on, ts;
      modebuff, queue, nodes, repr := null, [], [], {};
    }

    /** The surgery of both loops: the neighbours of node `i` are linked. */
    method Splice(mode: Node, ghost i: nat)
      requires Linked() && i < |nodes| && mode == nodes[i]
      modifies this`modebuff, repr
      ensures forall k | 0 <= k < |nodes| :: nodes[k].Value() == queue[k]
      ensures modebuff == NodeAt(if i == 0 then 1 else 0)
      ensures forall k {:trigger nodes[k].next} | 0 <= k < |nodes| && k != i ::
                nodes[k].next == NodeAt(if k == i - 1 then i + 1 else k + 1)
      ensures forall k {:trigger nodes[k].prev} | 0 <= k < |nodes| && k != i ::
                nodes[k].prev == NodeAt(if k == i + 1 then i - 1 else k - 1)
    {
      assert mode.prev == NodeAt(i - 1) && mode.next == NodeAt(i + 1);
      if mode.prev != null {
        mode.prev.next := mode.next;
      } else {
        modebuff := mode.next;
      }
      if mode.next != null {
        mode.next.prev := mode.prev;
      }
    }

    /** Unlink the node at position `i` of the list. */
    method Unlink(mode: Node, ghost i: nat)
      requires Linked() && i < |nodes| && mode == nodes[i]
      modifies this`modebuff, this`queue, this`nodes, repr
      ensures Linked() && queue == RemoveAt(old(queue), i)
      ensures NodeAt(i) == old(NodeAt(i + 1))
    {
      Splice(mode, i);
      Relink(nodes, i);
      ghost var was := nodes;
      nodes, queue := RemoveAt(nodes, i), RemoveAt(queue, i);
      assert forall k {:trigger nodes[k]} | 0 <= k < |nodes| :: nodes[k] == if k < i then was[k] else was[k + 1];
    }

    /** Link a node behind the last one. */
    method Append(c: Change)
      requires Linked()
      modifies this`modebuff, this`queue, this`nodes, this`repr, repr
      ensures Linked() && fresh(repr - old(repr))
      ensures queue == old(queue) + [c]
    {
      var curr := new Node(c);
      var mode := modebuff;
      ghost var i := 0;
      while mode != null && mode.next != null
        invariant 0 <= i && (mode != null ==> i < |nodes| && mode == nodes[i])
        invariant mode == null ==> nodes == []
        decreases |nodes| - i
      {
        assert nodes[i].next == NodeAt(i + 1);
        mode := mode.next;
        i := i + 1;
      }
      if mode != null {
        assert nodes[i].next == NodeAt(i + 1);
        curr.prev := mode;
        mode.next := curr;
      } else {
        modebuff := curr;
      }
      nodes, queue, repr := nodes + [curr], queue + [c], repr + {curr};
    }

    /** changemode(): cancel the contradicting entry, keep an equal one, or append. */
    method ChangeMode(sign: char, letter: char, arg: string, asServer: int)
      requires Linked() && UniqueKeys(queue)
      modifies this`modebuff, this`queue, this`nodes, this`repr, repr
      ensures Linked() && fresh(repr - old(repr))
      ensures queue == if asServer == 0 && !on then old(queue)
                         else Coalesce(old(queue), Change(sign, letter, arg, asServer))
    {
      if asServer == 0 && !on {
        return;
      }
      var c := Change(sign, letter, arg, asServer);
      ghost var q := queue;
      var mode := modebuff;
      ghost var k := 0;
      while mode != null
        invariant Scanning(q, c, k, mode) && repr == old(repr)
        decreases |q| - k
      {
        var repeated;
        repeated, mode := Compare(mode, c, q, k);
        if repeated {
          RepeatMeansUntouched(q, c, k);
          return;
        }
        k := k + 1;
      }
      ScanPoint(q, c, k);
      ScanEnd(q, c, k);
      Append(c);
    }

    /** `k` entries of the list have been compared with the new change. */
    ghost predicate Scanning(q: seq<Change>, c: Change, k: nat, mode: Node?)
      reads this, repr
    {
      && Linked() && k <= |q| && NoRepeat(q, c, k)
      && queue == Scanned(q, c, k) && mode == NodeAt(ScanAt(q, c, k))
    }

    /** One turn of the loop: a contrary entry is unlinked, an equal one ends the loop. */
    method Compare(mode: Node, c: Change, ghost q: seq<Change>, ghost k: nat) returns (repeated: bool, next: Node?)
      requires Scanning(q, c, k, mode)
      modifies this`modebuff, this`queue, this`nodes, repr
      ensures k < |q| && repeated == Repeats(c, q[k])
      ensures if repeated then Linked() && queue == Scanned(q, c, k) else Scanning(q, c, k + 1, next)
    {
      ghost var kept := ScanAt(q, c, k);
      ScanPoint(q, c, k);
      ScanNext(q, c, k);
      assert mode.Value() == queue[kept] == q[k];
      assert nodes[kept].next == NodeAt(kept + 1);
      repeated, next := false, mode.next;
      if c.arg == mode.arg && c.letter == mode.letter &&
         ((c.sign == '+' && mode.sign == '-') || (c.sign == '-' && mode.sign == '+')) {
        Unlink(mode, kept);
      } else if c.arg == mode.arg && c.letter == mode.letter && c.sign == mode.sign {
        repeated := true;
      }
    }

    /** The lines say this, if the bot may say it. */
    ghost predicate Printed(lines: seq<Line>, done: seq<Change>, asServer: int, sends: bool)
      reads this
    {
      && ReadAll(lines) == (if sends then Events(done) else [])
      && GoodLines(lines, asServer != 0, ts)
    }

    /** One pass of flushmode() over the list, for the changes of one class. */
    method FlushPass(asServer: int, sends: bool) returns (lines: seq<Line>)
      requires Linked() && AllWellFormed(queue)
      modifies this`modebuff, this`queue, this`nodes, repr
      ensures Linked() && queue == Others(old(queue), asServer)
      ensures Printed(lines, OfClass(old(queue), asServer), asServer, sends)
    {
      ghost var q := queue;
      lines := [];
      var pen := Pen("", "", NUL, 0);
      var mode := modebuff;
      ghost var k, w := 0, Writing([], [], NUL);
      PassBegins(asServer, sends);
      while mode != null
        invariant Passing(q, asServer, sends, k, mode, lines, pen, w)
        decreases |q| - k
      {
        mode, lines, pen, w := PassTurn(mode, asServer, sends, lines, pen, q, k, w);
        k := k + 1;
      }
      PassEnds(q, asServer, sends, k, lines, pen, w);
    }

    lemma PassBegins(asServer: int, sends: bool)
      requires Linked() && AllWellFormed(queue)
      ensures Passing(queue, asServer, sends, 0, modebuff, [], Pen("", "", NUL, 0), Writing([], [], NUL))
    {
    }

    lemma PassEnds(q: seq<Change>, asServer: int, sends: bool, k: nat, lines: seq<Line>, pen: Pen, w: Writing)
      requires Passing(q, asServer, sends, k, null, lines, pen, w)
      ensures queue == Others(q, asServer) && Printed(lines, OfClass(q, asServer), asServer, sends)
    {
      PassEnd(q, asServer, k);
    }

    /** `k` changes of the list have been seen. */
    ghost predicate Passing(q: seq<Change>, asServer: int, sends: bool, k: nat, mode: Node?,
                            lines: seq<Line>, pen: Pen, w: Writing)
      reads this, repr
    {
      && Linked() && AllWellFormed(q) && k <= |q|
      && queue == Passed(q, asServer, k) && mode == NodeAt(PassAt(q, asServer, k)) && (mode == null <==> k == |q|)
      && Written(Taken(q, asServer, k), w, pen) && (mode == null ==> w.p == [])
      && Printed(lines, w.done, asServer, sends)
    }

    /** One turn of the loop. */
    method PassTurn(mode: Node, asServer: int, sends: bool, lines: seq<Line>, pen: Pen,
                    ghost q: seq<Change>, ghost k: nat, ghost w: Writing)
      returns (next: Node?, lines': seq<Line>, pen': Pen, ghost w': Writing)
      requires Passing(q, asServer, sends, k, mode, lines, pen, w)
      modifies this`modebuff, this`queue, this`nodes, repr
      ensures k < |q| && Passing(q, asServer, sends, k + 1, next, lines', pen', w')
    {
      var c;
      next, c := PassNode(mode, asServer, q, k);
      lines', pen', w' := Write(c, next == null, asServer, sends, lines, pen, q, k, w);
    }

    /** One node of the pass: its change, if of this class, is taken off the list, or it is left for
        the other pass. */
    method PassNode(mode: Node, asServer: int, ghost q: seq<Change>, ghost k: nat) returns (next: Node?, c: Change)
      requires Linked() && k < |q|
      requires queue == Passed(q, asServer, k) && mode == NodeAt(PassAt(q, asServer, k))
      modifies this`modebuff, this`queue, this`nodes, repr
      ensures Linked() && queue == Passed(q, asServer, k + 1) && c == q[k]
      ensures next == NodeAt(PassAt(q, asServer, k + 1)) && (next == null <==> k + 1 == |q|)
    {
      PassStep(q, asServer, k);
      next, c := TakeNode(mode, asServer, PassAt(q, asServer, k));
    }

    /** The same by position. */
    method TakeNode(mode: Node, asServer: int, ghost at: nat) returns (next: Node?, c: Change)
      requires Linked() && at < |nodes| && mode == nodes[at]
      modifies this`modebuff, this`queue, this`nodes, repr
      ensures Linked() && c == old(queue[at])
      ensures queue == if c.asServer == asServer then RemoveAt(old(queue), at) else old(queue)
      ensures next == NodeAt(if c.asServer == asServer then at else at + 1)
    {
      assert nodes[at].next == NodeAt(at + 1) && nodes[at].Value() == queue[at];
      next, c := mode.next, mode.Value();
      if asServer == mode.asServer {
        Unlink(mode, at);
      }
    }

    /** A change of this class is written to the line, which may be full or the last one then. */
    method Write(c: Change, end: bool, asServer: int, sends: bool, lines: seq<Line>, pen: Pen,
                 ghost q: seq<Change>, ghost k: nat, ghost w: Writing)
      returns (lines': seq<Line>, pen': Pen, ghost w': Writing)
      requires k < |q| && AllWellFormed(q) && c == q[k]
      requires Written(Taken(q, asServer, k), w, pen) && Printed(lines, w.done, asServer, sends)
      ensures Written(Taken(q, asServer, k + 1), w', pen') && Printed(lines', w'.done, asServer, sends)
      ensures end ==> w'.p == []
    {
      lines', pen', w' := lines, pen, w;
      if asServer == c.asServer {
        TakeOne(q, asServer, k, w, pen);
        pen' := pen.Write(c.sign, c.letter, c.arg);
        w' := w.(p := w.p + [c]);
      } else {
        PassNext(q, asServer, k);
      }
      if pen'.count == MAX_MODE_PER_LINE || end {
        lines' := Emit(lines, pen', asServer, sends, w');
        w' := Writing(Joined(w'.done, w'.p), [], '+');
        pen' := Pen("", "", '+', 0);
      }
    }

    /** The end of a line: send it unless it is empty or the bot may not. */
    method Emit(lines: seq<Line>, pen: Pen, asServer: int, sends: bool,
                ghost w: Writing)
      returns (r: seq<Line>)
      requires pen.Shows(w.p, w.start) && pen.count <= MAX_MODE_PER_LINE
      requires Printed(lines, w.done, asServer, sends)
      ensures Printed(r, Joined(w.done, w.p), asServer, sends)
    {
      r := lines;
      if sends {
        JoinedEvents(w.done, w.p);
        if pen.flags != [] {
          var line := Line(asServer != 0, pen.flags + pen.args + " " + Decimal(ts));
          pen.IsRead(w.p, w.start, line, ts);
          ReadAllAppend(lines, line);
          r := r + [line];
          GoodLinesAppend(lines, line, asServer != 0, ts);
        } else {
          assert w.p == [];
        }
      }
    }

    /** flushmode(): the server's changes, then the bot's, which only a channel operator sends. */
    method FlushMode() returns (lines: seq<Line>)
      requires Linked() && AllWellFormed(queue)
      requires forall c | c in queue :: c.asServer == 0 || c.asServer == 1
      modifies this`modebuff, this`queue, this`nodes, repr
      ensures Linked() && queue == []
      ensures ReadAll(lines) == Events(Sent(old(queue), amChanOp))
      ensures ServerLinesFirst(lines, old(queue)) && Stamped(lines, ts)
      ensures forall i | 0 <= i < |lines| :: FitsOneLine(lines[i], ts)
    {
      ghost var q := queue;
      var first, second := FlushPasses();
      lines := first + second;
      BothPassesRead(q, first, second, amChanOp, ts, lines);
    }

    /** Any calls on an empty queue. */
    method ChangeModes(calls: seq<Change>)
      requires Linked() && queue == [] && forall c | c in calls :: Proper(c)
      modifies this`modebuff, this`queue, this`nodes, this`repr, repr
      ensures Linked() && fresh(repr - old(repr)) && queue == CoalesceAll(Accepted(calls, on))
    {
      var k := 0;
      while k < |calls|
        invariant 0 <= k <= |calls| && Linked() && fresh(repr - old(repr))
        invariant queue == CoalesceAll(Accepted(calls[..k], on))
      {
        AcceptNext(calls, on, k);
        var c := calls[k];
        ChangeMode(c.sign, c.letter, c.arg, c.asServer);
        k := k + 1;
      }
      assert calls[..k] == calls;
    }

    /** From queueing to the other side of the connection: whoever applies the lines of the flush to a
        set of modes, whatever it is, gets what all accepted calls in order make of it. Without
        operator status this is so if and only if no change of the bot's own is left in the queue. */
    method ChangeAndFlush(calls: seq<Change>) returns (lines: seq<Line>)
      requires Linked() && queue == [] && forall c | c in calls :: Proper(c)
      modifies this`modebuff, this`queue, this`nodes, this`repr, repr
      ensures Linked() && queue == []
      ensures Conveys(ReadAll(lines), Accepted(calls, on))
         <==> amChanOp || forall c | c in CoalesceAll(Accepted(calls, on)) :: c.asServer == 1
      ensures Stamped(lines, ts)
      ensures forall i | 0 <= i < |lines| :: FitsOneLine(lines[i], ts)
    {
      ChangeModes(calls);
      ghost var accepted := Accepted(calls, on);
      AcceptedAreCalls(calls, on);
      QueueIsProper(accepted);
      FlushMeansTheCalls(accepted, amChanOp);
      lines := FlushMode();
    }

    /** The two passes of flushmode() */
    method FlushPasses() returns (first: seq<Line>, second: seq<Line>)
      requires Linked() && AllWellFormed(queue)
      modifies this`modebuff, this`queue, this`nodes, repr
      ensures Linked() && queue == Others(Others(old(queue), 1), 0)
      ensures ReadAll(first) == Events(OfClass(old(queue), 1)) && GoodLines(first, true, ts)
      ensures ReadAll(second) == if amChanOp then Events(OfClass(Others(old(queue), 1), 0)) else []
      ensures GoodLines(second, false, ts)
    {
      OthersWellFormed(queue, 1);
      first := FlushPass(1, true);
      second := FlushPass(0, amChanOp);
    }
  }

  ghost predicate GoodLines(lines: seq<Line>, byServer: bool, ts: int) {
    forall i {:trigger FitsOneLine(lines[i], ts)} | 0 <= i < |lines| ::
      lines[i].byServer == byServer && FitsOneLine(lines[i], ts)
  }

  lemma GoodLinesAppend(lines: seq<Line>, line: Line, byServer: bool, ts: int)
    requires GoodLines(lines, byServer, ts) && line.byServer == byServer && FitsOneLine(line, ts)
    ensures GoodLines(lines + [line], byServer, ts)
  {
    forall i | 0 <= i < |lines + [line]|
      ensures (lines + [line])[i].byServer == byServer && FitsOneLine((lines + [line])[i], ts)
    {
      assert i < |lines| ==> FitsOneLine(lines[i], ts);
    }
  }

  lemma GoodLinesConcat(a: seq<Line>, b: seq<Line>, ts: int)
    requires GoodLines(a, true, ts) && GoodLines(b, false, ts)
    ensures forall i | 0 <= i < |a + b| :: (a + b)[i].byServer == (i < |a|) && FitsOneLine((a + b)[i], ts)
  {
    forall i | 0 <= i < |a + b| ensures (a + b)[i].byServer == (i < |a|) && FitsOneLine((a + b)[i], ts) {
      assert FitsOneLine(if i < |a| then a[i] else b[i - |a|], ts);
    }
  }

  /** The scratch buffers of flushmode() for the line that is being built. */
  datatype Pen = Pen(flags: string, args: string, lastsign: char, count: nat) {

    function Write(sign: char, letter: char, arg: string): Pen {
      Pen(flags + (if lastsign != sign then [sign, letter] else [letter]),
          if arg != [] then args + (" " + arg) else args,
          sign,
          if arg != [] then count + 1 else count)
    }

    ghost predicate Shows(p: seq<Change>, start: char) {
      && AllWellFormed(p) && (start == '+' || start == NUL)
      && flags == FlagText(p, start) && args == ArgText(p)
      && lastsign == LastSign(p, start) && count == |ArgList(p)|
    }

    lemma ShowsOneMore(p: seq<Change>, start: char, c: Change)
      requires Shows(p, start) && WellFormed(c)
      ensures Write(c.sign, c.letter, c.arg).Shows(p + [c], start)
    {
      WellFormedAppend(p, c);
      FlagTextAppend(p, c, start);
      ArgTextAppend(p, c);
      ArgListAppend(p, c);
      if c.arg == [] {
        assert ArgText(p) + [] == ArgText(p);
        assert ArgList(p) + [] == ArgList(p);
      }
    }

    lemma IsRead(p: seq<Change>, start: char, line: Line, ts: int)
      requires Shows(p, start) && flags != [] && count <= MAX_MODE_PER_LINE
      requires line.body == flags + args + " " + Decimal(ts)
      ensures Walk(line.body, '+', 1) == Events(p) && FitsOneLine(line, ts)
    {
      BodyIsPrinted(p, start, Decimal(ts));
      LineRoundTrip(p, start, Decimal(ts));
    }
  }

  /** What is left of a list after the surgery on node `i` is a list again. */
  lemma Relink(nodes: seq<Node>, i: nat)
    requires i < |nodes| && Distinct(nodes)
    requires forall k {:trigger nodes[k].next} | 0 <= k < |nodes| && k != i ::
               nodes[k].next == ElementAt(nodes, if k == i - 1 then i + 1 else k + 1)
    requires forall k {:trigger nodes[k].prev} | 0 <= k < |nodes| && k != i ::
               nodes[k].prev == ElementAt(nodes, if k == i + 1 then i - 1 else k - 1)
    ensures var now := RemoveAt(nodes, i);
            && Distinct(now)
            && (forall k {:trigger now[k].prev} | 0 <= k < |now| :: now[k].prev == ElementAt(now, k - 1))
            && (forall k {:trigger now[k].next} | 0 <= k < |now| :: now[k].next == ElementAt(now, k + 1))
  {
    var now := RemoveAt(nodes, i);
    forall k | 0 <= k < |now| ensures now[k].prev == ElementAt(now, k - 1) {
      assert now[k] == nodes[if k < i then k else k + 1];
    }
    forall k | 0 <= k < |now| ensures now[k].next == ElementAt(now, k + 1) {
      assert now[k] == nodes[if k < i then k else k + 1];
    }
  }

  // --- proof steps ------------------------------------------------------------------------

  /** The queue once `k` entries have been compared with the new call, and the number of
      those that were left in it. */
  function Scanned(q: seq<Change>, c: Change, k: nat): seq<Change>
    requires k <= |q|
  {
    if k == 0 then q
    else if Contradicts(c, q[k - 1]) then RemoveAt(Scanned(q, c, k - 1), ScanAt(q, c, k - 1))
    else Scanned(q, c, k - 1)
  }

  function ScanAt(q: seq<Change>, c: Change, k: nat): nat
    requires k <= |q|
  {
    if k == 0 then 0 else ScanAt(q, c, k - 1) + if Contradicts(c, q[k - 1]) then 0 else 1
  }

  lemma RemoveMiddle<T>(a: seq<T>, x: T, b: seq<T>)
    ensures RemoveAt(a + ([x] + b), |a|) == a + b
  {
  }

  lemma MoveMiddle<T>(a: seq<T>, x: T, b: seq<T>)
    ensures a + ([x] + b) == (a + [x]) + b
  {
  }

  lemma CutOne<T>(q: seq<T>, k: nat)
    requires 0 < k <= |q|
    ensures q[k - 1..] == [q[k - 1]] + q[k..]
    ensures q[..k][..k - 1] == q[..k - 1] && q[..k][k - 1] == q[k - 1]
  {
  }

  /** The entries behind the scan are those not contradicted, the others are untouched. */
  lemma {:induction false} ScanSoFar(q: seq<Change>, c: Change, k: nat)
    requires k <= |q|
    ensures Scanned(q, c, k) == WithoutContrary(q[..k], c) + q[k..]
    ensures ScanAt(q, c, k) == |WithoutContrary(q[..k], c)|
    decreases k
  {
    if k > 0 {
      ScanSoFar(q, c, k - 1);
      CutOne(q, k);
      var kept := WithoutContrary(q[..k - 1], c);
      if Contradicts(c, q[k - 1]) {
        RemoveMiddle(kept, q[k - 1], q[k..]);
        assert kept + [] == kept;
      } else {
        MoveMiddle(kept, q[k - 1], q[k..]);
      }
    }
  }

  /** The node under the scan holds the entry that has not been compared yet. */
  lemma ScanPoint(q: seq<Change>, c: Change, k: nat)
    requires k <= |q|
    ensures k < |q| ==> ScanAt(q, c, k) < |Scanned(q, c, k)| && Scanned(q, c, k)[ScanAt(q, c, k)] == q[k]
    ensures k == |q| ==> ScanAt(q, c, k) == |Scanned(q, c, k)|
  {
    ScanSoFar(q, c, k);
  }

  lemma ScanNext(q: seq<Change>, c: Change, k: nat)
    requires k < |q|
    ensures Scanned(q, c, k + 1) ==
            if Contradicts(c, q[k]) then RemoveAt(Scanned(q, c, k), ScanAt(q, c, k)) else Scanned(q, c, k)
    ensures ScanAt(q, c, k + 1) == ScanAt(q, c, k) + if Contradicts(c, q[k]) then 0 else 1
  {
  }

  ghost predicate NoRepeat(q: seq<Change>, c: Change, k: nat)
    requires k <= |q|
  {
    forall i | 0 <= i < k :: !Repeats(c, q[i])
  }

  lemma ScanEnd(q: seq<Change>, c: Change, k: nat)
    requires k == |q| && NoRepeat(q, c, k)
    ensures Scanned(q, c, k) + [c] == Coalesce(q, c)
  {
    ScanSoFar(q, c, k);
    assert q[..k] == q;
    assert WithoutContrary(q, c) + q[k..] == WithoutContrary(q, c);
  }

  /** An equal entry that is reached means nothing was cancelled before it. */
  lemma RepeatMeansUntouched(q: seq<Change>, c: Change, k: nat)
    requires UniqueKeys(q) && k < |q| && Repeats(c, q[k])
    ensures Scanned(q, c, k) == Coalesce(q, c)
  {
    forall i | 0 <= i < k ensures !Contradicts(c, q[i]) {
      assert q[i].Key() != q[k].Key();
    }
    NothingContrary(q[..k], c);
    ScanSoFar(q, c, k);
    assert q[k] in q;
  }

  /** The changes on finished lines and those on the current one. */
  function Joined(done: seq<Change>, p: seq<Change>): seq<Change> {
    if p == [] then done else Joined(done, p[..|p| - 1]) + [p[|p| - 1]]
  }

  lemma JoinedOne(done: seq<Change>, p: seq<Change>, c: Change)
    ensures Joined(done, p + [c]) == Joined(done, p) + [c]
  {
    assert (p + [c])[..|p|] == p;
  }

  lemma {:induction false} JoinedIsConcat(done: seq<Change>, p: seq<Change>)
    ensures Joined(done, p) == done + p
    decreases |p|
  {
    if p != [] {
      JoinedIsConcat(done, p[..|p| - 1]);
      assert p == p[..|p| - 1] + [p[|p| - 1]];
    }
  }

  /** The same for one pass of flushmode(). */
  function Passed(q: seq<Change>, asServer: int, k: nat): seq<Change>
    requires k <= |q|
  {
    if k == 0 then q
    else if q[k - 1].asServer == asServer then RemoveAt(Passed(q, asServer, k - 1), PassAt(q, asServer, k - 1))
    else Passed(q, asServer, k - 1)
  }

  function PassAt(q: seq<Change>, asServer: int, k: nat): nat
    requires k <= |q|
  {
    if k == 0 then 0 else PassAt(q, asServer, k - 1) + if q[k - 1].asServer == asServer then 0 else 1
  }

  /** The changes taken off the list: those in `done` are on finished lines and those in `p` on the
      current one, which began with the reader's sign taken to be `start`. */
  datatype Writing = Writing(done: seq<Change>, p: seq<Change>, start: char)

  ghost predicate Written(taken: seq<Change>, w: Writing, pen: Pen) {
    taken == Joined(w.done, w.p) && pen.Shows(w.p, w.start) && pen.count < MAX_MODE_PER_LINE
  }

  /** The changes of the class among the first `k`. */
  function Taken(q: seq<Change>, asServer: int, k: nat): seq<Change>
    requires k <= |q|
  {
    if k == 0 then []
    else Taken(q, asServer, k - 1) + if q[k - 1].asServer == asServer then [q[k - 1]] else []
  }

  lemma {:induction false} PassSoFar(q: seq<Change>, asServer: int, k: nat)
    requires k <= |q|
    ensures Passed(q, asServer, k) == Others(q[..k], asServer) + q[k..]
    ensures PassAt(q, asServer, k) == |Others(q[..k], asServer)|
    ensures Taken(q, asServer, k) == OfClass(q[..k], asServer)
    decreases k
  {
    if k > 0 {
      PassSoFar(q, asServer, k - 1);
      CutOne(q, k);
      var kept := Others(q[..k - 1], asServer);
      if q[k - 1].asServer == asServer {
        RemoveMiddle(kept, q[k - 1], q[k..]);
        assert kept + [] == kept;
      } else {
        MoveMiddle(kept, q[k - 1], q[k..]);
      }
    }
  }

  lemma PassPoint(q: seq<Change>, asServer: int, k: nat)
    requires k <= |q|
    ensures k < |q| ==> PassAt(q, asServer, k) < |Passed(q, asServer, k)|
                        && Passed(q, asServer, k)[PassAt(q, asServer, k)] == q[k]
    ensures k == |q| ==> PassAt(q, asServer, k) == |Passed(q, asServer, k)|
  {
    PassSoFar(q, asServer, k);
  }

  /** The pen writes the next change of the class. */
  lemma TakeOne(q: seq<Change>, asServer: int, k: nat, w: Writing, pen: Pen)
    requires k < |q| && AllWellFormed(q) && q[k].asServer == asServer
    requires Written(Taken(q, asServer, k), w, pen)
    ensures Taken(q, asServer, k + 1) == Joined(w.done, w.p + [q[k]])
    ensures pen.Write(q[k].sign, q[k].letter, q[k].arg).Shows(w.p + [q[k]], w.start)
  {
    WellFormedAt(q, k);
    pen.ShowsOneMore(w.p, w.start, q[k]);
    JoinedOne(w.done, w.p, q[k]);
  }

  lemma PassNext(q: seq<Change>, asServer: int, k: nat)
    requires k < |q|
    ensures Passed(q, asServer, k + 1) ==
            if q[k].asServer == asServer then RemoveAt(Passed(q, asServer, k), PassAt(q, asServer, k))
            else Passed(q, asServer, k)
    ensures PassAt(q, asServer, k + 1) == PassAt(q, asServer, k) + if q[k].asServer == asServer then 0 else 1
    ensures Taken(q, asServer, k + 1) ==
            if q[k].asServer == asServer then Taken(q, asServer, k) + [q[k]] else Taken(q, asServer, k)
  {
    assert Taken(q, asServer, k) + [] == Taken(q, asServer, k);
  }

  lemma PassStep(q: seq<Change>, asServer: int, k: nat)
    requires k < |q|
    ensures PassAt(q, asServer, k) < |Passed(q, asServer, k)|
    ensures Passed(q, asServer, k)[PassAt(q, asServer, k)] == q[k]
    ensures Passed(q, asServer, k + 1) ==
            if q[k].asServer == asServer then RemoveAt(Passed(q, asServer, k), PassAt(q, asServer, k))
            else Passed(q, asServer, k)
    ensures PassAt(q, asServer, k + 1) == PassAt(q, asServer, k) + if q[k].asServer == asServer then 0 else 1
    ensures PassAt(q, asServer, k + 1) <= |Passed(q, asServer, k + 1)|
    ensures PassAt(q, asServer, k + 1) == |Passed(q, asServer, k + 1)| <==> k + 1 == |q|
  {
    PassPoint(q, asServer, k);
    PassPoint(q, asServer, k + 1);
  }

  lemma PassEnd(q: seq<Change>, asServer: int, k: nat)
    requires k == |q|
    ensures Passed(q, asServer, k) == Others(q, asServer) && Taken(q, asServer, k) == OfClass(q, asServer)
  {
    PassSoFar(q, asServer, k);
    assert q[..k] == q;
    assert Others(q, asServer) + q[k..] == Others(q, asServer);
  }

  lemma JoinedEvents(done: seq<Change>, p: seq<Change>)
    ensures Events(Joined(done, p)) == Events(done) + Events(p)
  {
    JoinedIsConcat(done, p);
    EventsConcat(done, p);
  }

  lemma ReadAllAppend(lines: seq<Line>, line: Line)
    ensures ReadAll(lines + [line]) == ReadAll(lines) + Walk(line.body, '+', 1)
  {
    assert (lines + [line])[..|lines|] == lines;
  }

  lemma {:induction false} ReadAllConcat(a: seq<Line>, b: seq<Line>)
    ensures ReadAll(a + b) == ReadAll(a) + ReadAll(b)
    decreases |b|
  {
    if b == [] {
      assert a + b == a;
    } else {
      var front, last := b[..|b| - 1], b[|b| - 1];
      assert a + b == (a + front) + [last];
      ReadAllAppend(a + front, last);
      ReadAllConcat(a, front);
      Assoc(ReadAll(a), ReadAll(front), Walk(last.body, '+', 1));
    }
  }

  lemma LineEnds(line: Line, ts: int)
    requires FitsOneLine(line, ts)
    ensures ReadNumber(LastWord(line.body)) == ts
  {
    var p: seq<Change>, last: char :| line.body == Body(p, last, Decimal(ts));
    BodyEnds(p, last, ts);
  }

  lemma BothPassesRead(q: seq<Change>, first: seq<Line>, second: seq<Line>, sends: bool, ts: int, lines: seq<Line>)
    requires forall c | c in q :: c.asServer == 0 || c.asServer == 1
    requires ReadAll(first) == Events(OfClass(q, 1))
    requires ReadAll(second) == if sends then Events(OfClass(Others(q, 1), 0)) else []
    requires GoodLines(first, true, ts) && GoodLines(second, false, ts) && lines == first + second
    ensures ReadAll(lines) == Events(Sent(q, sends))
    ensures ServerLinesFirst(lines, q) && Stamped(lines, ts)
    ensures forall i | 0 <= i < |lines| :: FitsOneLine(lines[i], ts)
    ensures Others(Others(q, 1), 0) == []
  {
    GoodLinesConcat(first, second, ts);
    assert (first + second)[..|first|] == first;
    forall i | 0 <= i < |lines| ensures ReadNumber(LastWord(lines[i].body)) == ts {
      LineEnds(lines[i], ts);
    }
    OnlyOneClassLeft(q);
    ReadAllConcat(first, second);
    if sends {
      EventsConcat(OfClass(q, 1), OfClass(q, 0));
    } else {
      assert Events(OfClass(q, 1)) + [] == Events(OfClass(q, 1));
    }
  }

  lemma EventsConcat(a: seq<Change>, b: seq<Change>)
    ensures Events(a + b) == Events(a) + Events(b)
  {
  }

  lemma {:induction false} OthersWellFormed(q: seq<Change>, asServer: int)
    requires AllWellFormed(q)
    ensures AllWellFormed(Others(q, asServer))
    decreases |q|
  {
    if q != [] {
      var front, last := q[..|q| - 1], q[|q| - 1];
      assert q == front + [last];
      WellFormedAppend(front, last);
      OthersWellFormed(front, asServer);
      WellFormedAppend(Others(front, asServer), last);
      assert Others(front, asServer) + [] == Others(front, asServer);
    }
  }

  lemma {:induction false} OnlyOneClassLeft(q: seq<Change>)
    requires forall c | c in q :: c.asServer == 0 || c.asServer == 1
    ensures OfClass(Others(q, 1), 0) == OfClass(q, 0)
    ensures Others(Others(q, 1), 0) == []
    ensures AllWellFormed(q) ==> AllWellFormed(Others(q, 1))
    decreases |q|
  {
    if q != [] {
      var front, last := q[..|q| - 1], q[|q| - 1];
      assert q == front + [last];
      OnlyOneClassLeft(front);
      WellFormedAppend(front, last);
      WellFormedAppend(Others(front, 1), last);
      var r := Others(front, 1);
      if last.asServer != 1 {
        assert (r + [last])[..|r|] == r;
      } else {
        assert r + [] == r;
      }
    }
  }

  /** The calls that changemode() does not ignore: the bot's own ones only while it is on the channel. */
  function Accepted(calls: seq<Change>, on: bool): seq<Change> {
    if calls == [] then []
    else
      var n := |calls| - 1;
      Accepted(calls[..n], on) + if calls[n].asServer == 0 && !on then [] else [calls[n]]
  }

  lemma {:induction false} AcceptedAreCalls(calls: seq<Change>, on: bool)
    ensures forall c | c in Accepted(calls, on) :: c in calls
    decreases |calls|
  {
    if calls != [] {
      AcceptedAreCalls(calls[..|calls| - 1], on);
    }
  }

  /** On a channel the bot is on every call counts, in order; elsewhere those count that it makes for the server. */
  lemma {:induction false} AcceptedMeans(calls: seq<Change>, on: bool)
    ensures on ==> Accepted(calls, on) == calls
    ensures !on ==> forall c :: c in Accepted(calls, on) <==> c in calls && c.asServer != 0
    decreases |calls|
  {
    if calls != [] {
      AcceptedMeans(calls[..|calls| - 1], on);
      assert calls == calls[..|calls| - 1] + [calls[|calls| - 1]];
    }
  }

  lemma AcceptOne(calls: seq<Change>, on: bool, k: nat)
    requires k < |calls|
    ensures Accepted(calls[..k + 1], on) ==
            if calls[k].asServer == 0 && !on then Accepted(calls[..k], on) else Accepted(calls[..k], on) + [calls[k]]
  {
    assert calls[..k + 1][..k] == calls[..k] && calls[..k + 1][k] == calls[k];
    assert Accepted(calls[..k], on) + [] == Accepted(calls[..k], on);
  }

  lemma CoalesceOne(calls: seq<Change>, c: Change)
    ensures CoalesceAll(calls + [c]) == Coalesce(CoalesceAll(calls), c)
  {
    assert (calls + [c])[..|calls|] == calls;
  }

  lemma AcceptedUnique(calls: seq<Change>, on: bool, k: nat)
    requires k <= |calls| && forall c | c in calls :: Proper(c)
    ensures UniqueKeys(CoalesceAll(Accepted(calls[..k], on)))
  {
    AcceptedAreCalls(calls[..k], on);
    assert forall c | c in calls[..k] :: c in calls;
    CoalescingPreservesMeaning(Accepted(calls[..k], on), {});
  }

  /** The queue after the next call. */
  lemma AcceptNext(calls: seq<Change>, on: bool, k: nat)
    requires k < |calls| && forall c | c in calls :: Proper(c)
    ensures UniqueKeys(CoalesceAll(Accepted(calls[..k], on)))
    ensures CoalesceAll(Accepted(calls[..k + 1], on)) ==
            if calls[k].asServer == 0 && !on then CoalesceAll(Accepted(calls[..k], on))
            else Coalesce(CoalesceAll(Accepted(calls[..k], on)), calls[k])
  {
    AcceptedUnique(calls, on, k);
    AcceptOne(calls, on, k);
    CoalesceOne(Accepted(calls[..k], on), calls[k]);
  }

  predicate Proper(c: Change) {
    WellFormed(c) && (c.asServer == 0 || c.asServer == 1)
  }

  ghost predicate ProperQueue(q: seq<Change>) {
    UniqueKeys(q) && AllWellFormed(q) && forall c | c in q :: Proper(c)
  }

  /** What coalescing keeps of proper calls is a proper queue, and means the same. */
  lemma QueueIsProper(calls: seq<Change>)
    requires forall c | c in calls :: Proper(c)
    ensures ProperQueue(CoalesceAll(calls)) && SameEffect(CoalesceAll(calls), calls)
  {
    var q := CoalesceAll(calls);
    forall s ensures ApplyAll(q, s) == ApplyAll(calls, s) {
      CoalescingPreservesMeaning(calls, s);
    }
    CoalescingPreservesMeaning(calls, {});
    assert forall c | c in q :: Proper(c);
    EachWellFormed(q);
  }

  /** Whatever the modes are, applying these events is making these calls. */
  ghost predicate Conveys(es: seq<Event>, calls: seq<Change>) {
    forall s :: ApplyEvents(es, s) == ApplyAll(calls, s)
  }

  lemma ConveysIff(sent: seq<Change>, calls: seq<Change>)
    ensures Conveys(Events(sent), calls) <==> SameEffect(sent, calls)
  {
    forall s ensures ApplyEvents(Events(sent), s) == ApplyAll(sent, s) {
      EventsApply(sent, s);
    }
  }

  /** What the flush of a queue sends has the effect of the queue, except that without operator
      status nothing of the bot's own may be queued. */
  lemma SentIff(q: seq<Change>, op: bool)
    requires ProperQueue(q)
    ensures SameEffect(Sent(q, op), q) <==> op || forall c | c in q :: c.asServer == 1
  {
    if op {
      forall s ensures ApplyAll(ServerFirst(q), s) == ApplyAll(q, s) {
        ServerFirstSameEffect(q, s);
      }
    } else {
      OnlyServersIff(q);
    }
  }

  /** What flushmode() sends: the server's changes, then the bot's if it is a channel operator. */
  function Sent(q: seq<Change>, op: bool): seq<Change> {
    if op then ServerFirst(q) else OfClass(q, 1)
  }

  lemma FlushMeansTheCalls(calls: seq<Change>, op: bool)
    requires forall c | c in calls :: Proper(c)
    ensures Conveys(Events(Sent(CoalesceAll(calls), op)), calls)
       <==> (op || forall c | c in CoalesceAll(calls) :: c.asServer == 1)
  {
    var q := CoalesceAll(calls);
    QueueIsProper(calls);
    SentIff(q, op);
    SameEffectChain(Sent(q, op), q, calls);
    ConveysIff(Sent(q, op), calls);
  }
}
