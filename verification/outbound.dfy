// The stream to the uplink: sendtoserv() and write_to_server() of Sources/connect.c.
module Outbound {
  import opened CaseFold
  import opened Buffers
  import opened Wrappers

  const MAX_SENDQ := 300000
  const WRITE_SIZE := 1023

  /** What the operating system makes of one write(): it accepts some of the bytes, or none. */
  datatype WriteResult = Accepted(n: nat) | WouldBlock | Failed

  datatype Status = Drained | Blocked | Closed | NothingToDo

  /** The bytes taken by one write of `count` bytes. */
  function Clip(r: WriteResult, count: nat): (n: nat)
    requires r.Accepted? && count > 0
    ensures 0 < n <= count
  {
    if r.n == 0 then 1 else if r.n > count then count else r.n
  }

  class IrcSocket {
    const outbuf: Buffer
    const pool: Pool
    var open: bool
    var currentSendQ: int
    // Everything handed to sendtoserv() and everything the operating system accepted.
    ghost var sent: string
    ghost var wire: string

    ghost predicate Valid()
      reads this, outbuf, outbuf.blocks, pool, pool.blocks
    {
      outbuf.Valid() && pool.Valid() && pool as object != outbuf
    }

    /** Nothing is lost, duplicated or reordered. */
    ghost predicate InOrder()
      reads this, outbuf
    {
      wire + outbuf.text == sent
    }

    constructor (pool: Pool)
      requires pool.Valid()
      ensures Valid() && InOrder() && open && sent == [] && currentSendQ == |outbuf.text|
      ensures this.pool == pool && fresh(outbuf) && outbuf.blocks == {}
    {
      outbuf := new Buffer();
      this.pool := pool;
      open, currentSendQ := true, 0;
      sent, wire := [], [];
    }

    /** sendtoserv(): the result is false when the queue limit ends the program. */
    method Send(msg: string) returns (alive: bool)
      requires Valid() && InOrder()
      modifies this, outbuf, outbuf.blocks, pool, pool.blocks
      ensures Valid() && outbuf.Exchanged(pool)
      ensures sent == old(sent) + msg && wire == old(wire)
      ensures alive <==> msg == [] || |old(outbuf.text) + msg| <= MAX_SENDQ
      ensures alive ==> InOrder() && currentSendQ == if msg == [] then -1 else |outbuf.text|
    {
      alive := true;
      currentSendQ := outbuf.CopyTo(pool, msg, |msg|);
      AppendMessage(wire, old(outbuf.text), msg);
      sent := sent + msg;
      if currentSendQ > MAX_SENDQ {
        alive := false;
        GiveUp();
      }
    }

    /** The end of the program */
    method GiveUp()
      requires Valid()
      modifies this`open, outbuf, outbuf.blocks, pool, pool.blocks
      ensures Valid() && outbuf.Returned(pool) && !open
    {
      outbuf.Zap(pool);
      open := false;
    }

    /** The bytes a write has accepted leave the buffer. */
    method Account(ghost buf: string, length: nat)
      requires Valid() && InOrder() && outbuf.chain != []
      requires buf <= outbuf.text && 0 < length <= |buf|
      modifies this`wire, this`currentSendQ, outbuf, outbuf.blocks, pool, pool.blocks
      ensures Valid() && InOrder() && outbuf.Returned(pool)
      ensures wire == old(wire) + buf[..length] && outbuf.text == old(outbuf.text)[length..]
      ensures currentSendQ - |outbuf.text| == old(currentSendQ - |outbuf.text|)
    {
      MoveBytes(wire, outbuf.text, buf, length);
      TakenWithoutStop(outbuf.text, length);
      wire := wire + buf[..length];
      currentSendQ := currentSendQ - length;
      var _ := outbuf.Skip(pool, length);
    }

    /** write_to_server(): `results` are the outcomes of the successive writes; when they run
        out the socket is not ready any more. */
    method WriteToServer(results: seq<WriteResult>) returns (status: Status)
      requires Valid() && InOrder()
      modifies this, outbuf, outbuf.blocks, pool, pool.blocks
      ensures Valid() && InOrder() && outbuf.Returned(pool)
      ensures sent == old(sent) && |old(wire)| <= |wire|
      ensures currentSendQ - |outbuf.text| == old(currentSendQ - |outbuf.text|)
      ensures status == Drained ==> outbuf.text == [] && wire == sent
      ensures open == (old(open) && status != Closed)
    {
      if outbuf.chain == [] {
        return NothingToDo;
      }
      var next, more := 0, true;
      status := Blocked;
      while more
        invariant Valid() && InOrder() && outbuf.Returned(pool)
        invariant sent == old(sent) && |old(wire)| <= |wire| && open == (old(open) && status != Closed)
        invariant currentSendQ - |outbuf.text| == old(currentSendQ - |outbuf.text|)
        invariant (more ==> status == Blocked) && (status == Drained ==> outbuf.text == [])
        decreases |outbuf.text|, more
      {
        more, status := WriteOnce(if next < |results| then results[next] else WouldBlock);
        next := next + 1;
      }
    }

    /** One round of the loop: look at the next bytes and offer them to the operating system. */
    method WriteOnce(result: WriteResult) returns (more: bool, status: Status)
      requires Valid() && InOrder()
      modifies this`wire, this`open, this`currentSendQ, outbuf, outbuf.blocks, pool, pool.blocks
      ensures Valid() && InOrder() && outbuf.Returned(pool) && |old(wire)| <= |wire|
      ensures currentSendQ - |outbuf.text| == old(currentSendQ - |outbuf.text|)
      ensures if more then |outbuf.text| < |old(outbuf.text)| && status == Blocked else outbuf.text == old(outbuf.text)
      ensures open == (old(open) && status != Closed)
      ensures status == Drained ==> outbuf.text == []
    {
      more, status := false, Blocked;
      var count, buf := outbuf.Look(pool, NUL, WRITE_SIZE);
      TakenWithoutStop(outbuf.text, WRITE_SIZE);
      if count <= 0 {
        status := Drained;
      } else if result.Failed? {
        open := false;
        status := Closed;
      } else if result.Accepted? {
        Account(buf, Clip(result, count));
        more := true;
      }
    }

    /** Any run of sends and writes. */
    method Run(script: seq<Step>) returns (alive: bool)
      requires Valid() && InOrder() && sent == []
      modifies this, outbuf, outbuf.blocks, pool, pool.blocks
      ensures Valid()
      ensures alive ==> wire + outbuf.text == Messages(script)
      ensures alive ==> Exact(LastMessage(script))
    {
      alive := true;
      var k := 0;
      while k < |script|
        invariant 0 <= k <= |script| && Valid() && InOrder() && outbuf.Exchanged(pool)
        invariant sent == Messages(script[..k]) && Exact(LastMessage(script[..k]))
      {
        OneMore(script, k);
        alive := Take(script[k]);
        if !alive {
          return;
        }
        k := k + 1;
      }
      assert script[..k] == script;
    }

    /** The queue length is exact unless the last message was empty. */
    ghost predicate Exact(last: Option<string>)
      reads this, outbuf
    {
      last.Some? ==> (currentSendQ == |outbuf.text| <==> last.value != [])
    }

    method Take(step: Step) returns (alive: bool)
      requires Valid() && InOrder()
      modifies this, outbuf, outbuf.blocks, pool, pool.blocks
      ensures Valid() && outbuf.Exchanged(pool) && sent == old(sent) + TextOf(step)
      ensures alive ==> InOrder()
      ensures alive && step.SendMessage? ==> Exact(Some(step.msg))
      ensures alive && step.Flush? ==> currentSendQ - |outbuf.text| == old(currentSendQ - |outbuf.text|)
    {
      alive := true;
      match step {
        case SendMessage(msg) =>
          alive := Send(msg);
        case Flush(results) =>
          var _ := WriteToServer(results);
      }
    }
  }

  datatype Step = SendMessage(msg: string) | Flush(results: seq<WriteResult>)

  function Messages(script: seq<Step>): string {
    if script == [] then []
    else
      Messages(script[..|script| - 1]) + TextOf(script[|script| - 1])
  }

  function TextOf(step: Step): string {
    match step
    case SendMessage(msg) => msg
    case Flush(_) => []
  }

  function LastMessage(script: seq<Step>): Option<string> {
    if script == [] then None
    else match script[|script| - 1]
      case SendMessage(msg) => Some(msg)
      case Flush(_) => LastMessage(script[..|script| - 1])
  }

  lemma OneMore(script: seq<Step>, k: nat)
    requires k < |script|
    ensures Messages(script[..k + 1]) == Messages(script[..k]) + TextOf(script[k])
    ensures LastMessage(script[..k + 1]) ==
            if script[k].SendMessage? then Some(script[k].msg) else LastMessage(script[..k])
  {
    assert script[..k + 1][..k] == script[..k] && script[..k + 1][k] == script[k];
  }

  lemma AppendMessage(wire: string, text: string, msg: string)
    ensures wire + (text + msg) == wire + text + msg
    ensures text + msg[..|msg|] == text + msg && text + [] == text
  {
  }

  lemma MoveBytes(wire: string, text: string, buf: string, n: nat)
    requires buf <= text && n <= |buf|
    ensures wire + buf[..n] + text[n..] == wire + text
  {
  }
}
