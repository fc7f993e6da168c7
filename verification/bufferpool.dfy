// Any number of buffers on one free list (Sources/buffer.c).
module BufferSystem {
  import opened CaseFold
  import opened Buffers
  import opened Lists

  /** One call on one buffer. */
  datatype Call =
    | Append(s: string)
    | Read(stop: char, max: int)
    | Peek(stop: char, max: int)
    | Discard(n: int)
    | Clear

  /** What a call leaves in a buffer that has or has not a block. */
  function After(call: Call, t: string): string {
    match call
    case Append(s) => t + s
    case Read(stop, max) => t[Taken(t, stop, max)..]
    case Peek(_, _) => t
    case Discard(n) => t[Taken(t, NUL, n)..]
    case Clear => []
  }

  function Sum(ns: seq<nat>): nat {
    if ns == [] then 0 else Sum(ns[..|ns| - 1]) + ns[|ns| - 1]
  }

  lemma {:induction false} SumUpdate(ns: seq<nat>, i: nat, n: nat)
    requires i < |ns|
    ensures Sum(ns[i := n]) == Sum(ns) - ns[i] + n
    decreases |ns|
  {
    var front := ns[..|ns| - 1];
    if i < |ns| - 1 {
      SumUpdate(front, i, n);
      assert ns[i := n][..|ns| - 1] == front[i := n];
    } else {
      assert ns[i := n][..|ns| - 1] == front;
    }
  }

  lemma SumNext(ns: seq<nat>, k: nat)
    requires k < |ns|
    ensures Sum(ns[..k + 1]) == Sum(ns[..k]) + ns[k]
  {
    assert ns[..k + 1][..k] == ns[..k] && ns[..k + 1][k] == ns[k];
  }

  lemma {:induction false} SumOfZeros(ns: seq<nat>)
    requires forall i | 0 <= i < |ns| :: ns[i] == 0
    ensures Sum(ns) == 0
    decreases |ns|
  {
    if ns != [] {
      SumOfZeros(ns[..|ns| - 1]);
    }
  }

  method ApplyCall(b: Buffer, pool: Pool, call: Call)
    requires b.Valid() && pool.Valid() && pool as object != b
    requires call.Discard? && call.n > 0 ==> b.chain != []
    modifies b, b.blocks, pool, pool.blocks
    ensures b.Valid() && pool.Valid() && b.Exchanged(pool) && (!call.Append? ==> b.Returned(pool))
    ensures b.text == After(call, old(b.text))
  {
    match call {
      case Append(s) =>
        var _ := b.CopyTo(pool, s, |s|);
        assert s[..|s|] == s && b.text + [] == b.text;
      case Read(stop, max) =>
        var _, _ := b.CopyFrom(pool, stop, max);
      case Peek(stop, max) =>
        var _, _ := b.Look(pool, stop, max);
      case Discard(n) =>
        var _ := b.Skip(pool, n);
      case Clear =>
        b.Zap(pool);
    }
  }

  /** Where a block is. */
  datatype Place = Free(k: nat) | Chained(i: nat, k: nat)

  /** What holds for one part of the whole and its partner holds for the whole and the partner. */
  lemma Trade<T>(p: set<T>, b: set<T>, all: set<T>, p': set<T>, b': set<T>, all': set<T>)
    requires b <= all && b' <= all' && all' + b == all + b'
    requires b + p <= b' + p'
    ensures p + all <= p' + all' && (p' + all') - (p + all) <= (b' + p') - (b + p)
  {
  }

  class System {
    const pool: Pool
    const buffers: seq<Buffer>

    /** The number of blocks in each chain. */
    ghost function Lengths(): (r: seq<nat>)
      reads this, buffers
      ensures |r| == |buffers| && forall i | 0 <= i < |buffers| :: r[i] == |buffers[i].chain|
    {
      seq(|buffers|, i requires 0 <= i < |buffers| reads buffers => |buffers[i].chain|)
    }

    /** Every block is in one chain or on the free list (its owner says which), and both
        counters are exact. */
    ghost predicate Valid()
      reads this, pool, pool.blocks, buffers, set b, x | b in buffers && x in b.blocks :: x
    {
      && pool.Valid()
      && (forall i, j | 0 <= i < j < |buffers| :: buffers[i] != buffers[j])
      && (forall i | 0 <= i < |buffers| :: buffers[i] as object != pool && buffers[i].Valid())
      && pool.nbAlloc == Sum(Lengths())
    }

    /** All blocks there are. */
    ghost function AllBlocks(): set<Block>
      reads this, pool, buffers
    {
      pool.blocks + BlocksOf(|buffers|)
    }

    ghost function BlocksOf(n: nat): set<Block>
      requires n <= |buffers|
      reads this, buffers
    {
      set i, x | 0 <= i < n && x in buffers[i].blocks :: x
    }

    ghost predicate IsAt(x: Block, p: Place)
      reads this, pool, buffers
    {
      match p
      case Free(k) => k < |pool.avail| && pool.avail[k] == x
      case Chained(i, k) => i < |buffers| && k < |buffers[i].chain| && buffers[i].chain[k] == x
    }

    ghost function Owner(p: Place): object
      reads this
    {
      if p.Chained? && p.i < |buffers| then buffers[p.i] else pool
    }

    ghost function Rank(p: Place): int
      reads this, pool, buffers
    {
      match p
      case Free(k) => |pool.avail| - 1 - k
      case Chained(i, k) => if i < |buffers| then buffers[i].base + k else 0
    }

    lemma PlaceTells(x: Block, p: Place)
      requires Valid() && IsAt(x, p)
      ensures x in AllBlocks() && x.owner == Owner(p) && x.rank == Rank(p)
    {
      if p.Chained? {
        assert x in buffers[p.i].blocks && x.rank == buffers[p.i].base + p.k;
      }
    }

    lemma OnlyPlace(x: Block, p: Place, q: Place)
      requires Valid() && IsAt(x, p) && IsAt(x, q)
      ensures p == q
    {
      PlaceTells(x, p);
      PlaceTells(x, q);
      assert p.Chained? <==> q.Chained?;
      if p.Chained? {
        assert buffers[p.i] == buffers[q.i];
        assert p.i == q.i;
      }
    }

    lemma ChainCovers(i: nat, x: Block)
      requires Valid() && i < |buffers| && x in buffers[i].blocks
      ensures exists k :: IsAt(x, Chained(i, k))
    {
      var b := buffers[i];
      assert forall j, k | 0 <= j < k < |b.chain| :: b.chain[j].rank < b.chain[k].rank;
      DistinctCovers(b.chain, b.blocks, x);
      var k :| 0 <= k < |b.chain| && b.chain[k] == x;
      assert IsAt(x, Chained(i, k));
    }

    /** Every block is in exactly one place: in one chain or on the free list, and there once. */
    lemma OnePlace(x: Block)
      requires Valid()
      ensures x in AllBlocks() <==> exists p :: IsAt(x, p)
      ensures forall p, q | IsAt(x, p) && IsAt(x, q) :: p == q
    {
      if x in pool.blocks {
        DistinctCovers(pool.avail, pool.blocks, x);
        var k :| 0 <= k < |pool.avail| && pool.avail[k] == x;
        assert IsAt(x, Free(k));
      } else if x in AllBlocks() {
        var i :| 0 <= i < |buffers| && x in buffers[i].blocks;
        ChainCovers(i, x);
      }
      forall p | IsAt(x, p) ensures x in AllBlocks() {
        PlaceTells(x, p);
      }
      forall p, q | IsAt(x, p) && IsAt(x, q) ensures p == q {
        OnlyPlace(x, p, q);
      }
    }

    /** The two counters add up to the number of blocks. */
    lemma BooksBalance()
      requires Valid()
      ensures pool.nbAlloc + pool.nbAvail == |AllBlocks()|
    {
      CountBlocks(|buffers|);
      assert Lengths()[..|buffers|] == Lengths();
      assert pool.blocks !! BlocksOf(|buffers|);
    }

    lemma BlocksNext(n: nat)
      requires Valid() && n < |buffers|
      ensures BlocksOf(n + 1) == BlocksOf(n) + buffers[n].blocks && BlocksOf(n) !! buffers[n].blocks
    {
      forall x | x in BlocksOf(n) ensures x !in buffers[n].blocks {
        var i :| 0 <= i < n && x in buffers[i].blocks;
        assert buffers[i] != buffers[n] && x.owner == buffers[i];
      }
    }

    lemma {:induction false} CountBlocks(n: nat)
      requires Valid() && n <= |buffers|
      ensures |BlocksOf(n)| == Sum(Lengths()[..n])
    {
      if n > 0 {
        CountBlocks(n - 1);
        SumNext(Lengths(), n - 1);
        BlocksNext(n - 1);
        assert |buffers[n - 1].blocks| == |buffers[n - 1].chain|;
      }
    }

    /** Before the first call there are no blocks at all. */
    constructor (buffers: seq<Buffer>)
      requires forall i, j | 0 <= i < j < |buffers| :: buffers[i] != buffers[j]
      requires forall i | 0 <= i < |buffers| :: buffers[i].Valid() && buffers[i].chain == []
      ensures Valid() && this.buffers == buffers && pool.nbAlloc == pool.nbAvail == 0
      ensures AllBlocks() == {}
    {
      this.buffers := buffers;
      pool := new Pool();
      new;
      SumOfZeros(Lengths());
    }

    twostate lemma OthersKept(i: nat)
      requires i < |buffers|
      requires forall j | 0 <= j < |buffers| && j != i :: buffers[j].blocks == old(buffers[j].blocks)
      requires buffers[i].Exchanged(pool)
      ensures old(AllBlocks()) <= AllBlocks() && fresh(AllBlocks() - old(AllBlocks()))
      ensures buffers[i].Returned(pool) ==> AllBlocks() == old(AllBlocks())
    {
      Trade(old(pool.blocks), old(buffers[i].blocks), old(BlocksOf(|buffers|)),
            pool.blocks, buffers[i].blocks, BlocksOf(|buffers|));
    }

    twostate lemma OtherLengths(i: nat)
      requires i < |buffers|
      requires forall j | 0 <= j < |buffers| && j != i :: buffers[j].chain == old(buffers[j].chain)
      ensures Sum(Lengths()) - |buffers[i].chain| == old(Sum(Lengths()) - |buffers[i].chain|)
    {
      SumUpdate(old(Lengths()), i, |buffers[i].chain|);
      assert Lengths() == old(Lengths())[i := |buffers[i].chain|];
    }

    /** The call itself: the other buffers are out of its reach. */
    method CallOne(i: nat, call: Call)
      requires Valid() && i < |buffers|
      requires call.Discard? && call.n > 0 ==> buffers[i].chain != []
      modifies pool, pool.blocks, buffers[i], buffers[i].blocks
      ensures pool.Valid() && pool.nbAlloc - |buffers[i].chain| == old(pool.nbAlloc - |buffers[i].chain|)
      ensures buffers[i].Valid() && buffers[i].text == After(call, old(buffers[i].text))
      ensures forall j | 0 <= j < |buffers| && j != i ::
                buffers[j].Valid() && buffers[j].text == old(buffers[j].text)
                && buffers[j].chain == old(buffers[j].chain) && buffers[j].blocks == old(buffers[j].blocks)
      ensures buffers[i].Exchanged(pool) && (!call.Append? ==> buffers[i].Returned(pool))
    {
      assert forall j | 0 <= j < |buffers| && j != i ::
          buffers[j] != buffers[i] && forall x | x in buffers[j].blocks :: x.owner == buffers[j];
      ApplyCall(buffers[i], pool, call);
    }

    /** A call changes its own buffer as it should and no other, and keeps the books. No block is
        lost, and only storing makes blocks. */
    method Perform(i: nat, call: Call)
      requires Valid() && i < |buffers|
      requires call.Discard? && call.n > 0 ==> buffers[i].chain != []
      modifies pool, pool.blocks, buffers[i], buffers[i].blocks
      ensures Valid()
      ensures buffers[i].text == After(call, old(buffers[i].text))
      ensures forall j | 0 <= j < |buffers| && j != i ::
                buffers[j].text == old(buffers[j].text) && buffers[j].chain == old(buffers[j].chain)
      ensures old(AllBlocks()) <= AllBlocks() && fresh(AllBlocks() - old(AllBlocks()))
      ensures !call.Append? ==> AllBlocks() == old(AllBlocks())
    {
      CallOne(i, call);
      OthersKept(i);
      OtherLengths(i);
    }
  }
}
