// Character buffers made of 512-byte blocks that share one free list: Sources/buffer.c.
module Buffers {
  import opened CaseFold
  import opened Lists

  const BLOCK_SIZE := 512

  /** A buffer_block. `offsetWrite` is -1 once the block is full. The ghost fields say where the
      block is: the buffer whose chain it is in, or the free list, and its place there. */
  class Block {
    var buf: seq<char>
    var offsetRead: int
    var offsetWrite: int
    ghost var owner: object
    ghost var rank: int

    constructor (ghost owner: object)
      ensures |buf| == BLOCK_SIZE && this.owner == owner
    {
      buf := seq(BLOCK_SIZE, _ => NUL);
      offsetRead, offsetWrite := 0, 0;
      this.owner := owner;
    }

    function End(): int
      reads this
    {
      if offsetWrite == -1 then BLOCK_SIZE else offsetWrite
    }

    /** Only the first block of a chain has been read from, and only the last has room. */
    ghost predicate Good(first: bool, last: bool)
      reads this
    {
      && |buf| == BLOCK_SIZE && 0 <= offsetRead <= End() && offsetRead < BLOCK_SIZE
      && (!first ==> offsetRead == 0)
      && (if last then 0 <= offsetWrite < BLOCK_SIZE else offsetWrite == -1)
    }

    /** Store one character; the last place of a block marks it full. */
    method Put(c: char)
      requires |buf| == BLOCK_SIZE && 0 <= offsetRead <= offsetWrite < BLOCK_SIZE
      modifies this`buf, this`offsetWrite
      ensures |buf| == BLOCK_SIZE && Live() == old(Live()) + [c]
      ensures offsetWrite == if old(offsetWrite) + 1 == BLOCK_SIZE then -1 else old(offsetWrite) + 1
    {
      StoreNext(buf, offsetRead, offsetWrite, c);
      buf := buf[offsetWrite := c];
      offsetWrite := offsetWrite + 1;
      if offsetWrite == BLOCK_SIZE {
        offsetWrite := -1;
      }
    }

    /** The characters still to be read. */
    ghost function Live(): string
      reads this
    {
      if 0 <= offsetRead <= End() <= |buf| then buf[offsetRead..End()] else []
    }
  }

  lemma StoreNext(buf: string, r: nat, w: nat, c: char)
    requires r <= w < |buf|
    ensures buf[w := c][r..w + 1] == buf[r..w] + [c]
  {
  }

  /** The free list and its counters. */
  class Pool {
    var avail: seq<Block>
    var nbAvail: int
    var nbAlloc: int
    ghost var blocks: set<Block>

    ghost predicate Valid()
      reads this, blocks
    {
      && (forall x | x in blocks :: x.owner == this && |x.buf| == BLOCK_SIZE)
      && |blocks| == |avail|
      && (forall i | 0 <= i < |avail| :: avail[i] in blocks && avail[i].rank == |avail| - 1 - i)
      && nbAvail == |avail|
    }

    constructor ()
      ensures Valid() && blocks == {} && nbAlloc == nbAvail == 0
    {
      avail, nbAvail, nbAlloc, blocks := [], 0, 0, {};
    }

    /** get_buffer_block() */
    method GetBlock(ghost owner: object, ghost rank: int) returns (block: Block)
      requires Valid() && owner != this
      modifies this, blocks
      ensures Valid() && nbAlloc == old(nbAlloc) + 1
      ensures blocks == old(blocks) - {block} && (block in old(blocks) || fresh(block))
      ensures block.owner == owner && block.rank == rank
      ensures |block.buf| == BLOCK_SIZE && block.offsetRead == block.offsetWrite == 0
    {
      if avail == [] {
        block := new Block(owner);
      } else {
        block := avail[0];
        avail := avail[1..];
        nbAvail := nbAvail - 1;
      }
      block.offsetRead := 0;
      block.offsetWrite := 0;
      block.owner, block.rank := owner, rank;
      blocks := blocks - {block};
      nbAlloc := nbAlloc + 1;
    }

    /** return_buffer_block() */
    method ReturnBlock(block: Block)
      requires Valid() && block.owner != this && |block.buf| == BLOCK_SIZE
      modifies this, block`owner, block`rank
      ensures Valid() && blocks == old(blocks) + {block}
      ensures nbAlloc == old(nbAlloc) - 1
    {
      block.owner, block.rank := this, |avail|;
      avail := [block] + avail;
      blocks := blocks + {block};
      nbAvail := nbAvail + 1;
      nbAlloc := nbAlloc - 1;
    }
  }

  // ----- what the chains contain -----

  ghost function Flat(pieces: seq<string>): string {
    if pieces == [] then [] else pieces[0] + Flat(pieces[1..])
  }

  lemma {:induction false} FlatSnoc(front: seq<string>, x: string)
    ensures Flat(front + [x]) == Flat(front) + x
    decreases |front|
  {
    if front == [] {
      assert front + [x] == [x] && [x][1..] == [] && x + [] == [] + x;
    } else {
      assert (front + [x])[1..] == front[1..] + [x];
      FlatSnoc(front[1..], x);
      Assoc(front[0], Flat(front[1..]), x);
    }
  }

  /** The last piece grows by one character. */
  lemma FlatGrows(pieces: seq<string>, c: char)
    requires pieces != []
    ensures var n := |pieces| - 1; Flat(pieces[n := pieces[n] + [c]]) == Flat(pieces) + [c]
  {
    var n := |pieces| - 1;
    assert pieces == pieces[..n] + [pieces[n]] && pieces[n := pieces[n] + [c]] == pieces[..n] + [pieces[n] + [c]];
    FlatSnoc(pieces[..n], pieces[n]);
    FlatSnoc(pieces[..n], pieces[n] + [c]);
    Assoc(Flat(pieces[..n]), pieces[n], [c]);
  }

  /** The first piece loses its first character. */
  lemma FlatDrops(pieces: seq<string>)
    requires pieces != [] && pieces[0] != []
    ensures Flat(pieces) != [] && Flat(pieces)[0] == pieces[0][0]
    ensures Flat(pieces[0 := pieces[0][1..]]) == Flat(pieces)[1..]
  {
    DropFirst(pieces[0], Flat(pieces[1..]));
    assert pieces[0 := pieces[0][1..]][1..] == pieces[1..];
  }

  /** A reader who has seen `count` characters is at `offset` characters into piece `i`. */
  ghost predicate Looking(pieces: seq<string>, text: string, count: nat, i: nat, offset: nat) {
    && i < |pieces| && offset <= |pieces[i]| && count <= |text|
    && text[count..] == pieces[i][offset..] + Flat(pieces[i + 1..])
  }

  lemma LookStarts(pieces: seq<string>)
    requires pieces != []
    ensures Looking(pieces, Flat(pieces), 0, 0, 0)
  {
    assert Flat(pieces)[0..] == Flat(pieces) && pieces[0][0..] == pieces[0];
  }

  /** Within a piece the reader sees the next character. */
  lemma LookAt(pieces: seq<string>, text: string, count: nat, i: nat, offset: nat)
    requires Looking(pieces, text, count, i, offset) && offset < |pieces[i]|
    ensures count < |text| && text[count] == pieces[i][offset]
    ensures Looking(pieces, text, count + 1, i, offset + 1)
  {
    DropFirst(pieces[i][offset..], Flat(pieces[i + 1..]));
    assert pieces[i][offset..][1..] == pieces[i][offset + 1..];
    assert text[count..] != [] && text[count..][0] == text[count] && text[count..][1..] == text[count + 1..];
  }

  /** At the end of the last piece the text ends. */
  lemma LookEnds(pieces: seq<string>, text: string, count: nat, i: nat, offset: nat)
    requires Looking(pieces, text, count, i, offset) && offset == |pieces[i]| && i == |pieces| - 1
    ensures count == |text|
  {
    assert pieces[i][offset..] == [] && pieces[i + 1..] == [] && text[count..] == [];
  }

  /** At the end of another piece the next one begins. */
  lemma LookNext(pieces: seq<string>, text: string, count: nat, i: nat, offset: nat)
    requires Looking(pieces, text, count, i, offset) && offset == |pieces[i]| && i + 1 < |pieces|
    ensures Looking(pieces, text, count, i + 1, 0)
  {
    var rest := pieces[i + 1..];
    assert pieces[i][offset..] == [] && rest[1..] == pieces[i + 2..] && rest[0] == pieces[i + 1];
    assert [] + Flat(rest) == Flat(rest) && pieces[i + 1][0..] == pieces[i + 1];
  }

  /** How many characters a read takes: up to `max`, or up to and including the first `stop`. */
  function Taken(t: string, stop: char, max: int): (n: nat)
    ensures n <= |t|
    decreases |t|
  {
    if max <= 0 || t == [] then 0
    else if stop != NUL && t[0] == stop then 1
    else 1 + Taken(t[1..], stop, max - 1)
  }

  /** A read ends behind the first stop character, unless its limit comes first. */
  lemma {:induction false} TakenToStop(t: string, stop: char, max: nat, i: nat)
    requires i <= |t| && i <= max && stop != NUL && forall j | 0 <= j < i :: t[j] != stop
    ensures i == |t| || i == max ==> Taken(t, stop, max) == i
    ensures i < |t| && i < max && t[i] == stop ==> Taken(t, stop, max) == i + 1
    decreases i
  {
    if i > 0 {
      TakenToStop(t[1..], stop, max - 1, i - 1);
    }
  }

  /** A reader has taken `s` out of `t`, `rest` is left, and it has not met its limit yet. */
  ghost predicate Copied(t: string, s: string, rest: string, stop: char, max: int) {
    s + rest == t && Taken(t, stop, max) == |s| + Taken(rest, stop, max - |s|)
  }

  /** The same by position: `count` characters are taken, and the limit is not met yet. */
  ghost predicate Taking(t: string, count: nat, stop: char, max: int) {
    count <= |t| && Taken(t, stop, max) == count + Taken(t[count..], stop, max - count)
  }

  lemma TakingStep(t: string, count: nat, stop: char, max: int)
    requires Taking(t, count, stop, max) && count < |t| && count < max
    ensures t[..count + 1] == t[..count] + [t[count]]
    ensures if stop != NUL && stop == t[count] then Taken(t, stop, max) == count + 1
            else Taking(t, count + 1, stop, max)
  {
    assert t[count..][0] == t[count] && t[count..][1..] == t[count + 1..];
  }

  lemma CopiedStep(t: string, s: string, rest: string, stop: char, max: int)
    requires Copied(t, s, rest, stop, max) && rest != [] && |s| < max
    ensures s + [rest[0]] + rest[1..] == t
    ensures if stop != NUL && stop == rest[0] then Taken(t, stop, max) == |s| + 1
            else Copied(t, s + [rest[0]], rest[1..], stop, max)
  {
    MoveOne(s, rest);
  }

  lemma CopiedAll(t: string, s: string, rest: string, stop: char, max: int)
    requires Copied(t, s, rest, stop, max) && (rest == [] || |s| >= max)
    ensures Taken(t, stop, max) == |s|
  {
  }

  /** The first `count` characters are others. */
  ghost predicate Absent(t: string, count: nat, c: char) {
    count <= |t| && forall j | 0 <= j < count :: t[j] != c
  }

  lemma AbsentMeans(t: string, count: nat, c: char, limit: nat)
    requires Absent(t, count, c) && (count == |t| || count == limit)
    ensures c !in t[..Taken(t, NUL, limit)]
  {
    TakenWithoutStop(t, limit);
  }

  lemma FoundMeans(t: string, count: nat, c: char, limit: nat)
    requires count < |t| && t[count] == c && count < limit
    ensures c in t[..Taken(t, NUL, limit)]
  {
    TakenWithoutStop(t, limit);
    assert t[..Taken(t, NUL, limit)][count] == c;
  }

  lemma MoveOne(s: string, t: string)
    requires t != []
    ensures s + [t[0]] + t[1..] == s + t
  {
  }

  /** Without a stop character the shorter of the two lengths is taken. */
  lemma {:induction false} TakenWithoutStop(t: string, max: int)
    ensures Taken(t, NUL, max) == if max <= 0 then 0 else if max <= |t| then max else |t|
    decreases |t|
  {
    if max > 0 && t != [] {
      TakenWithoutStop(t[1..], max - 1);
    }
  }

  lemma Handover<T>(a: set<T>, b: set<T>, x: T)
    requires x in a
    ensures (a - {x}) + (b + {x}) == a + b
  {
  }

  /** A buffer: its chain of blocks. `text` is what it contains, block by block in `pieces`. */
  class Buffer {
    var chain: seq<Block>
    ghost var text: string
    ghost var pieces: seq<string>
    ghost var blocks: set<Block>
    /** The rank of the first block; the ranks of a chain count up. */
    ghost var base: int

    ghost predicate Valid()
      reads this, blocks
    {
      Chained(false) && text == Flat(pieces)
    }

    /** The blocks of the buffer are those of its chain, each in one place. */
    ghost predicate Holds()
      reads this, blocks
    {
      && |blocks| == |chain| && |pieces| == |chain| && (forall x | x in blocks :: x.owner == this)
      && (forall i | 0 <= i < |chain| :: chain[i] in blocks && chain[i].rank == base + i)
    }

    /** Between storing a character and linking the next block the last block may be full. */
    ghost predicate Chained(full: bool)
      reads this, blocks
    {
      && Holds()
      && (forall i | 0 <= i < |chain| ::
            chain[i].Good(i == 0, i == |chain| - 1 && !full) && chain[i].Live() == pieces[i])
    }

    /** Blocks move between the buffer and the free list; some may come from the heap, none is lost. */
    twostate predicate Exchanged(pool: Pool)
      reads this, pool
    {
      && old(blocks) + old(pool.blocks) <= blocks + pool.blocks
      && fresh(blocks + pool.blocks - old(blocks) - old(pool.blocks))
      && |chain| - pool.nbAlloc == old(|chain| - pool.nbAlloc)
    }

    /** Blocks move from the buffer to the free list, and nowhere else. */
    twostate predicate Returned(pool: Pool)
      reads this, pool
    {
      && blocks + pool.blocks == old(blocks) + old(pool.blocks)
      && |chain| - pool.nbAlloc == old(|chain| - pool.nbAlloc)
    }

    function Last(): Block
      requires chain != []
      reads this
    {
      chain[|chain| - 1]
    }

    constructor ()
      ensures Valid() && chain == [] && text == [] && blocks == {}
    {
      chain, text, pieces, blocks, base := [], [], [], {}, 0;
    }

    /** Store a character in the last block. */
    method PutLast(c: char)
      requires Valid() && chain != []
      modifies this`text, this`pieces, Last()`buf, Last()`offsetWrite
      ensures Chained(Last().offsetWrite == -1) && text == Flat(pieces)
      ensures text == old(text) + [c]
    {
      var last := Last();
      assert last.Good(|chain| == 1, true);
      FlatGrows(pieces, c);
      last.Put(c);
      pieces := pieces[|pieces| - 1 := pieces[|pieces| - 1] + [c]];
      text := text + [c];
    }

    /** Link a fresh block behind the last one. */
    method Grow(pool: Pool)
      requires Chained(chain != []) && pool.Valid() && pool as object != this && text == Flat(pieces)
      modifies this`chain, this`blocks, this`pieces, pool, pool.blocks
      ensures Valid() && pool.Valid() && chain != [] && Exchanged(pool)
    {
      var next := pool.GetBlock(this, base + |chain|);
      assert next !in blocks && Chained(chain != []);
      Link(next);
    }

    method Link(next: Block)
      requires Chained(chain != []) && next !in blocks && next.owner == this && text == Flat(pieces)
      requires next.rank == base + |chain| && next.Good(chain == [], true) && next.Live() == []
      modifies this`chain, this`blocks, this`pieces
      ensures Valid() && chain == old(chain) + [next] && blocks == old(blocks) + {next}
    {
      FlatSnoc(pieces, []);
      assert Flat(pieces) + [] == text;
      chain, pieces, blocks := chain + [next], pieces + [[]], blocks + {next};
    }

    /** One character at the end of a buffer that has a block. */
    method PutChar(pool: Pool, c: char)
      requires Valid() && pool.Valid() && pool as object != this && chain != []
      modifies this, blocks, pool, pool.blocks
      ensures Valid() && pool.Valid() && chain != [] && Exchanged(pool)
      ensures text == old(text) + [c]
    {
      PutLast(c);
      if Last().offsetWrite == -1 {
        Grow(pool);
      }
    }

    /** copy_to_buffer(): append a string; the result is the new length of the contents. */
    method CopyTo(pool: Pool, s: string, length: int) returns (count: int)
      requires Valid() && pool.Valid() && pool as object != this && length <= |s|
      modifies this, blocks, pool, pool.blocks
      ensures Valid() && pool.Valid() && Exchanged(pool)
      ensures length <= 0 ==> count == -1 && text == old(text)
      ensures length > 0 ==> text == old(text) + s[..length] && count == |text|
    {
      if length <= 0 {
        return -1;
      }
      if chain == [] {
        Grow(pool);
      }
      count := Count();
      Store(pool, s, length);
      count := count + length;
    }

    /** The storing loop of copy_to_buffer() */
    method Store(pool: Pool, s: string, length: nat)
      requires Valid() && pool.Valid() && pool as object != this && chain != [] && length <= |s|
      modifies this, blocks, pool, pool.blocks
      ensures Valid() && pool.Valid() && Exchanged(pool) && text == old(text) + s[..length]
    {
      var k := 0;
      while k < length
        invariant 0 <= k <= length && Valid() && pool.Valid() && Exchanged(pool) && chain != []
        invariant text == old(text) + s[..k]
      {
        AppendNext(old(text), s, k);
        PutChar(pool, s[k]);
        k := k + 1;
      }
    }

    /** The walk to the last block in copy_to_buffer(). */
    method Count() returns (count: int)
      requires Valid() && chain != []
      ensures count == |text|
    {
      count := 0;
      var i := 0;
      assert pieces[0..] == pieces;
      while i + 1 < |chain|
        invariant 0 <= i < |chain|
        invariant |text| == count + |Flat(pieces[i..])|
      {
        assert pieces[i..][1..] == pieces[i + 1..] && chain[i].Good(i == 0, false);
        count := count + (BLOCK_SIZE - chain[i].offsetRead);
        i := i + 1;
      }
      assert pieces[i..] == [pieces[i]] && chain[i].Good(i == 0, true) && [pieces[i]][1..] == [];
      count := count + (chain[i].offsetWrite - chain[i].offsetRead);
    }

    /** offset_read == offset_write in the first block is the sign of an empty buffer. */
    lemma HeadIsEmpty()
      requires Valid() && chain != []
      ensures text == [] <==> chain[0].offsetRead == chain[0].offsetWrite
      ensures text == [] ==> |chain| == 1
      ensures text != [] ==> pieces[0] != [] && text[0] == chain[0].buf[chain[0].offsetRead]
    {
      var head := chain[0];
      assert head.Good(true, |chain| == 1);
      if pieces[0] != [] {
        FlatDrops(pieces);
      } else {
        assert |chain| == 1 && pieces[1..] == [] && [] + Flat([]) == [];
      }
    }

    function Head(): Block
      requires chain != []
      reads this
    {
      chain[0]
    }

    /** The first block is done with; the blocks behind it hold the text. */
    ghost predicate HeadDone()
      reads this, blocks
    {
      && chain != [] && Holds() && |chain[0].buf| == BLOCK_SIZE && text == Flat(pieces[1..])
      && (forall i | 1 <= i < |chain| :: chain[i].Good(i == 1, i == |chain| - 1) && chain[i].Live() == pieces[i])
    }

    /** Hand the first block back to the free list. */
    method DropHead(pool: Pool)
      requires pool.Valid() && pool as object != this && HeadDone()
      modifies this`chain, this`blocks, this`pieces, this`base, pool, Head()`owner, Head()`rank
      ensures Valid() && pool.Valid() && chain == old(chain)[1..] && pool.nbAlloc == old(pool.nbAlloc) - 1
      ensures blocks == old(blocks) - {old(Head())} && pool.blocks == old(pool.blocks) + {old(Head())}
      ensures Returned(pool)
    {
      var block := chain[0];
      assert block in blocks;
      Handover(blocks, pool.blocks, block);
      Unlink();
      assert pool.Valid() && block !in blocks;
      pool.ReturnBlock(block);
    }

    method Unlink()
      requires HeadDone()
      modifies this`chain, this`blocks, this`pieces, this`base
      ensures Valid() && chain == old(chain)[1..] && blocks == old(blocks) - {old(Head())}
    {
      var block := chain[0];
      assert block in blocks;
      chain, pieces, blocks, base := chain[1..], pieces[1..], blocks - {block}, base + 1;
    }

    /** Reading the first character; it may be the last one of its block. */
    method ReadHead() returns (c: char, done: bool)
      requires Valid() && text != []
      modifies this`text, this`pieces, Head()`offsetRead
      ensures c == old(text)[0] && text == old(text)[1..]
      ensures if done then HeadDone() && |chain| > 1 else Valid() && chain != []
    {
      HeadIsEmpty();
      FlatDrops(pieces);
      var block := chain[0];
      assert block.Good(true, |chain| == 1);
      c := block.buf[block.offsetRead];
      block.offsetRead := block.offsetRead + 1;
      pieces := pieces[0 := pieces[0][1..]];
      text := text[1..];
      done := block.offsetRead == BLOCK_SIZE;
      if done {
        assert pieces[0] == [] && [] + Flat(pieces[1..]) == Flat(pieces[1..]);
      }
    }

    /** The first character of a buffer that is not empty. */
    method TakeChar(pool: Pool) returns (c: char)
      requires Valid() && pool.Valid() && pool as object != this && text != []
      modifies this, blocks, pool, pool.blocks
      ensures Valid() && pool.Valid() && Returned(pool) && chain != []
      ensures c == old(text)[0] && text == old(text)[1..]
    {
      var done;
      c, done := ReadHead();
      assert pool.Valid();
      if done {
        DropHead(pool);
      }
    }

    /** The first block of an empty buffer goes back to the free list. */
    method DropEmpty(pool: Pool)
      requires Valid() && pool.Valid() && pool as object != this && chain != [] && text == []
      modifies this, blocks, pool, pool.blocks
      ensures Valid() && pool.Valid() && Returned(pool) && chain == [] && text == []
    {
      HeadIsEmpty();
      assert pieces[1..] == [] && chain[0].Good(true, true);
      DropHead(pool);
    }

    /** One step of both reading loops: an empty first block goes back to the free list. */
    method NextChar(pool: Pool) returns (more: bool, c: char)
      requires Valid() && pool.Valid() && pool as object != this && chain != []
      modifies this, blocks, pool, pool.blocks
      ensures Valid() && pool.Valid() && Returned(pool)
      ensures more <==> old(text) != []
      ensures if more then c == old(text)[0] && text == old(text)[1..] && chain != [] else text == [] && chain == []
    {
      HeadIsEmpty();
      more, c := chain[0].offsetRead != chain[0].offsetWrite, NUL;
      if more {
        c := TakeChar(pool);
      } else {
        DropEmpty(pool);
      }
    }

    /** copy_from_buffer(): remove and return the prefix up to `stop` or `max`. */
    method CopyFrom(pool: Pool, stop: char, max: int) returns (count: int, s: string)
      requires Valid() && pool.Valid() && pool as object != this
      modifies this, blocks, pool, pool.blocks
      ensures Valid() && pool.Valid() && Returned(pool)
      ensures old(chain) == [] ==> count == -1 && s == [] && text == old(text)
      ensures old(chain) != [] ==> count == |s| == Taken(old(text), stop, max) && s + text == old(text)
    {
      s := [];
      if chain == [] {
        return -1, s;
      }
      count := 0;
      while count < max && chain != []
        invariant Valid() && pool.Valid() && Returned(pool) && (chain == [] ==> text == [])
        invariant count == |s| && Copied(old(text), s, text, stop, max)
        decreases |text|, chain != []
      {
        ghost var was := text;
        var more, c := NextChar(pool);
        if !more {
          break;
        }
        CopiedStep(old(text), s, was, stop, max);
        count := count + 1;
        s := s + [c];
        if stop != NUL && stop == c {
          return;
        }
      }
      CopiedAll(old(text), s, text, stop, max);
    }

    /** skip_char_in_buffer(): remove the first `n` characters. */
    method Skip(pool: Pool, n: int) returns (count: int)
      requires Valid() && pool.Valid() && pool as object != this && (n > 0 ==> chain != [])
      modifies this, blocks, pool, pool.blocks
      ensures Valid() && pool.Valid() && Returned(pool)
      ensures 0 <= count == Taken(old(text), NUL, n) && text == old(text)[count..]
    {
      count := 0;
      ghost var s := [];
      while count < n
        invariant Valid() && pool.Valid() && Returned(pool) && (count < n ==> chain != [])
        invariant count == |s| && Copied(old(text), s, text, NUL, n)
        decreases |text|, chain != []
      {
        ghost var was := text;
        var more, c := NextChar(pool);
        if !more {
          break;
        }
        CopiedStep(old(text), s, was, NUL, n);
        count := count + 1;
        s := s + [c];
        if chain == [] {
          break;
        }
      }
      CopiedAll(old(text), s, text, NUL, n);
    }

    /** Where a reader of the chain is: `offset` characters into block `i`, which is not at its end
        if it is full. */
    ghost predicate At(count: nat, i: nat, offset: nat)
      reads this, chain
    {
      && Looking(pieces, text, count, i, offset) && i < |chain|
      && chain[i].offsetRead + offset < BLOCK_SIZE
    }

    lemma AtStart()
      requires Valid() && chain != []
      ensures At(0, 0, 0)
    {
      LookStarts(pieces);
      assert chain[0].Good(true, |chain| == 1);
    }

    /** What a reader sees: the end of the text, or its next character. */
    method Peek(ghost count: nat, i: nat, offset: nat) returns (more: bool, c: char)
      requires Valid() && At(count, i, offset)
      ensures count <= |text| && (more <==> count < |text|) && (more ==> c == text[count])
    {
      ghost var good := chain[i].Good(i == 0, i == |chain| - 1);
      more, c := chain[i].offsetRead + offset != chain[i].offsetWrite, NUL;
      if more {
        c := chain[i].buf[chain[i].offsetRead + offset];
        LookAt(pieces, text, count, i, offset);
      } else {
        LookEnds(pieces, text, count, i, offset);
      }
    }

    /** One character on, possibly into the next block. */
    method Advance(ghost count: nat, i: nat, offset: nat) returns (i': nat, offset': nat)
      requires Valid() && At(count, i, offset) && count < |text|
      ensures At(count + 1, i', offset')
    {
      ghost var good := chain[i].Good(i == 0, i == |chain| - 1);
      i', offset' := i, offset + 1;
      if offset == |pieces[i]| {
        LookEnds(pieces, text, count, i, offset);
        assert false;
      }
      LookAt(pieces, text, count, i, offset);
      if chain[i].offsetRead + offset' == BLOCK_SIZE {
        LookNext(pieces, text, count + 1, i, offset');
        i', offset' := i + 1, 0;
        assert chain[i'].Good(false, i' == |chain| - 1);
      }
    }

    /** look_in_buffer(): what copy_from_buffer() would return, with the contents unchanged. */
    method Look(pool: Pool, stop: char, max: int) returns (count: int, s: string)
      requires Valid() && pool.Valid() && pool as object != this
      modifies this, blocks, pool, pool.blocks
      ensures Valid() && pool.Valid() && Returned(pool) && text == old(text)
      ensures text == [] ==> chain == []
      ensures old(chain) == [] ==> count == -1 && s == []
      ensures old(chain) != [] ==> count == Taken(text, stop, max) && s == text[..count]
    {
      s := [];
      if chain == [] {
        return -1, s;
      }
      HeadIsEmpty();
      if chain[0].offsetRead == chain[0].offsetWrite {
        DropEmpty(pool);
      }
      count, s := Scan(stop, max);
    }

    /** The reading loop of look_in_buffer(). */
    method Scan(stop: char, max: int) returns (count: nat, s: string)
      requires Valid()
      ensures count == Taken(text, stop, max) && s == text[..count]
    {
      count, s := 0, [];
      var i: nat, offset: nat := 0, 0;
      if chain == [] {
        return;
      }
      AtStart();
      while count < max
        invariant At(count, i, offset) && s == text[..count] && Taking(text, count, stop, max)
        decreases |text| - count
      {
        var more, c := Peek(count, i, offset);
        if !more {
          break;
        }
        TakingStep(text, count, stop, max);
        i, offset := Advance(count, i, offset);
        count := count + 1;
        s := s + [c];
        if stop != NUL && stop == c {
          return;
        }
      }
    }

    /** How callers peek before they commit: looking and then skipping what was seen is copying. */
    method LookThenSkip(pool: Pool, max: int) returns (count: int, s: string)
      requires Valid() && pool.Valid() && pool as object != this
      modifies this, blocks, pool, pool.blocks
      ensures Valid() && pool.Valid() && Returned(pool)
      ensures old(chain) == [] ==> count == -1 && s == [] && text == old(text)
      ensures old(chain) != [] ==> count == |s| == Taken(old(text), NUL, max) && s + text == old(text)
    {
      count, s := Look(pool, NUL, max);
      ghost var was := text;
      TakenWithoutStop(text, max);
      TakenWithoutStop(text, count);
      var skipped := Skip(pool, count);
      if count >= 0 {
        Rejoin(was, count);
      }
    }

    /** zap_buffer(): give all blocks back. */
    method Zap(pool: Pool)
      requires Valid() && pool.Valid() && pool as object != this
      modifies this, blocks, pool, pool.blocks
      ensures Valid() && pool.Valid() && Returned(pool) && chain == [] && text == []
      ensures pool.blocks == old(pool.blocks) + old(blocks)
    {
      while chain != []
        invariant Valid() && pool.Valid() && Returned(pool)
        decreases |chain|
      {
        ZapHead(pool);
      }
    }

    /** Giving back the first block with everything in it */
    method ZapHead(pool: Pool)
      requires Valid() && pool.Valid() && pool as object != this && chain != []
      modifies this, pool, Head()`owner, Head()`rank
      ensures Valid() && pool.Valid() && Returned(pool) && |chain| == old(|chain|) - 1
    {
      ForgetHead();
      DropHead(pool);
    }

    ghost method ForgetHead()
      requires Valid() && chain != []
      modifies this`text
      ensures HeadDone()
    {
      assert chain[0].Good(true, |chain| == 1);
      text := Flat(pieces[1..]);
    }

    /** find_char_in_buffer(): looks at one character more than `max`, and at least at one. */
    method FindChar(findit: char, max: int) returns (r: int)
      requires Valid()
      ensures r == if findit in text[..Taken(text, NUL, if max <= 0 then 1 else max + 1)] then 1 else 0
    {
      if chain == [] {
        return 0;
      }
      AtStart();
      ghost var limit := if max <= 0 then 1 else max + 1;
      var i: nat, offset: nat, count: nat := 0, 0, 0;
      while true
        invariant At(count, i, offset) && count < limit && Absent(text, count, findit)
        decreases |text| - count
      {
        var more, c := Peek(count, i, offset);
        if !more {
          AbsentMeans(text, count, findit, limit);
          return 0;
        }
        if findit == c {
          FoundMeans(text, count, findit, limit);
          return 1;
        }
        if count + 1 > max {
          AbsentMeans(text, count + 1, findit, limit);
          return 0;
        }
        i, offset := Advance(count, i, offset);
        count := count + 1;
      }
    }
  }
}
