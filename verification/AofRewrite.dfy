/** Rewriting the append only file: the parent's block buffer, the pipe to the child, and the protocol
    that lets the child stop the flow. No byte of the difference is lost, repeated or reordered. */
module AofRewrite {
  import opened Basics

  /** AOF_RW_BUF_BLOCK_SIZE */
  const BLOCK: nat := 1024 * 1024 * 10
  /** The child reads the pipe in pieces of at most this size. */
  const PIECE: nat := 65536
  /** The exclamation mark by which the child asks the parent to stop and the parent agrees. */
  const BANG: byte := 33

  // ---------------------------------------------------------------- a pipe or a file

  /** Something to write to. How much of a write succeeds is up to the system. */
  class Stream {
    var data: bytes
    /** How many writes took nothing, and how many did not take everything. */
    ghost var refusals: nat
    ghost var shorts: nat

    constructor ()
      ensures data == [] && refusals == shorts == 0
    {
      data, refusals, shorts := [], 0, 0;
    }

    method Write(s: bytes) returns (n: int)
      modifies this
      ensures -1 <= n <= |s|
      ensures data == if n > 0 then old(data) + s[..n] else old(data)
      ensures refusals == old(refusals) + if n > 0 then 0 else 1
      ensures shorts == old(shorts) + if n < |s| then 1 else 0
    {
      n :| -1 <= n <= |s|;
      if n > 0 {
        data := data + s[..n];
      } else {
        refusals := refusals + 1;
      }
      if n < |s| {
        shorts := shorts + 1;
      }
    }

    /** A read that does not block: it returns nothing only when there is nothing. */
    method Read(max: nat) returns (s: bytes)
      requires max > 0
      modifies this`data
      ensures s + data == old(data) && |s| <= max && (s == [] <==> old(data) == [])
    {
      s := [];
      if data != [] {
        var n: nat :| 0 < n <= max && n <= |data|;
        s := data[..n];
        data := data[n..];
      }
    }
  }

  // ---------------------------------------------------------------- blocks

  class Block {
    var used: nat
    var free: nat
    const buf: array<byte>

    constructor ()
      ensures Valid() && used == 0 && free == BLOCK && fresh(buf)
    {
      used, free := 0, BLOCK;
      buf := new byte[BLOCK];
    }

    ghost predicate Valid()
      reads this
    {
      buf.Length == BLOCK && used + free <= BLOCK
    }

    ghost function Data(): bytes
      requires Valid()
      reads this, buf
    {
      buf[..used]
    }

    /** Copies as much of `s` as fits behind what is there. */
    method Fill(s: bytes) returns (n: nat)
      requires Valid()
      modifies this, buf
      ensures Valid() && n == (if old(free) < |s| then old(free) else |s|)
      ensures Data() == old(Data()) + s[..n] && free == old(free) - n
    {
      n := if free < |s| then free else |s|;
      forall k | 0 <= k < n {
        buf[used + k] := s[k];
      }
      used, free := used + n, free - n;
    }

    /** Moves what follows the first `n` bytes to the front. The space is not given back. */
    method Drop(n: nat)
      requires Valid() && n <= used
      modifies this, buf
      ensures Valid() && Data() == old(Data())[n..] && free == old(free) && used == old(used) - n
    {
      forall k | 0 <= k < used - n {
        buf[k] := buf[n + k];
      }
      used := used - n;
    }
  }

  // ---------------------------------------------------------------- the parent's buffer

  /** server.aof_rewrite_buf_blocks and server.aof_stop_sending_diff. */
  class RewriteBuffer {
    var blocks: seq<Block>
    var stop: bool

    constructor ()
      ensures Valid() && Contents() == [] && !stop && blocks == []
    {
      blocks, stop := [], false;
    }

    ghost function Repr(): (r: set<object>)
      reads this
      ensures forall i :: 0 <= i < |blocks| ==> blocks[i] in r && blocks[i].buf in r
    {
      assert forall i :: 0 <= i < |blocks| ==> blocks[i] in blocks;
      (set b: Block | b in blocks :: b as object) + (set b: Block | b in blocks :: b.buf as object)
    }

    ghost predicate Valid()
      reads this, Repr()
    {
      && (forall i :: 0 <= i < |blocks| ==> blocks[i].Valid())
      && forall i, j :: 0 <= i < j < |blocks| ==> blocks[i] != blocks[j] && blocks[i].buf != blocks[j].buf
    }

    /** Everything that was appended and not sent yet. */
    ghost function Contents(): bytes
      requires Valid()
      reads this, Repr()
    {
      Flat(Pieces())
    }

    ghost function Pieces(): seq<bytes>
      requires Valid()
      reads this, Repr()
    {
      seq(|blocks|, i requires Valid() && 0 <= i < |blocks| reads this, Repr() => blocks[i].Data())
    }

    /** Appends to the last block what fits there. */
    method FillLast(s: bytes) returns (n: nat)
      requires Valid() && blocks != []
      modifies Repr()
      ensures Valid() && blocks == old(blocks) && n <= |s|
      ensures Contents() == old(Contents()) + s[..n]
      ensures n == |s| || blocks[|blocks| - 1].free == 0
      ensures old(blocks[|blocks| - 1].free) > 0 && s != [] ==> n > 0
    {
      hide Flat;
      ghost var before := Pieces();
      var last := |blocks| - 1;
      n := blocks[last].Fill(s);
      assert Pieces() == before[last := before[last] + s[..n]];
      GrowLast(before, s[..n]);
    }

    method NewBlock()
      requires Valid()
      modifies this`blocks
      ensures Valid() && Contents() == old(Contents())
      ensures |blocks| > 0 && blocks[|blocks| - 1].free == BLOCK
      ensures fresh(Repr() - old(Repr()))
      ensures stop == old(stop)
    {
      hide Flat;
      ghost var before := Pieces();
      var block := new Block();
      blocks := blocks + [block];
      assert Pieces() == before + [[]];
      FlatSnoc(before, []);
      assert Flat(before) + [] == Flat(before);
    }

    ghost function Room(): nat
      requires Valid()
      reads this, Repr()
    {
      if blocks == [] then 0 else blocks[|blocks| - 1].free
    }

    /** One round of the loop of Append: fills the last block and allocates another if that is not enough. */
    method AppendSome(s: bytes) returns (n: nat)
      requires Valid() && s != []
      modifies Repr(), this`blocks
      ensures Valid() && stop == old(stop) && fresh(Repr() - old(Repr()))
      ensures n <= |s| && Contents() == old(Contents()) + s[..n]
      ensures n == |s| || Room() > 0
      ensures old(Room()) > 0 ==> n > 0
    {
      hide Contents;
      n := 0;
      assert Contents() + s[..0] == Contents();
      if blocks != [] {
        n := FillLast(s);
      }
      if n < |s| {
        NewBlock();
      }
    }

    method Append(s: bytes)
      requires Valid()
      modifies Repr(), this`blocks
      ensures Valid() && Contents() == old(Contents()) + s && stop == old(stop)
      ensures fresh(Repr() - old(Repr()))
    {
      hide Contents, Room;
      var rest := s;
      while rest != []
        invariant Valid() && stop == old(stop) && |rest| <= |s|
        invariant Contents() + rest == old(Contents()) + s
        invariant fresh(Repr() - old(Repr()))
        decreases |rest|, if Room() == 0 then 1 else 0
      {
        var n := AppendSome(rest);
        rest := rest[n..];
      }
    }

    /** Sends pieces to the child until it has to wait, has nothing left, or was told to stop. */
    method ChildWriteDiffData(pipe: Stream)
      requires Valid() && pipe !in Repr()
      modifies Repr(), this`blocks, pipe
      ensures Valid() && stop == old(stop) && Repr() <= old(Repr())
      ensures pipe.data + Contents() == old(pipe.data + Contents()) && old(pipe.data) <= pipe.data
      ensures stop ==> pipe.data == old(pipe.data) && Contents() == old(Contents())
      ensures stop || blocks == [] || pipe.refusals == old(pipe.refusals) + 1
    {
      hide Contents;
      while true
        invariant Valid() && stop == old(stop) && Repr() <= old(Repr()) && pipe !in Repr()
        invariant pipe.data + Contents() == old(pipe.data + Contents()) && old(pipe.data) <= pipe.data
        invariant stop ==> pipe.data == old(pipe.data) && Contents() == old(Contents())
        invariant pipe.refusals == old(pipe.refusals)
        decreases |Contents()|, |blocks|
      {
        if stop || blocks == [] {
          return;
        }
        var waits := SendFirst(pipe);
        if waits {
          return;
        }
      }
    }

    /** The first `n` bytes of the first block were sent. */
    method DropFirst(n: nat)
      requires Valid() && blocks != [] && n <= blocks[0].used
      modifies Repr()
      ensures Valid() && blocks == old(blocks) && blocks[0].used == old(blocks[0].used) - n
      ensures n <= old(|Contents()|) && Contents() == old(Contents())[n..]
      ensures old(Contents())[..n] == old(blocks[0].Data())[..n]
    {
      hide Flat;
      ghost var before := Pieces();
      blocks[0].Drop(n);
      assert Pieces() == before[0 := before[0][n..]];
      ShrinkFirst(before, n);
    }

    method RemoveFirst()
      requires Valid() && blocks != [] && blocks[0].used == 0
      modifies this`blocks
      ensures Valid() && blocks == old(blocks)[1..] && Contents() == old(Contents()) && Repr() <= old(Repr())
    {
      hide Flat;
      ghost var before := Pieces();
      blocks := blocks[1..];
      assert Pieces() == before[1..];
      FlatHead(before);
    }

    /** Writes what the first block holds; what was written leaves the block. */
    method SendBytes(pipe: Stream) returns (n: int)
      requires Valid() && pipe !in Repr() && blocks != []
      modifies Repr(), pipe
      ensures Valid() && blocks == old(blocks) && stop == old(stop) && Repr() == old(Repr())
      ensures pipe.data + Contents() == old(pipe.data + Contents()) && old(pipe.data) <= pipe.data
      ensures if n > 0 then |Contents()| < old(|Contents()|) else Contents() == old(Contents())
      ensures pipe.refusals == old(pipe.refusals) + if n > 0 then 0 else 1
    {
      hide Contents;
      n := pipe.Write(blocks[0].buf[..blocks[0].used]);
      if n > 0 {
        DropFirst(n);
      }
    }

    /** One round of that loop: sends from the first block and removes it once it is empty. */
    method SendFirst(pipe: Stream) returns (waits: bool)
      requires Valid() && pipe !in Repr() && blocks != []
      modifies Repr(), this`blocks, pipe
      ensures Valid() && stop == old(stop) && Repr() <= old(Repr())
      ensures pipe.data + Contents() == old(pipe.data + Contents()) && old(pipe.data) <= pipe.data
      ensures |Contents()| <= old(|Contents()|)
      ensures !waits ==> |Contents()| < old(|Contents()|) || |blocks| < old(|blocks|)
      ensures pipe.refusals == old(pipe.refusals) + if waits then 1 else 0
    {
      hide Contents;
      var block := blocks[0];
      if block.used > 0 {
        var n := SendBytes(pipe);
        if n <= 0 {
          return true;
        }
      }
      if block.used == 0 {
        RemoveFirst();
      }
      return false;
    }

    /** The child's '!' arrived: sending stops, and a '!' goes back if the system takes it. */
    method ChildPipeReadable(asks: Stream, answers: Stream) returns (ghost sent: bool)
      requires Valid() && asks !in Repr() && answers !in Repr() && asks != answers
      modifies this`stop, asks, answers
      ensures Valid() && Repr() == old(Repr()) && Contents() == old(Contents())
      ensures asks.data == if old(asks.data) == [] then [] else old(asks.data)[1..]
      ensures stop <==> old(stop) || (old(asks.data) != [] && old(asks.data)[0] == BANG)
      ensures answers.data == if sent then old(answers.data) + [BANG] else old(answers.data)
      ensures sent ==> old(asks.data) != [] && old(asks.data)[0] == BANG
    {
      hide Flat;
      sent := false;
      var byte := asks.Read(1);
      assert asks.data == (byte + asks.data)[|byte|..];
      if byte == [BANG] {
        stop := true;
        var n := answers.Write([BANG]);
        sent := n == 1;
      }
      assert Pieces() == old(Pieces());
    }

    /** Writes everything to `file`, or gives up with -1 at the first write that falls short. */
    method BufferWrite(file: Stream) returns (count: int)
      requires Valid() && file !in Repr()
      modifies file
      ensures Valid() && old(file.data) <= file.data <= old(file.data) + Contents()
      ensures count >= 0 ==> file.data == old(file.data) + Contents() && count == |Contents()|
      ensures count < 0 ==> count == -1
      ensures file.shorts == old(file.shorts) + if count == -1 then 1 else 0
    {
      hide Flat;
      ghost var pieces := Pieces();
      FlatNone();
      count := 0;
      for i := 0 to |blocks|
        invariant Pieces() == pieces && count >= 0 && count == |Flat(pieces[..i])|
        invariant file.data == old(file.data) + Flat(pieces[..i]) && file.shorts == old(file.shorts)
      {
        var block := blocks[i];
        FlatSnoc(pieces[..i], pieces[i]);
        FlatPrefix(pieces, i);
        assert pieces[..i + 1] == pieces[..i] + [pieces[i]];
        if block.used != 0 {
          var n := file.Write(block.buf[..block.used]);
          if n != block.used {
            return -1;
          }
          count := count + n;
        }
      }
      assert pieces[..|blocks|] == pieces;
    }
  }

  function Same(p: bytes): bytes {
    p
  }

  function Flat(pieces: seq<bytes>): bytes {
    FlatMap(Same, pieces)
  }

  lemma FlatNone()
    ensures Flat([]) == []
  {
  }

  lemma FlatHead(pieces: seq<bytes>)
    requires pieces != []
    ensures Flat(pieces) == pieces[0] + Flat(pieces[1..])
  {
  }

  lemma FlatSnoc(pieces: seq<bytes>, p: bytes)
    ensures Flat(pieces + [p]) == Flat(pieces) + p
  {
    FlatMapSnoc(Same, pieces, p);
  }

  lemma FlatPrefix(pieces: seq<bytes>, i: nat)
    requires i < |pieces|
    ensures Flat(pieces[..i]) + pieces[i] <= Flat(pieces)
    ensures forall n :: 0 <= n <= |pieces[i]| ==> Flat(pieces[..i]) + pieces[i][..n] <= Flat(pieces)
  {
    assert pieces[..i + 1] == pieces[..i] + [pieces[i]] && pieces == pieces[..i + 1] + pieces[i + 1..];
    FlatSnoc(pieces[..i], pieces[i]);
    FlatMapSplit(Same, pieces[..i + 1], pieces[i + 1..]);
  }

  lemma GrowLast(pieces: seq<bytes>, more: bytes)
    requires pieces != []
    ensures Flat(pieces[|pieces| - 1 := pieces[|pieces| - 1] + more]) == Flat(pieces) + more
  {
    var init, p := pieces[..|pieces| - 1], pieces[|pieces| - 1];
    FlatSnoc(init, p);
    FlatSnoc(init, p + more);
    assert pieces == init + [p] && pieces[|pieces| - 1 := p + more] == init + [p + more];
  }

  lemma ShrinkFirst(pieces: seq<bytes>, n: nat)
    requires pieces != [] && n <= |pieces[0]|
    ensures Flat(pieces) == pieces[0][..n] + Flat(pieces[0 := pieces[0][n..]])
  {
  }

  /** The child's side: takes everything the pipe holds. */
  method ReadDiffFromParent(pipe: Stream, diff: bytes) returns (r: bytes)
    modifies pipe
    ensures r == diff + old(pipe.data) && pipe.data == []
  {
    r := diff;
    while true
      invariant r + pipe.data == diff + old(pipe.data)
      decreases |pipe.data|
    {
      var s := pipe.Read(PIECE);
      if s == [] {
        return;
      }
      r := r + s;
    }
  }
}
