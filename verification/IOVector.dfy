/** The rope of adb/types.h and adb/types.cpp: a chain of heap blocks read from a lazily advanced front. Every
    operation is proved against the byte string the rope stands for. */
module Rope {
  import opened Bytes

  /** A buffer with a size, a capacity and a read or write position; moved, never copied. `data` is the first `size`
      bytes of the buffer, and `capacity` is 0 if there is no buffer. */
  class Block {
    var data: seq<byte>
    var capacity: nat
    var position: nat

    ghost predicate Valid()
      reads this
    {
      |data| <= capacity
    }

    /** Block(begin, end). */
    constructor (bytes: seq<byte>)
      ensures Valid() && data == bytes && capacity == |bytes| && position == 0
    {
      data, capacity, position := bytes, |bytes|, 0;
    }

    /** Block(Block&&). */
    constructor Move(from: Block)
      requires from.Valid()
      modifies from
      ensures Valid() && data == old(from.data) && capacity == old(from.capacity) && position == old(from.position)
      ensures from.Valid() && from.data == [] && from.capacity == 0 && from.position == 0
    {
      data, capacity, position := from.data, from.capacity, from.position;
      new;
      from.data, from.capacity, from.position := [], 0, 0;
    }

    /** operator=(Block&&): the position restarts at 0, and the source keeps its own. */
    method Assign(from: Block)
      requires from.Valid() && from != this
      modifies this, from`data, from`capacity
      ensures Valid() && data == old(from.data) && capacity == old(from.capacity) && position == 0
      ensures from.Valid() && from.data == [] && from.capacity == 0
    {
      data, capacity, position := from.data, from.capacity, 0;
      from.data, from.capacity := [], 0;
    }

    /** fillFrom: copies what fits from the unread bytes of `from` to this block's position. */
    method FillFrom(from: Block) returns (n: nat)
      requires Valid() && from.Valid() && from != this && position <= |data| && from.position <= |from.data|
      modifies this`data, this`position, from`position
      ensures Valid() && |data| == |old(data)|
      ensures var room, left := |data| - old(position), |from.data| - old(from.position);
        n == if room <= left then room else left
      ensures position == old(position) + n && from.position == old(from.position) + n
      ensures data == old(data)[..old(position)] + from.data[old(from.position)..][..n] + old(data)[position..]
    {
      n := Min(|data| - position, |from.data| - from.position);
      data := data[..position] + from.data[from.position..][..n] + data[position + n..];
      position := position + n;
      from.position := from.position + n;
    }

    method Clear()
      modifies this
      ensures Valid() && data == [] && capacity == 0 && position == 0
    {
      data, capacity, position := [], 0, 0;
    }

    /** resize to no more than the size. */
    method Truncate(newSize: nat)
      requires Valid() && newSize <= |data|
      modifies this`data
      ensures Valid() && data == old(data)[..newSize]
    {
      data := data[..newSize];
    }

    /** memcpy of `bytes` behind the data, within the capacity. */
    method Extend(bytes: seq<byte>)
      requires |data| + |bytes| <= capacity
      modifies this`data
      ensures Valid() && data == old(data) + bytes
    {
      data := data + bytes;
    }

    /** memmove of all but the first `n` bytes to the front, and resize. */
    method ShiftDown(n: nat)
      requires Valid() && n <= |data|
      modifies this`data
      ensures Valid() && data == old(data)[n..]
    {
      data := data[n..];
    }
  }

  /** Distinct, valid and nonempty blocks with the given data. */
  ghost predicate Hold(blocks: seq<Block>, parts: seq<seq<byte>>)
    reads blocks
  {
    && |parts| == |blocks|
    && (forall i | 0 <= i < |blocks| :: blocks[i].Valid() && blocks[i].data == parts[i])
    && (forall i | 0 <= i < |parts| :: parts[i] != [])
    && (forall i, j | 0 <= i < j < |blocks| :: blocks[i] != blocks[j])
  }

  /** How many of the first `len` bytes lie in blocks that are dropped whole. */
  ghost function WholeBlocks(parts: seq<seq<byte>>, begin: nat, len: nat): nat {
    if parts == [] || begin > |parts[0]| || |parts[0]| - begin > len then 0
    else |parts[0]| - begin + WholeBlocks(parts[1..], 0, len - (|parts[0]| - begin))
  }

  ghost function Total(parts: seq<seq<byte>>): nat {
    if parts == [] then 0 else |parts[0]| + Total(parts[1..])
  }

  lemma {:induction false} TotalIsLength(parts: seq<seq<byte>>)
    ensures |Flatten(parts)| == Total(parts)
    ensures parts != [] ==> Total(parts) >= |parts[0]|
  {
    if parts != [] {
      TotalIsLength(parts[1..]);
    }
  }

  /** The bytes of a chain of blocks from an offset into the first one on. */
  ghost function Remaining(parts: seq<seq<byte>>, begin: nat): seq<byte>
    requires if parts == [] then begin == 0 else begin <= |parts[0]|
  {
    Flatten(parts)[begin..]
  }

  lemma RemainingSnoc(parts: seq<seq<byte>>, begin: nat, p: seq<byte>)
    requires if parts == [] then begin == 0 else begin <= |parts[0]|
    ensures Remaining(parts + [p], begin) == Remaining(parts, begin) + p
  {
    FlattenSnoc(parts, p);
    TotalIsLength(parts);
  }

  lemma RemainingTail(parts: seq<seq<byte>>, begin: nat)
    requires parts != [] && begin <= |parts[0]|
    ensures Remaining(parts, begin) == parts[0][begin..] + Flatten(parts[1..])
    ensures |parts| == 1 ==> Remaining(parts, begin) == parts[0][begin..]
  {
  }

  lemma Regroup(s: seq<byte>, i: nat, n: nat)
    requires i + n <= |s|
    ensures s[..i] + s[i..][..n] == s[..i + n] && s[i..][n..] == s[i + n..]
  {
  }

  /** The first `n` blocks, without the front offset. */
  ghost function Pieces(parts: seq<seq<byte>>, begin: nat, n: nat): seq<seq<byte>>
    requires n <= |parts| && (parts != [] ==> begin <= |parts[0]|)
  {
    if n == 0 then [] else [parts[0][begin..]] + parts[1..n]
  }

  lemma PiecesNext(parts: seq<seq<byte>>, begin: nat, n: nat)
    requires n < |parts| && begin <= |parts[0]|
    ensures Pieces(parts, begin, n + 1) == Pieces(parts, begin, n) + [if n == 0 then parts[0][begin..] else parts[n]]
  {
    if n == 0 {
      assert parts[1..1] == [];
    } else {
      assert parts[1..n + 1] == parts[1..n] + [parts[n]];
      ConcatAssociates([parts[0][begin..]], parts[1..n], [parts[n]]);
    }
  }

  lemma PiecesAll(parts: seq<seq<byte>>, begin: nat)
    requires parts != [] && begin < |parts[0]| && (forall i | 0 <= i < |parts| :: parts[i] != [])
    ensures var v := Pieces(parts, begin, |parts|);
      && v == [parts[0][begin..]] + parts[1..] && Flatten(v) == Remaining(parts, begin)
      && forall i | 0 <= i < |v| :: v[i] != []
  {
    var first, rest := parts[0][begin..], parts[1..];
    RemainingTail(parts, begin);
    assert parts[1..|parts|] == rest;
    assert ([first] + rest)[1..] == rest;
  }

  lemma Nonempty(parts: seq<seq<byte>>, begin: nat)
    requires if parts == [] then begin == 0 else begin <= |parts[0]|
    ensures Remaining(parts, begin) != [] ==> parts != []
  {
  }

  /** The loop of take_front: the blocks and offset that stay, the bytes still to take, and the bytes taken. */
  ghost function TakeLoop(parts: seq<seq<byte>>, begin: nat, left: nat, taken: seq<byte>)
    : (seq<seq<byte>>, nat, nat, seq<byte>)
  {
    if parts == [] || begin > |parts[0]| || |parts[0]| - begin > left then (parts, begin, left, taken)
    else TakeLoop(parts[1..], 0, left - (|parts[0]| - begin), taken + parts[0][begin..])
  }

  lemma TakeLoopStops(parts: seq<seq<byte>>, begin: nat, left: nat, taken: seq<byte>)
    requires parts != [] && left < |parts[0]| - begin
    ensures TakeLoop(parts, begin, left, taken) == (parts, begin, left, taken)
  {
  }

  lemma TakeLoopGoesOn(parts: seq<seq<byte>>, begin: nat, left: nat, taken: seq<byte>)
    requires parts != [] && begin <= |parts[0]| && |parts[0]| - begin <= left
    requires TakeLoop(parts, begin, left, taken).0 != []
    ensures |parts| >= 2
    ensures TakeLoop(parts, begin, left, taken)
         == TakeLoop(parts[1..], 0, left - (|parts[0]| - begin), taken + parts[0][begin..])
  {
  }

  lemma Slices(a: seq<byte>, b: seq<byte>, n: nat)
    requires n <= |b|
    ensures (a + b)[..|a| + n] == a + b[..n] && (a + b)[|a| + n..] == b[n..]
  {
  }

  lemma {:induction false} TakeLoopCorrect(parts: seq<seq<byte>>, begin: nat, left: nat, taken: seq<byte>)
    requires parts != [] && begin < |parts[0]| && (forall i | 0 <= i < |parts| :: parts[i] != [])
    requires left < |Remaining(parts, begin)|
    ensures var (parts', begin', left', taken') := TakeLoop(parts, begin, left, taken);
      && parts' != [] && left' < |parts'[0]| - begin' && left' <= left
      && taken' == taken + Remaining(parts, begin)[..left - left']
      && Remaining(parts', begin') == Remaining(parts, begin)[left - left'..]
  {
    RemainingTail(parts, begin);
    var first, rest := parts[0][begin..], Flatten(parts[1..]);
    if |first| > left {
      TakeLoopStops(parts, begin, left, taken);
    } else {
      TakeLoopCorrect(parts[1..], 0, left - |first|, taken + first);
      var left' := TakeLoop(parts, begin, left, taken).2;
      var n := left - |first| - left';
      Slices(first, rest, n);
      ConcatAssociates(taken, first, rest[..n]);
    }
  }

  lemma TakeLoopMeets(parts: seq<seq<byte>>, begin: nat, len: nat)
    requires parts != [] && begin < |parts[0]| && (forall i | 0 <= i < |parts| :: parts[i] != [])
    requires len < |Remaining(parts, begin)|
    ensures var (parts', begin', left, taken) := TakeLoop(parts, begin, len, []);
      && parts' != [] && left < |parts'[0]| - begin' && left <= len
      && taken == Remaining(parts, begin)[..len - left]
      && Remaining(parts', begin') == Remaining(parts, begin)[len - left..]
  {
    TakeLoopCorrect(parts, begin, len, []);
  }

  /** What splitting the front block `len` bytes after the front offset does. */
  lemma SplitStep(parts: seq<seq<byte>>, begin: nat, len: nat)
    requires parts != [] && begin + len <= |parts[0]|
    ensures len <= |Remaining(parts, begin)|
    ensures Remaining(parts, begin + len) == Remaining(parts, begin)[len..]
    ensures parts[0][begin..][..len] == Remaining(parts, begin)[..len]
    ensures begin == 0 ==> Remaining([parts[0][len..]] + parts[1..], 0) == Remaining(parts, 0)[len..]
  {
    RemainingTail(parts, begin);
    RemainingTail(parts, begin + len);
    RemainingTail([parts[0][len..]] + parts[1..], 0);
  }

  /** The loop of drop_front on the blocks that are left, with `dropped` the unsigned int that counts the bytes dropped
      so far. None if it runs past the last block. */
  ghost function DropLoop(parts: seq<seq<byte>>, begin: nat, len: nat, dropped: nat): Option<(seq<seq<byte>>, nat)> {
    if dropped >= len then Some((parts, begin))
    else if parts == [] || begin > |parts[0]| then None
    else
      var next := |parts[0]| - begin;
      if dropped + next <= len then
        if |parts| == 1 then None else DropLoop(parts[1..], 0, len, AsUint32(dropped + next))
      else Some((parts, begin + (len - dropped)))
  }

  lemma DropLoopStep(parts: seq<seq<byte>>, begin: nat, len: nat, dropped: nat)
    requires parts != [] && begin < |parts[0]| && dropped < len
    ensures var next := |parts[0]| - begin;
      DropLoop(parts, begin, len, dropped)
      == if dropped + next > len then Some((parts, begin + (len - dropped)))
         else if |parts| == 1 then None
         else DropLoop(parts[1..], 0, len, AsUint32(dropped + next))
  {
  }

  lemma {:induction false} DropLoopCorrect(parts: seq<seq<byte>>, begin: nat, len: nat, dropped: nat)
    requires parts != [] && begin < |parts[0]| && (forall i | 0 <= i < |parts| :: parts[i] != [])
    requires dropped <= len && len - dropped < |Remaining(parts, begin)|
    requires dropped + WholeBlocks(parts, begin, len - dropped) < 0x1_0000_0000
    ensures var last := DropLoop(parts, begin, len, dropped);
      && last.Some? && last.value.0 != [] && last.value.1 < |last.value.0[0]|
      && Remaining(last.value.0, last.value.1) == Remaining(parts, begin)[len - dropped..]
  {
    RemainingTail(parts, begin);
    if dropped < len {
      DropLoopStep(parts, begin, len, dropped);
      var first := parts[0][begin..];
      if dropped + |first| <= len {
        DropLoopCorrect(parts[1..], 0, len, dropped + |first|);
        Slices(first, Flatten(parts[1..]), len - dropped - |first|);
      }
    }
  }

  lemma DropLoopMeets(parts: seq<seq<byte>>, begin: nat, len: nat)
    requires parts != [] && begin < |parts[0]| && (forall i | 0 <= i < |parts| :: parts[i] != [])
    requires len < |Remaining(parts, begin)|
    ensures WholeBlocks(parts, begin, len) < 0x1_0000_0000 ==>
              var last := DropLoop(parts, begin, len, 0);
              && last.Some? && last.value.0 != [] && last.value.1 < |last.value.0[0]|
              && Remaining(last.value.0, last.value.1) == Remaining(parts, begin)[len..]
  {
    if WholeBlocks(parts, begin, len) < 0x1_0000_0000 {
      DropLoopCorrect(parts, begin, len, 0);
    }
  }

  lemma {:induction false} TotalSnoc(parts: seq<seq<byte>>, p: seq<byte>)
    ensures Total(parts + [p]) == Total(parts) + |p|
  {
    if parts != [] {
      TotalSnoc(parts[1..], p);
      assert (parts + [p])[1..] == parts[1..] + [p];
    }
  }

  class IOVector {
    var chain: seq<Block>
    var chainLength: nat
    var beginOffset: nat
    var startIndex: nat
    ghost var live: seq<Block>       // the blocks from startIndex on
    ghost var parts: seq<seq<byte>>  // what they hold
    ghost var Repr: set<object>

    ghost predicate Laid()
      requires this in Repr
      reads this, Repr
    {
      && startIndex <= |chain| && live == chain[startIndex..]
      && (forall i | 0 <= i < |live| :: live[i] in Repr)
      && Hold(live, parts)
      && chainLength == Total(parts)
      && (chain == [] ==> startIndex == 0 && beginOffset == 0)
      && (chain != [] ==> startIndex < |chain| && beginOffset < |parts[0]|)
    }

    ghost predicate Valid()
      reads this, Repr
      ensures Valid() ==> this in Repr
    {
      this in Repr && Laid()
    }

    /** The bytes the rope stands for. */
    ghost function Contents(): seq<byte>
      requires Valid()
      reads this, Repr
    {
      Remaining(parts, beginOffset)
    }

    constructor ()
      ensures Valid() && fresh(Repr) && Contents() == []
    {
      chain, chainLength, beginOffset, startIndex := [], 0, 0, 0;
      live, parts, Repr := [], [], {this};
    }

    function Size(): (n: nat)
      requires Valid()
      reads this, Repr
      ensures n == |Contents()|
    {
      TotalIsLength(parts);
      chainLength - beginOffset
    }

    /** clear(): the last block is handed back for reuse. */
    method Clear() returns (last: Block?)
      requires Valid()
      modifies this`chain, this`chainLength, this`beginOffset, this`startIndex, this`live, this`parts, this`Repr
      ensures Valid() && Repr == {this} && Contents() == []
      ensures last == if old(chain) == [] then null else old(chain)[|old(chain)| - 1]
    {
      chainLength, beginOffset, startIndex := 0, 0, 0;
      last := if chain == [] then null else chain[|chain| - 1];
      chain := [];
      live, parts, Repr := [], [], {this};
    }

    /** Puts a nonempty block of this rope's own at the end of the chain. */
    method PushBack(block: Block)
      requires Valid() && block.Valid() && block.data != [] && block !in Repr
      modifies this`chain, this`chainLength, this`live, this`parts, this`Repr
      ensures Valid() && Repr == old(Repr) + {block}
      ensures parts == old(parts) + [block.data]
    {
      TotalSnoc(parts, block.data);
      chainLength := chainLength + |block.data|;
      assert (chain + [block])[startIndex..] == chain[startIndex..] + [block];
      chain, live, parts := chain + [block], live + [block], parts + [block.data];
      Repr := Repr + {block};
    }

    /** append(Block&&). An empty block is left alone. */
    method Append(block: Block)
      requires Valid() && block.Valid() && block !in Repr
      modifies this`chain, this`chainLength, this`live, this`parts, this`Repr, block
      ensures Valid() && Contents() == old(Contents()) + old(block.data)
      ensures fresh(Repr - old(Repr))
      ensures old(|block.data|) != 0 ==> parts == old(parts) + [old(block.data)]
      ensures old(|block.data|) == 0 ==> parts == old(parts)
    {
      if |block.data| == 0 {
        return;
      }
      var moved := new Block.Move(block);
      RemainingSnoc(parts, beginOffset, moved.data);
      PushBack(moved);
    }

    lemma Front()
      requires Valid() && parts != []
      ensures startIndex < |chain| && chain[startIndex] == live[0]
      ensures |chain[startIndex].data| == |parts[0]| && beginOffset < |parts[0]|
    {
    }

    method TrimChainFront()
      requires Valid()
      modifies this`chain, this`startIndex
      ensures Valid() && startIndex == 0
    {
      if startIndex != 0 {
        chain := chain[startIndex..];
        startIndex := 0;
      }
    }

    /** Leaves the front block of several behind; what it holds does not matter any more. */
    method NextBlock()
      requires Valid() && |parts| >= 2
      modifies this`chainLength, this`beginOffset, this`startIndex, this`live, this`parts, this`Repr
      ensures Valid() && parts == old(parts)[1..] && live == old(live)[1..] && beginOffset == 0
      ensures Repr == old(Repr) - {old(live)[0]}
    {
      Repr := Repr - {live[0]};
      assert chain[startIndex + 1..] == chain[startIndex..][1..];
      assert live[0] == chain[startIndex];
      chainLength := chainLength - |chain[startIndex].data|;
      beginOffset := 0;
      startIndex := startIndex + 1;
      live, parts := live[1..], parts[1..];
    }

    /** Drops the front block of several. */
    method PopFrontBlock()
      requires Valid() && |parts| >= 2
      modifies this`chain, this`chainLength, this`beginOffset, this`startIndex, this`live, this`parts,
        this`Repr, live[0]
      ensures Valid() && parts == old(parts)[1..] && beginOffset == 0 && Repr <= old(Repr)
    {
      var front := chain[startIndex];
      assert front == live[0];
      NextBlock();
      front.Clear();
      if startIndex > Max(4, |chain| / 2) {
        TrimChainFront();
      }
    }

    /** Moves the front offset within its block. */
    method SkipFront(n: nat)
      requires Valid() && parts != [] && beginOffset + n < |parts[0]|
      modifies this`beginOffset
      ensures Valid() && beginOffset == old(beginOffset) + n
    {
      beginOffset := beginOffset + n;
    }

    /** One round of drop_front's loop, unless it would run past the last block. */
    method DropRound(len: nat, dropped: nat) returns (ok: bool, dropped': nat)
      requires Valid() && parts != [] && dropped < len
      modifies this, Repr
      ensures Valid() && Repr <= old(Repr) && parts != [] && dropped' <= len
      ensures ok <==> |old(parts[0])| - old(beginOffset) > len - dropped || |old(parts)| > 1
      ensures ok ==> DropLoop(parts, beginOffset, len, dropped') == DropLoop(old(parts), old(beginOffset), len, dropped)
      ensures ok ==> |parts| < |old(parts)| || (dropped' == len && |parts| == |old(parts)|)
      ensures !ok ==> DropLoop(old(parts), old(beginOffset), len, dropped) == None
    {
      Front();
      DropLoopStep(parts, beginOffset, len, dropped);
      var next: nat := |chain[startIndex].data| - beginOffset;
      if dropped + next > len {
        SkipFront(len - dropped);
        return true, len;
      }
      if startIndex + 1 == |chain| {
        return false, dropped;
      }
      PopFrontBlock();
      return true, AsUint32(dropped + next);
    }

    /** The loop of drop_front. */
    method DropBlocks(len: nat) returns (ok: bool)
      requires Valid() && parts != []
      modifies this, Repr
      ensures Valid() && Repr <= old(Repr)
      ensures var last := DropLoop(old(parts), old(beginOffset), len, 0);
        ok == last.Some? && (ok ==> last == Some((parts, beginOffset)))
    {
      ghost var last := DropLoop(parts, beginOffset, len, 0);
      var dropped: nat := 0;
      ok := true;
      while dropped < len
        invariant Valid() == true && Repr <= old(Repr) && parts != []
        invariant ok && DropLoop(parts, beginOffset, len, dropped) == last
        decreases |parts|, len - dropped
      {
        ok, dropped := DropRound(len, dropped);
        if !ok {
          return;
        }
      }
    }

    /** drop_front. It fails if the loop runs past the last block, which it does only if the counter wraps. */
    method DropFront(len: nat) returns (ok: bool)
      requires Valid() && len <= Size()
      modifies this, Repr
      ensures Valid() && Repr <= old(Repr)
      ensures old(WholeBlocks(parts, beginOffset, len)) < 0x1_0000_0000 || len == old(Size()) ==>
                ok && Contents() == old(Contents())[len..]
      ensures 0 < len < old(Size()) ==>
                var last := old(DropLoop(parts, beginOffset, len, 0));
                ok == last.Some? && (ok ==> last == Some((parts, beginOffset)))
    {
      if len == 0 {
        return true;
      }
      if len == Size() {
        var _ := Clear();
        return true;
      }
      Nonempty(parts, beginOffset);
      DropLoopMeets(parts, beginOffset, len);
      ok := DropBlocks(len);
    }

    /** One round of take_front's loop: the front block goes to `res` as it is, with the front offset. */
    method MoveFrontBlock(res: IOVector)
      requires Valid() && |parts| >= 2 && res.Valid() && res.Repr !! Repr
      requires beginOffset == 0 || res.parts == []
      modifies this`chainLength, this`beginOffset, this`startIndex, this`live, this`parts, this`Repr, live[0],
        res`chain, res`chainLength, res`beginOffset, res`live, res`parts, res`Repr
      ensures Valid() && parts == old(parts)[1..] && beginOffset == 0 && Repr <= old(Repr)
      ensures res.Valid() && res.Repr !! Repr && res.parts != []
      ensures res.Contents() == old(res.Contents()) + old(parts[0][beginOffset..])
      ensures fresh(res.Repr - old(res.Repr))
    {
      var front, skipped := chain[startIndex], beginOffset;
      assert front == live[0] && front.data == parts[0];
      NextBlock();
      res.AppendBehind(front, skipped);
    }

    /** Appends a block without its first bytes, which only the first block of a rope may lack. */
    method AppendBehind(block: Block, skipped: nat)
      requires Valid() && block.Valid() && skipped < |block.data| && block !in Repr && (skipped == 0 || parts == [])
      modifies this`chain, this`chainLength, this`beginOffset, this`live, this`parts, this`Repr, block
      ensures Valid() && Contents() == old(Contents()) + old(block.data)[skipped..]
      ensures fresh(Repr - old(Repr)) && parts != []
    {
      Append(block);
      if skipped != 0 {
        FlattenOne(parts[0]);
        SkipFront(skipped);
      }
    }

    /** Moves the front block's buffer out and `tail`'s in. */
    method SwapFront(tail: Block) returns (head: Block)
      requires Valid() && parts != [] && beginOffset == 0
      requires tail.Valid() && tail.data != [] && tail !in Repr
      modifies this`chainLength, this`parts, this`Repr, live[0], tail
      ensures Valid() && parts == [old(tail.data)] + old(parts)[1..]
      ensures Repr == old(Repr)
      ensures fresh(head) && head.Valid() && head.data == old(parts[0])
    {
      var front := chain[startIndex];
      assert front == live[0] && front.data == parts[0];
      chainLength := chainLength - |front.data| + |tail.data|;
      parts := [tail.data] + parts[1..];
      head := new Block.Move(front);
      front.Assign(tail);
    }

    /** Splits the front block: its own buffer goes out with the first `len` bytes, a copy of the rest stays. */
    method CutFront(len: nat) returns (head: Block)
      requires Valid() && parts != [] && 0 < len < |parts[0]| && beginOffset == 0
      modifies this`chainLength, this`parts, this`Repr, live[0]
      ensures Valid() && parts == [old(parts)[0][len..]] + old(parts)[1..]
      ensures fresh(head) && head.Valid() && head.data == old(parts)[0][..len]
      ensures Repr == old(Repr)
    {
      var front := chain[startIndex];
      assert front == live[0] && front.data == parts[0];
      var tail := new Block(front.data[len..]);
      assert tail.data == parts[0][len..];
      head := SwapFront(tail);
      head.Truncate(len);
    }

    method CopyFront(len: nat, res: IOVector)
      requires Valid() && parts != [] && 0 < len < |parts[0]| - beginOffset && res.Valid() && res.Repr !! Repr
      modifies this`beginOffset, res`chain, res`chainLength, res`beginOffset, res`live, res`parts, res`Repr
      ensures Valid() && res.Valid() && res.Repr !! Repr && beginOffset == old(beginOffset) + len
      ensures res.Contents() == old(res.Contents()) + parts[0][old(beginOffset)..][..len]
      ensures fresh(res.Repr - old(res.Repr))
    {
      var front := chain[startIndex];
      assert front == live[0];
      var block := new Block(front.data[beginOffset..beginOffset + len]);
      assert block.data == parts[0][beginOffset..][..len];
      res.Append(block);
      SkipFront(len);
    }

    method MoveFront(len: nat, res: IOVector)
      requires Valid() && parts != [] && 0 < len < |parts[0]| && beginOffset == 0 && res.Valid() && res.Repr !! Repr
      modifies this`chainLength, this`parts, this`Repr, live[0],
        res`chain, res`chainLength, res`live, res`parts, res`Repr
      ensures Valid() && res.Valid() && res.Repr !! Repr && Repr == old(Repr)
      ensures parts == [old(parts)[0][len..]] + old(parts)[1..]
      ensures res.Contents() == old(res.Contents()) + old(parts)[0][..len]
      ensures fresh(res.Repr - old(res.Repr))
    {
      var head := CutFront(len);
      res.Append(head);
    }

    /** The end of take_front: the first `len` bytes of the front block go to `res`, by a copy or by a move. */
    method SplitFront(len: nat, res: IOVector)
      requires Valid() && parts != [] && 0 < len < |parts[0]| - beginOffset && res.Valid() && res.Repr !! Repr
      modifies this`chainLength, this`beginOffset, this`parts, this`Repr, live[0],
        res`chain, res`chainLength, res`beginOffset, res`live, res`parts, res`Repr
      ensures Valid() && res.Valid() && res.Repr !! Repr
      ensures Contents() == old(Contents())[len..]
      ensures res.Contents() == old(res.Contents()) + old(Contents())[..len]
      ensures fresh(Repr - old(Repr)) && fresh(res.Repr - old(res.Repr))
    {
      SplitStep(parts, beginOffset, len);
      Front();
      var front := chain[startIndex];
      if beginOffset != 0 || len < |front.data| / 2 {
        CopyFront(len, res);
      } else {
        MoveFront(len, res);
      }
    }

    method Adopt(other: IOVector)
      requires other.Valid() && this !in other.Repr
      modifies this
      ensures Valid() && parts == other.parts && beginOffset == other.beginOffset
      ensures other.Valid() && Repr == other.Repr - {other} + {this}
    {
      chain, chainLength := other.chain, other.chainLength;
      beginOffset, startIndex := other.beginOffset, other.startIndex;
      live, parts, Repr := other.live, other.parts, other.Repr - {other} + {this};
    }

    /** operator=(IOVector&&). */
    method MoveFrom(other: IOVector)
      requires other.Valid() && this !in other.Repr
      modifies this, other
      ensures Valid() && Contents() == old(other.Contents())
      ensures other.Valid() && other.Contents() == [] && other.Repr == {other}
      ensures Repr == old(other.Repr) - {other} + {this}
    {
      Adopt(other);
      var _ := other.Clear();
    }

    method TakeBlock(res: IOVector, left: nat, ghost last: (seq<seq<byte>>, nat, nat, seq<byte>)) returns (left': nat)
      requires Valid() && res.Valid() && res.Repr !! Repr && parts != [] && (beginOffset == 0 || res.parts == [])
      requires startIndex < |chain| && |chain[startIndex].data| - beginOffset <= left
      requires TakeLoop(parts, beginOffset, left, res.Contents()) == last && last.0 != []
      modifies this`chainLength, this`beginOffset, this`startIndex, this`live, this`parts, this`Repr, live[0],
        res`chain, res`chainLength, res`beginOffset, res`live, res`parts, res`Repr
      ensures Valid() && res.Valid() && fresh(res.Repr - old(res.Repr)) && Repr <= old(Repr)
      ensures |parts| == old(|parts|) - 1 && parts != [] && beginOffset == 0
      ensures TakeLoop(parts, beginOffset, left', res.Contents()) == last
    {
      Front();
      TakeLoopGoesOn(parts, beginOffset, left, res.Contents());
      left' := left - (|chain[startIndex].data| - beginOffset);
      MoveFrontBlock(res);
    }

    method MoveBlocks(len: nat) returns (res: IOVector, left: nat)
      requires Valid() && parts != [] && TakeLoop(parts, beginOffset, len, []).0 != []
      modifies this, Repr
      ensures Valid() && res.Valid() && fresh(res.Repr) && Repr <= old(Repr)
      ensures (parts, beginOffset, left, res.Contents()) == old(TakeLoop(parts, beginOffset, len, []))
    {
      ghost var last := TakeLoop(parts, beginOffset, len, []);
      res := new IOVector();
      left := len;
      Front();
      while |chain[startIndex].data| - beginOffset <= left
        invariant Valid() == true && res.Valid() == true && fresh(res.Repr) && Repr <= old(Repr)
        invariant parts != [] && startIndex < |chain| && (beginOffset == 0 || res.parts == [])
        invariant TakeLoop(parts, beginOffset, left, res.Contents()) == last
        decreases |parts|
      {
        assert res.Repr !! Repr;
        left := TakeBlock(res, left, last);
        Front();
      }
      Front();
      TakeLoopStops(parts, beginOffset, left, res.Contents());
    }

    /** take_front's loop: moves the blocks that lie wholly in the first `len` bytes to a new rope. */
    method TakeBlocks(len: nat) returns (res: IOVector, left: nat)
      requires Valid() && parts != [] && len < |Contents()|
      modifies this, Repr
      ensures Valid() && res.Valid() && fresh(res.Repr) && Repr <= old(Repr)
      ensures parts != [] && left < |parts[0]| - beginOffset
      ensures left <= len && res.Contents() == old(Contents())[..len - left]
      ensures Contents() == old(Contents())[len - left..]
    {
      TakeLoopMeets(parts, beginOffset, len);
      res, left := MoveBlocks(len);
    }

    /** The end of taking bytes from `was`: all but the last `left` of the `len` bytes are in `res`. */
    method TakeRest(len: nat, left: nat, res: IOVector, ghost was: seq<byte>)
      requires Valid() && parts != [] && left < |parts[0]| - beginOffset && res.Valid() && res.Repr !! Repr
      requires left <= len <= |was| && res.Contents() == was[..len - left] && Contents() == was[len - left..]
      modifies this`chainLength, this`beginOffset, this`parts, this`Repr, live[0],
        res`chain, res`chainLength, res`beginOffset, res`live, res`parts, res`Repr
      ensures Valid() && res.Valid() && res.Repr !! Repr
      ensures res.Contents() == was[..len] && Contents() == was[len..]
      ensures fresh(Repr - old(Repr)) && fresh(res.Repr - old(res.Repr))
    {
      Regroup(was, len - left, left);
      if left > 0 {
        SplitFront(left, res);
      }
    }

    /** take_front of some but not all bytes. */
    method TakePart(len: nat) returns (res: IOVector)
      requires Valid() && parts != [] && len < |Contents()|
      modifies this, Repr
      ensures Valid() && res.Valid() && fresh(res.Repr) && res in res.Repr && res != this && res.Repr !! Repr
      ensures fresh(Repr - old(Repr))
      ensures res.Contents() == old(Contents())[..len]
      ensures Contents() == old(Contents())[len..]
    {
      ghost var was := Contents();
      var left;
      res, left := TakeBlocks(len);
      TakeRest(len, left, res, was);
    }

    /** take_front. */
    method TakeFront(len: nat) returns (res: IOVector)
      requires Valid() && len <= Size()
      modifies this, Repr
      ensures Valid() && res.Valid() && fresh(res) && res.Repr !! Repr
      ensures fresh(Repr - old(Repr)) && fresh(res.Repr - old(Repr))
      ensures res.Contents() == old(Contents())[..len]
      ensures Contents() == old(Contents())[len..]
    {
      if len == 0 {
        res := new IOVector();
      } else if len == Size() {
        res := new IOVector();
        res.MoveFrom(this);
        assert old(Contents())[..len] == old(Contents()) && old(Contents())[len..] == [];
      } else {
        Nonempty(parts, beginOffset);
        res := TakePart(len);
      }
    }

    /** Gives the bytes before the front offset back. */
    method TrimFirst()
      requires Valid() && chain != []
      modifies this`chainLength, this`beginOffset, this`parts, live[0]
      ensures Valid() && Contents() == old(Contents()) && beginOffset == 0
    {
      var first := chain[startIndex];
      if beginOffset == |first.data| {
        assert false;  // the offset lies inside the front block
      } else {
        first.ShiftDown(beginOffset);
      }
      RemainingTail(parts, beginOffset);
      chainLength := chainLength - beginOffset;
      parts := [parts[0][beginOffset..]] + parts[1..];
      beginOffset := 0;
    }

    /** trim_front: gives the skipped front bytes back, without changing the contents. */
    method TrimFront()
      requires Valid()
      modifies this, Repr
      ensures Valid() && Repr == old(Repr)
      ensures Contents() == old(Contents())
      ensures beginOffset == 0 && startIndex == 0
    {
      if (beginOffset == 0 && startIndex == 0) || chain == [] {
        return;
      }
      TrimFirst();
      TrimChainFront();
    }

    /** iovecs: the blocks as iterate_blocks presents them. */
    method Iovecs() returns (v: seq<seq<byte>>)
      requires Valid()
      ensures Flatten(v) == Contents() && (forall i | 0 <= i < |v| :: v[i] != [])
      ensures v == if Contents() == [] then [] else [parts[0][beginOffset..]] + parts[1..]
    {
      v := [];
      if Size() == 0 {
        assert parts == [] by {
          TotalIsLength(parts);
        }
        return;
      }
      Nonempty(parts, beginOffset);
      var i := startIndex;
      while i < |chain|
        invariant startIndex <= i <= |chain|
        invariant v == Pieces(parts, beginOffset, i - startIndex)
      {
        assert chain[i] == live[i - startIndex];
        PiecesNext(parts, beginOffset, i - startIndex);
        v := v + [if i == startIndex then chain[i].data[beginOffset..] else chain[i].data];
        i := i + 1;
      }
      PiecesAll(parts, beginOffset);
    }

    /** coalesce() const. */
    method Coalesce() returns (r: Block)
      requires Valid()
      ensures fresh(r) && r.Valid() && r.data == Contents()
    {
      var v := Iovecs();
      var bytes := [];
      for i := 0 to |v|
        invariant bytes == Flatten(v[..i])
      {
        FlattenSnoc(v[..i], v[i]);
        assert v[..i + 1] == v[..i] + [v[i]];
        bytes := bytes + v[i];
      }
      assert v[..|v|] == v;
      r := new Block(bytes);
    }

    /** The blocks of the rope, copied behind `r`'s data within its capacity. */
    method CopyBehind(r: Block)
      requires Valid() && beginOffset == 0 && r !in Repr && r.Valid()
      requires |r.data| + |Flatten(parts)| <= r.capacity
      modifies r`data
      ensures r.Valid() && r.data == old(r.data) + Flatten(parts)
    {
      var i := startIndex;
      while i < |chain|
        invariant startIndex <= i <= |chain|
        invariant r.data == old(r.data) + Flatten(parts[..i - startIndex])
      {
        ghost var j := i - startIndex;
        assert chain[i] == live[j];
        FlattenTake(parts, j);
        FlattenSplit(parts, j + 1);
        r.Extend(chain[i].data);
        i := i + 1;
      }
      assert parts[..|parts|] == parts;
    }

    /** coalesce() &&: gives out a block of the rope where it can. The rope is not used again. */
    method CoalesceAway() returns (r: Block)
      requires Valid()
      modifies this, Repr
      ensures r.Valid() && r.data == old(Contents())
      ensures r in old(Repr) || fresh(r)
    {
      if Size() == 0 {
        r := new Block([]);
        return;
      }
      Nonempty(parts, beginOffset);
      Front();
      RemainingTail(parts, beginOffset);
      // An exhausted front block would be skipped here, but the front offset lies inside the block.
      assert beginOffset != |chain[startIndex].data|;
      if |chain| == startIndex + 1 {
        r := chain[startIndex];
        chainLength, chain := chainLength - |r.data|, chain[..startIndex];
        if beginOffset != 0 {
          r.ShiftDown(beginOffset);
          beginOffset := 0;
        }
      } else if chain[startIndex].capacity >= Size() {
        var front, skipped := chain[startIndex], beginOffset;
        assert front == live[0];
        NextBlock();
        r := new Block.Move(front);
        if skipped != 0 {
          r.ShiftDown(skipped);
        }
        CopyBehind(r);
      } else {
        r := Coalesce();
      }
    }
  }

  /** A run of the loop drops at least what it was asked to, and more if the counter ever wraps. */
  lemma {:induction false} DropLoopAtLeast(parts: seq<seq<byte>>, begin: nat, len: nat, dropped: nat)
    requires parts != [] && begin < |parts[0]| && (forall i | 0 <= i < |parts| :: parts[i] != [])
    requires dropped <= len && dropped < 0x1_0000_0000
    requires DropLoop(parts, begin, len, dropped).Some?
    ensures var last := DropLoop(parts, begin, len, dropped).value;
      && last.0 != [] && last.1 <= |last.0[0]|
      && |Remaining(last.0, last.1)| + (len - dropped) <= |Remaining(parts, begin)|
      && (dropped + WholeBlocks(parts, begin, len - dropped) >= 0x1_0000_0000 ==>
            |Remaining(last.0, last.1)| + (len - dropped) < |Remaining(parts, begin)|)
  {
    RemainingTail(parts, begin);
    var next := |parts[0]| - begin;
    if dropped < len {
      DropLoopStep(parts, begin, len, dropped);
      if dropped + next <= len {
        var counter, rest := AsUint32(dropped + next), parts[1..];
        DropLoopAtLeast(rest, 0, len, counter);
        assert |Remaining(parts, begin)| == next + |Remaining(rest, 0)|;
        assert WholeBlocks(parts, begin, len - dropped) == next + WholeBlocks(rest, 0, len - dropped - next);
        if dropped + next < 0x1_0000_0000 {
          assert len - dropped - next == len - counter;
        } else {
          assert counter + 0x1_0000_0000 <= dropped + next;
        }
      }
    }
  }

  ghost predicate DropsExactly(parts: seq<seq<byte>>, begin: nat, len: nat)
    requires parts != [] && begin < |parts[0]| && len < |Remaining(parts, begin)|
  {
    var last := DropLoop(parts, begin, len, 0);
    && last.Some? && last.value.0 != [] && last.value.1 <= |last.value.0[0]|
    && Remaining(last.value.0, last.value.1) == Remaining(parts, begin)[len..]
  }

  /** drop_front drops exactly `len` bytes if and only if the blocks it drops whole stay below 4 GiB together. */
  lemma DropsExactlyIff(parts: seq<seq<byte>>, begin: nat, len: nat)
    requires parts != [] && begin < |parts[0]| && (forall i | 0 <= i < |parts| :: parts[i] != [])
    requires len < |Remaining(parts, begin)|
    ensures DropsExactly(parts, begin, len) <==> WholeBlocks(parts, begin, len) < 0x1_0000_0000
  {
    if WholeBlocks(parts, begin, len) < 0x1_0000_0000 {
      DropLoopCorrect(parts, begin, len, 0);
    } else if DropLoop(parts, begin, len, 0).Some? {
      DropLoopAtLeast(parts, begin, len, 0);
    }
  }

  /** A rope for which it does not: one block of 4 GiB before another one. */
  lemma DropsTooMuch(big: seq<byte>, last: seq<byte>)
    requires |big| == 0x1_0000_0000 && last != []
    ensures |big| < |Remaining([big, last], 0)| && !DropsExactly([big, last], 0, |big|)
  {
    RemainingTail([big, last], 0);
    assert [big, last][1..] == [last];
    FlattenOne(last);
    DropsExactlyIff([big, last], 0, |big|);
  }
}
