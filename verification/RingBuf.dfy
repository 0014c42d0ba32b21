/** `HRingBuf` of lib/libhv/base/hbuf.h: blocks allocated and freed in the same order from a circular
    buffer. A block is never split, so a gap may be left at the end when allocation wraps around. */
module RingBuf {

  import opened Options

  datatype Block = Block(pos: nat, len: nat)

  /** Blocks one behind the other from `from` to `end`. */
  ghost predicate Straight(from: nat, blocks: seq<Block>, end: nat)
    decreases |blocks|
  {
    if blocks == [] then from == end
    else blocks[0].pos == from && blocks[0].len > 0 && Straight(from + blocks[0].len, blocks[1..], end)
  }

  ghost function Total(blocks: seq<Block>): nat
    decreases |blocks|
  {
    if blocks == [] then 0 else blocks[0].len + Total(blocks[1..])
  }

  ghost predicate Disjoint(a: Block, b: Block) {
    a.pos + a.len <= b.pos || b.pos + b.len <= a.pos
  }

  /** The bytes from `pos` on belong to no block. */
  ghost predicate Unused(blocks: seq<Block>, pos: nat, len: nat) {
    forall i :: 0 <= i < |blocks| ==> Disjoint(Block(pos, len), blocks[i])
  }

  /** A stretch that is not empty avoids blocks that lie one behind the other exactly when it is before
      or behind all of them. */
  lemma {:induction false} Beside(from: nat, blocks: seq<Block>, end: nat, pos: nat, len: nat)
    requires Straight(from, blocks, end) && len > 0
    ensures Unused(blocks, pos, len) <==> blocks == [] || pos + len <= from || end <= pos
    decreases |blocks|
  {
    if blocks != [] {
      var rest := blocks[1..];
      Beside(from + blocks[0].len, rest, end, pos, len);
      StraightWithin(from + blocks[0].len, rest, end);
      assert Unused(blocks, pos, len) <==> Disjoint(Block(pos, len), blocks[0]) && Unused(rest, pos, len) by {
        assert forall i :: 0 < i < |blocks| ==> blocks[i] == rest[i - 1];
        assert forall i :: 0 <= i < |rest| ==> rest[i] == blocks[i + 1];
      }
    }
  }

  lemma {:induction false} StraightMore(from: nat, blocks: seq<Block>, end: nat, len: nat)
    requires Straight(from, blocks, end) && len > 0
    ensures Straight(from, blocks + [Block(end, len)], end + len)
    ensures Total(blocks + [Block(end, len)]) == Total(blocks) + len
    decreases |blocks|
  {
    var more := blocks + [Block(end, len)];
    if blocks == [] {
      assert more[1..] == [] && more[0] == Block(end, len);
    } else {
      assert more[1..] == blocks[1..] + [Block(end, len)];
      StraightMore(from + blocks[0].len, blocks[1..], end, len);
    }
  }

  lemma {:induction false} StraightWithin(from: nat, blocks: seq<Block>, end: nat)
    requires Straight(from, blocks, end)
    ensures from + Total(blocks) == end
    ensures forall i :: 0 <= i < |blocks| ==> from <= blocks[i].pos && blocks[i].pos + blocks[i].len <= end
    ensures forall i, j :: 0 <= i < j < |blocks| ==> blocks[i].pos + blocks[i].len <= blocks[j].pos
    decreases |blocks|
  {
    if blocks != [] {
      var rest := blocks[1..];
      StraightWithin(from + blocks[0].len, rest, end);
      forall i | 0 <= i < |blocks|
        ensures from <= blocks[i].pos && blocks[i].pos + blocks[i].len <= end
      {
        if i > 0 {
          assert blocks[i] == rest[i - 1];
        }
      }
      forall i, j | 0 <= i < j < |blocks|
        ensures blocks[i].pos + blocks[i].len <= blocks[j].pos
      {
        assert blocks[j] == rest[j - 1];
        if i > 0 {
          assert blocks[i] == rest[i - 1];
        }
      }
    }
  }

  lemma {:induction false} TotalConcat(a: seq<Block>, b: seq<Block>)
    ensures Total(a + b) == Total(a) + Total(b)
    decreases |a|
  {
    if a == [] {
      assert a + b == b;
    } else {
      assert (a + b)[1..] == a[1..] + b;
      TotalConcat(a[1..], b);
    }
  }

  /** Where the live blocks lie: `first` from the head up to the gap, and `second`, if the allocation
      has wrapped around, from the start of the buffer up to the tail. */
  ghost predicate Laid(cap: nat, head: nat, tail: nat, first: seq<Block>, second: seq<Block>, gap: nat) {
    && head <= cap && tail <= cap && gap <= cap && (cap > 0 ==> head < cap && tail < cap)
    && Straight(head, first, gap)
    && (if second == [] then tail == gap || (gap == cap && tail == 0)
        else Straight(0, second, tail) && tail <= head && second[0].len > cap - gap)
  }

  /** Which stretches are free. */
  lemma LaidUnused(cap: nat, head: nat, tail: nat, first: seq<Block>, second: seq<Block>, gap: nat, pos: nat,
          len: nat)
    requires Laid(cap, head, tail, first, second, gap) && len > 0
    ensures Unused(first + second, pos, len) <==>
              (first == [] || pos + len <= head || gap <= pos) && (second == [] || tail <= pos)
  {
    hide Straight, Disjoint;
    Beside(head, first, gap, pos, len);
    if second != [] {
      Beside(0, second, tail, pos, len);
    }
    var all := first + second;
    assert Unused(all, pos, len) <==> Unused(first, pos, len) && Unused(second, pos, len) by {
      assert forall i :: 0 <= i < |first| ==> all[i] == first[i];
      assert forall i :: 0 <= i < |second| ==> all[|first| + i] == second[i];
      assert forall i :: |first| <= i < |all| ==> all[i] == second[i - |first|];
    }
  }

  lemma LaidBehind(cap: nat, head: nat, tail: nat, first: seq<Block>, gap: nat, len: nat)
    requires Laid(cap, head, tail, first, [], gap) && 0 < len <= cap - tail && tail == gap
    ensures Laid(cap, head, if tail + len == cap then 0 else tail + len, first + [Block(tail, len)], [], gap + len)
  {
    StraightMore(head, first, gap, len);
  }

  lemma LaidWrapped(cap: nat, head: nat, tail: nat, first: seq<Block>, gap: nat, len: nat)
    requires Laid(cap, head, tail, first, [], gap) && cap - tail < len <= head && tail == gap
    ensures Laid(cap, head, len, first, [Block(0, len)], gap)
  {
    StraightMore(0, [], 0, len);
    assert [] + [Block(0, len)] == [Block(0, len)];
  }

  lemma LaidInside(cap: nat, head: nat, tail: nat, first: seq<Block>, second: seq<Block>, gap: nat,
          len: nat)
    requires Laid(cap, head, tail, first, second, gap) && 0 < len <= head - tail && (second == [] ==> first != [])
    ensures Laid(cap, head, tail + len, first, second + [Block(tail, len)], gap)
  {
    StraightWithin(head, first, gap);
    Positive(head, first, gap);
    if second == [] {
      StraightMore(0, [], 0, len);
      assert [] + [Block(0, len)] == [Block(0, len)];
    } else {
      StraightMore(0, second, tail, len);
    }
  }

  /** The oldest block, before the gap. */
  lemma LaidDrop(cap: nat, head: nat, tail: nat, first: seq<Block>, second: seq<Block>, gap: nat)
    requires Laid(cap, head, tail, first, second, gap) && first != []
    ensures first[0].pos == head && 0 < first[0].len <= cap - head
    ensures head + first[0].len < cap ==> Laid(cap, head + first[0].len, tail, first[1..], second, gap)
    ensures head + first[0].len == cap ==> first[1..] == [] && Laid(cap, 0, tail, second, [], tail)
  {
    StraightWithin(head, first, gap);
    StraightWithin(head + first[0].len, first[1..], gap);
    Positive(head + first[0].len, first[1..], gap);
  }

  /** The oldest block, behind the gap. */
  lemma LaidDropWrapped(cap: nat, head: nat, tail: nat, second: seq<Block>, gap: nat)
    requires Laid(cap, head, tail, [], second, gap) && second != []
    ensures second[0].pos == 0 && second[0].len > cap - head
    ensures Laid(cap, second[0].len, tail, second[1..], [], tail)
  {
    StraightWithin(0, second, tail);
    StraightWithin(second[0].len, second[1..], tail);
  }

  class RingBuf {
    const cap: nat
    var head: nat
    var tail: nat
    var size: nat
    /** The live blocks that are not empty, oldest first: those before the gap, and those that wrapped
        around. */
    ghost var first: seq<Block>
    ghost var second: seq<Block>
    ghost var gap: nat

    ghost function Live(): seq<Block>
      reads this
    {
      first + second
    }

    ghost predicate Valid()
      reads this
    {
      Laid(cap, head, tail, first, second, gap) && size == Total(Live())
    }

    constructor (cap: nat)
      ensures Valid() && Live() == [] && this.cap == cap && head == 0 && tail == 0
    {
      this.cap := cap;
      head, tail, size, first, second, gap := 0, 0, 0, [], [], 0;
    }

    /** What every state satisfies: the live blocks lie in the buffer, no two of them overlap, and the size
        is their total. */
    lemma Sound()
      requires Valid()
      ensures forall i :: 0 <= i < |Live()| ==> Live()[i].len > 0 && Live()[i].pos + Live()[i].len <= cap
      ensures forall i, j :: 0 <= i < j < |Live()| ==> Disjoint(Live()[i], Live()[j])
      ensures size == Total(Live())
    {
      StraightWithin(head, first, gap);
      Positive(head, first, gap);
      if second != [] {
        StraightWithin(0, second, tail);
        Positive(0, second, tail);
      }
    }

    /** Which branch of `alloc` the shape of the live blocks leads to. */
    lemma Branch()
      requires Valid()
      ensures head <= cap && tail <= cap && (cap > 0 ==> tail < cap)
      ensures head < tail || size == 0 ==> second == [] && tail == gap
      ensures !(head < tail || size == 0) && second == [] ==> first != []
      ensures size == 0 <==> Live() == []
      ensures if first == [] then head == gap else head < gap
      ensures second != [] ==> 0 < tail <= head
    {
      StraightWithin(head, first, gap);
      Positive(head, first, gap);
      assert Live() != [] ==> Live()[0].len > 0 by {
        Sound();
      }
      TotalConcat(first, second);
      if second != [] {
        StraightWithin(0, second, tail);
        Positive(0, second, tail);
      }
    }

    /** Somewhere in the buffer there are `len` free bytes in one piece. */
    ghost predicate Room(len: nat)
      reads this
    {
      exists pos: nat {:trigger Unused(Live(), pos, len)} :: pos + len <= cap && Unused(Live(), pos, len)
    }

    /** A free piece that `alloc` does not use. When all blocks are freed, the buffer stays divided at the
        end of the last of them, `head`; and once the newest block lies before `head`, the free bytes at
        the end of the buffer are left alone. */
    ghost predicate Wasted(len: nat)
      reads this
    {
      if Live() == [] then head < len <= cap && cap - head < len
      else
        var newest := Live()[|Live()| - 1];
        newest.pos + newest.len <= head < newest.pos + newest.len + len
        && len <= cap && Unused(Live(), cap - len, len)
    }

    /** The newest live block ends at the tail. */
    lemma Newest()
      requires Valid() && Live() != []
      ensures var newest := Live()[|Live()| - 1];
              newest.pos + newest.len == if second == [] then gap else tail
    {
      hide Total;
      if second == [] {
        assert Live() == first;
        StraightLast(head, first, gap);
      } else {
        StraightLast(0, second, tail);
      }
    }

    /** The branches of `alloc` refuse exactly when no free piece is long enough or the only ones are
        wasted. */
    lemma Refusal(len: nat)
      requires Valid()
      ensures (if head < tail || size == 0 then cap - tail < len && head < len else head - tail < len)
          <==> !Room(len) || Wasted(len)
    {
      hide Straight, Total;
      Branch();
      if len == 0 {
        assert Unused(Live(), 0, 0);
        return;
      }
      if Live() != [] {
        Newest();
      }
      LaidUnused(cap, head, tail, first, second, gap, 0, len);
      LaidUnused(cap, head, tail, first, second, gap, tail, len);
      if len <= cap {
        LaidUnused(cap, head, tail, first, second, gap, cap - len, len);
      }
      if Room(len) {
        var pos: nat :| pos + len <= cap && Unused(Live(), pos, len);
        LaidUnused(cap, head, tail, first, second, gap, pos, len);
      }
    }

    /** `alloc`: a position in the buffer, behind the newest block or at the start. Nothing is returned if
        there is no room in one piece, or only room that is wasted. */
    method Alloc(len: nat) returns (r: Option<nat>)
      requires Valid()
      modifies this`tail, this`size, this`first, this`second, this`gap
      ensures Valid()
      ensures r.None? || len == 0 ==> Live() == old(Live()) && size == old(size) && tail == old(tail)
      ensures r.Some? && len > 0 ==> Live() == old(Live()) + [Block(r.value, len)]
      ensures r.Some? && len > 0 ==>
          && r.value == (if old(tail) + len <= cap then old(tail) else 0)
          && tail == (if r.value + len == cap then 0 else r.value + len)
      ensures r.None? <==> !old(Room(len)) || old(Wasted(len))
    {
      hide Straight, Laid, Total, Room, Wasted;
      Branch();
      Refusal(len);
      r := None;
      if head < tail || size == 0 {
        if cap - tail >= len {
          r := Some(tail);
          if len > 0 {
            LaidBehind(cap, head, tail, first, gap, len);
          }
          Grow(len, tail, false);
          tail := tail + len;
          if tail == cap {
            tail := 0;
          }
        } else if head >= len {
          r := Some(0);
          LaidWrapped(cap, head, tail, first, gap, len);
          assert second + [Block(0, len)] == [Block(0, len)];
          Grow(len, 0, true);
          tail := len;
        }
      } else if head - tail >= len {
        r := Some(tail);
        if len > 0 {
          LaidInside(cap, head, tail, first, second, gap, len);
        }
        Grow(len, tail, true);
        tail := tail + len;
      }
      size := size + if r.Some? then len else 0;
    }

    /** The new block, unless it is empty. */
    ghost method Grow(len: nat, pos: nat, wrapped: bool)
      requires !wrapped && len > 0 ==> second == []
      modifies this`first, this`second, this`gap
      ensures len == 0 ==> first == old(first) && second == old(second) && gap == old(gap)
      ensures len > 0 && wrapped ==> first == old(first) && second == old(second) + [Block(pos, len)] && gap == old(gap)
      ensures len > 0 && !wrapped ==> first == old(first) + [Block(pos, len)] && second == [] && gap == old(gap) + len
      ensures len > 0 ==> Live() == old(Live()) + [Block(pos, len)]
      ensures Total(Live()) == Total(old(Live())) + len
    {
      if len > 0 {
        TotalMore(Live(), Block(pos, len));
        if wrapped {
          second := second + [Block(pos, len)];
        } else {
          first := first + [Block(pos, len)];
          gap := gap + len;
        }
        assert Live() == old(Live()) + [Block(pos, len)];
      }
    }

    /** `free` of the oldest block, with its own length: the test that decides whether it is at `head` or,
        behind the gap, at the start of the buffer is always right. */
    method Free(len: nat)
      requires Valid() && (len == 0 || (Live() != [] && len == Live()[0].len))
      modifies this`head, this`size, this`first, this`second, this`gap
      ensures Valid()
      ensures Live() == if len == 0 then old(Live()) else old(Live())[1..]
      ensures len > 0 ==> old(Live())[0].pos == if len <= cap - old(head) then old(head) else 0
      ensures head == if len == 0 then old(head)
                else if old(Live())[0].pos + len == cap then 0 else old(Live())[0].pos + len
    {
      hide Straight;
      ghost var before := Live();
      if len > 0 {
        if first == [] {
          LaidDropWrapped(cap, head, tail, second, gap);
          first, second, gap := second[1..], [], tail;
        } else {
          LaidDrop(cap, head, tail, first, second, gap);
          if head + len == cap {
            first, second, gap := second, [], tail;
          } else {
            first := first[1..];
          }
        }
        assert Live() == before[1..];
      }
      size := size - len;
      if len <= cap - head {
        head := head + len;
        if head == cap {
          head := 0;
        }
      } else {
        head := len;
      }
    }
  }

  /** All ten bytes are free, and six are refused: the buffer is divided where the last block ended. */
  method RefusedWhenEmpty() returns (b: RingBuf, r: Option<nat>)
    ensures b.Valid() && b.cap == 10 && b.Live() == [] && b.Room(6) && r.None?
  {
    b := new RingBuf(10);
    assert b.Room(5) by {
      assert Unused(b.Live(), 0, 5);
    }
    var p := b.Alloc(5);
    b.Free(5);
    assert b.Room(6) by {
      assert Unused(b.Live(), 0, 6);
    }
    r := b.Alloc(6);
  }

  /** Two bytes at the end are free, and two are refused: the newest block lies before the oldest. */
  method RefusedAtTheEnd() returns (b: RingBuf, r: Option<nat>)
    ensures b.Valid() && b.cap == 10 && b.Live() == [Block(4, 4), Block(0, 3)] && b.Room(2) && r.None?
  {
    b := new RingBuf(10);
    assert b.Room(4) by {
      assert Unused(b.Live(), 0, 4);
    }
    var p := b.Alloc(4);
    assert b.Room(4) by {
      assert Unused(b.Live(), 4, 4);
    }
    p := b.Alloc(4);
    b.Free(4);
    assert b.Room(3) by {
      assert Unused(b.Live(), 0, 3);
    }
    p := b.Alloc(3);
    assert b.Room(2) by {
      assert Unused(b.Live(), 8, 2);
    }
    r := b.Alloc(2);
  }

  lemma {:induction false} StraightLast(from: nat, blocks: seq<Block>, end: nat)
    requires Straight(from, blocks, end) && blocks != []
    ensures var last := blocks[|blocks| - 1]; last.pos + last.len == end
    decreases |blocks|
  {
    if |blocks| > 1 {
      StraightLast(from + blocks[0].len, blocks[1..], end);
    }
  }

  lemma {:induction false} TotalMore(blocks: seq<Block>, b: Block)
    ensures Total(blocks + [b]) == Total(blocks) + b.len
    decreases |blocks|
  {
    if blocks == [] {
      assert [b][1..] == [] && [] + [b] == [b];
    } else {
      assert (blocks + [b])[1..] == blocks[1..] + [b];
      TotalMore(blocks[1..], b);
    }
  }

  lemma {:induction false} Positive(from: nat, blocks: seq<Block>, end: nat)
    requires Straight(from, blocks, end)
    ensures forall i :: 0 <= i < |blocks| ==> blocks[i].len > 0
    decreases |blocks|
  {
    if blocks != [] {
      Positive(from + blocks[0].len, blocks[1..], end);
      forall i | 0 <= i < |blocks|
        ensures blocks[i].len > 0
      {
        if i > 0 {
          assert blocks[i] == blocks[1..][i - 1];
        }
      }
    }
  }
}
