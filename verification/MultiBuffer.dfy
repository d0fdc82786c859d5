/** The segmented dynamic buffer, include/beast/core/impl/multi_buffer.ipp. */
module MultiBuffer {
  import opened Bytes
  import opened Options
  import opened Sequences
  import ByteQueue

  // ---- positions in a list of elements ----

  /** Where element i starts in the concatenation. */
  function Offset(list: seq<seq<Byte>>, i: nat): nat
    requires i <= |list|
  {
    |Flatten(list[..i])|
  }

  lemma OffsetNext(list: seq<seq<Byte>>, i: nat)
    requires i < |list|
    ensures Offset(list, i + 1) == Offset(list, i) + |list[i]|
  {
    FlattenTake(list, i);
  }

  lemma OffsetEnds(list: seq<seq<Byte>>)
    ensures Offset(list, 0) == 0 && Offset(list, |list|) == |Flatten(list)|
    ensures |list| > 0 ==> Offset(list, |list| - 1) + |list[|list| - 1]| == |Flatten(list)|
  {
    assert list[..|list|] == list;
  }

  lemma OffsetBound(list: seq<seq<Byte>>, i: nat, j: nat)
    requires i <= j <= |list|
    ensures Offset(list, i) <= Offset(list, j)
    decreases j - i
  {
    if i < j {
      OffsetNext(list, i);
      OffsetBound(list, i + 1, j);
    }
  }

  lemma OffsetAppend(list: seq<seq<Byte>>, e: seq<Byte>, i: nat)
    requires i <= |list|
    ensures Offset(list + [e], i) == Offset(list, i)
  {
    assert (list + [e])[..i] == list[..i];
  }

  lemma OffsetTail(list: seq<seq<Byte>>, i: nat)
    requires 0 < i <= |list|
    ensures Offset(list[1..], i - 1) == Offset(list, i) - |list[0]|
    ensures Flatten(list) == list[0] + Flatten(list[1..])
  {
    assert list[..i] == [list[0]] + list[1..][..i - 1];
    FlattenCons(list[0], list[1..][..i - 1]);
    assert list == [list[0]] + list[1..];
    FlattenCons(list[0], list[1..]);
  }

  /** The bytes from position a of the concatenation up to position b. */
  function Between(list: seq<seq<Byte>>, a: nat, b: nat): seq<Byte>
    requires a <= b <= |Flatten(list)|
  {
    Flatten(list)[a..b]
  }

  lemma BetweenAppend(list: seq<seq<Byte>>, e: seq<Byte>, a: nat, b: nat)
    requires a <= b <= |Flatten(list)|
    ensures |Flatten(list + [e])| == |Flatten(list)| + |e|
    ensures Between(list + [e], a, b) == Between(list, a, b)
  {
    FlattenSnoc(list, e);
  }

  /** Positions shift when the front element goes. */
  lemma BetweenTail(list: seq<seq<Byte>>, a: nat, b: nat)
    requires |list| > 0 && |list[0]| <= a <= b <= |Flatten(list)|
    ensures |Flatten(list)| == |list[0]| + |Flatten(list[1..])|
    ensures Between(list, a, b) == Between(list[1..], a - |list[0]|, b - |list[0]|)
  {
    OffsetTail(list, 1);
  }

  lemma BetweenDrop(list: seq<seq<Byte>>, a: nat, b: nat, k: nat)
    requires a + k <= b <= |Flatten(list)|
    ensures Between(list, a, b)[k..] == Between(list, a + k, b)
  {
  }

  lemma BetweenJoin(list: seq<seq<Byte>>, a: nat, b: nat, c: nat)
    requires a <= b <= c <= |Flatten(list)|
    ensures Between(list, a, b) + Between(list, b, c) == Between(list, a, c)
  {
  }

  class Buffer {
    /** The elements' storage, front first. */
    var list: seq<seq<Byte>>
    /** The element the output starts in; |list| when there is none. */
    var out: nat
    var inPos: nat
    var outPos: nat
    var outEnd: nat
    var inSize: nat
    const allocSize: nat

    /** What debug_check asserts, and that no element is empty. */
    ghost predicate Valid()
      reads this
    {
      && allocSize > 0
      && (forall i :: 0 <= i < |list| ==> |list[i]| > 0)
      && out <= |list|
      && (|list| == 0 ==> inPos == 0)
      && (|list| > 0 ==> inPos < |list[0]|)
      && (out == |list| ==> outPos == 0 && outEnd == 0)
      && (out < |list| ==>
            && outPos < |list[out]|
            && outEnd <= |list[|list| - 1]|
            && (out == 0 ==> inPos <= outPos)
            && (out == |list| - 1 ==> outPos <= outEnd))
      && inPos + inSize == InEnd()
    }

    function InEnd(): nat
      requires out <= |list|
      reads this
    {
      Offset(list, out) + outPos
    }

    function OutEnd(): nat
      requires out <= |list|
      reads this
    {
      if out < |list| then Offset(list, |list| - 1) + outEnd else |Flatten(list)|
    }

    lemma Bounds()
      requires Valid()
      ensures inPos <= InEnd() <= OutEnd() <= |Flatten(list)|
    {
      OffsetEnds(list);
      OffsetBound(list, out, |list|);
      if 0 < out { OffsetNext(list, 0); OffsetBound(list, 1, out); }
      if out < |list| - 1 { OffsetNext(list, out); OffsetBound(list, out + 1, |list| - 1); }
    }

    /** The input sequence: bytes committed and not yet consumed. */
    ghost function Contents(): seq<Byte>
      requires Valid()
      reads this
    {
      Bounds();
      Between(list, inPos, InEnd())
    }

    /** The output sequence: bytes prepared and not yet committed. */
    ghost function Writable(): seq<Byte>
      requires Valid()
      reads this
    {
      Bounds();
      Between(list, InEnd(), OutEnd())
    }

    lemma Views()
      requires Valid()
      ensures inPos <= InEnd() <= OutEnd() <= |Flatten(list)|
      ensures Contents() == Between(list, inPos, InEnd()) && Writable() == Between(list, InEnd(), OutEnd())
      ensures |Contents()| == InEnd() - inPos && |Writable()| == OutEnd() - InEnd()
    {
      Bounds();
    }

    constructor (allocSize: nat)
      requires allocSize > 0
      ensures Valid() && Contents() == [] && Writable() == [] && this.allocSize == allocSize
    {
      list := [];
      out, inPos, outPos, outEnd, inSize := 0, 0, 0, 0, 0;
      this.allocSize := allocSize;
    }

    function Size(): (n: nat)
      requires Valid()
      reads this
      ensures n == |Contents()|
    {
      Bounds();
      inSize
    }

    /** The loop of commit: leaves whole elements behind; left is what remains to
        be committed in the last element, or 0 when n ran out before it. */
    method CommitElements(n0: nat) returns (left: nat)
      requires Valid() && out < |list|
      modifies this`out, this`outPos, this`inSize
      ensures Valid() && out < |list| && OutEnd() == old(OutEnd())
      ensures InEnd() + left == old(InEnd()) + n0
      ensures left == 0 || out == |list| - 1
    {
      hide Offset;
      left := n0;
      while out != |list| - 1
        invariant Valid() && out < |list| && OutEnd() == old(OutEnd())
        invariant InEnd() + left == old(InEnd()) + n0
        decreases |list| - out
      {
        OffsetNext(list, out);
        var avail := |list[out]| - outPos;
        if left < avail {
          outPos := outPos + left;
          inSize := inSize + left;
          return 0;
        }
        out := out + 1;
        left := left - avail;
        outPos := 0;
        inSize := inSize + avail;
      }
    }

    /** Moves bytes from the output to the input sequence. */
    method Commit(n0: nat)
      requires Valid()
      modifies this`out, this`outPos, this`outEnd, this`inSize
      ensures Valid()
      ensures var k := Min(n0, |old(Writable())|);
              Contents() == old(Contents()) + old(Writable())[..k] && Writable() == old(Writable())[k..]
    {
      hide Offset, Between, Contents, Writable;
      Views();
      ghost var start, stop, k := InEnd(), OutEnd(), Min(n0, |Writable()|);
      if |list| == 0 || out == |list| {
        OffsetEnds(list);
        Moved(old(Contents()), old(Writable()), start, stop, k);
        return;
      }
      var n := CommitElements(n0);
      Bounds();
      if out == |list| - 1 {
        n := Min(n, outEnd - outPos);
        FinishElement(n);
      }
      Moved(old(Contents()), old(Writable()), start, stop, k);
    }

    /** The end of commit, in the last element. */
    method FinishElement(n: nat)
      requires Valid() && |list| > 0 && out == |list| - 1 && outPos + n <= outEnd
      modifies this`out, this`outPos, this`outEnd, this`inSize
      ensures Valid() && InEnd() == old(InEnd()) + n && OutEnd() == old(OutEnd())
    {
      hide Offset;
      OffsetNext(list, out);
      OffsetEnds(list);
      outPos := outPos + n;
      inSize := inSize + n;
      if outPos == |list[out]| {
        out := out + 1;
        outPos := 0;
        outEnd := 0;
      }
    }

    /** The output starts in the front element and has no bytes: it ends there, or
        there is no element at all. */
    lemma OutputEmpty()
      requires Valid() && out == 0
      ensures Writable() == [] ==> |list| == 0 || (|list| == 1 && outPos == outEnd)
    {
      hide Flatten, Offset, Contents, Writable, Between;
      Views();
      OffsetEnds(list);
      if |list| > 1 {
        OffsetNext(list, 0);
        OffsetBound(list, 1, |list| - 1);
      }
    }

    /** The input end has moved k bytes into what was the output. */
    lemma Moved(contents: seq<Byte>, writable: seq<Byte>, start: nat, stop: nat, k: nat)
      requires Valid() && inPos <= start <= stop <= |Flatten(list)| && k <= stop - start
      requires InEnd() == start + k && OutEnd() == stop
      requires contents == Between(list, inPos, start) && writable == Between(list, start, stop)
      ensures Contents() == contents + writable[..k] && Writable() == writable[k..]
    {
      hide Flatten, Offset;
      var s := Flatten(list);
      SliceOfSlice(s, start, stop, 0, k);
      SliceOfSlice(s, start, stop, k, stop - start);
      assert s[inPos..start] + s[start..start + k] == s[inPos..start + k];
    }

    /** The first loop branch of consume: the front element goes. */
    method PopFront()
      requires Valid() && 0 < out
      modifies this`list, this`out, this`inPos, this`inSize
      ensures Valid() && |list| == |old(list)| - 1
      ensures 0 < |old(list)[0]| - old(inPos) <= |old(Contents())|
      ensures Contents() == old(Contents())[|old(list)[0]| - old(inPos)..] && Writable() == old(Writable())
    {
      hide Offset, Flatten, Contents, Writable, Between;
      Views();
      OffsetTail(list, out);
      OffsetNext(list, 0);
      OffsetBound(list, 1, out);
      OffsetEnds(list);
      if out < |list| { OffsetTail(list, |list| - 1); }
      BetweenDrop(list, inPos, InEnd(), |list[0]| - inPos);
      BetweenTail(list, |list[0]|, InEnd());
      BetweenTail(list, InEnd(), OutEnd());
      inSize := inSize - (|list[0]| - inPos);
      inPos := 0;
      list := list[1..];
      out := out - 1;
      Views();
    }

    /** Removes bytes from the input sequence. */
    method Consume(n0: nat)
      requires Valid()
      modifies this`list, this`out, this`inPos, this`outPos, this`outEnd, this`inSize
      ensures Valid()
      ensures Contents() == old(Contents())[Min(n0, |old(Contents())|)..]
      ensures Writable() == old(Writable())
      ensures Contents() == [] && Writable() == [] ==> InEnd() == 0
    {
      hide Offset, Flatten, Contents, Writable, Between, Valid;
      ghost var all := Contents();
      if |list| == 0 {
        EmptyList();
        return;
      }
      var n := n0;
      while 0 != out
        invariant Valid() && 0 <= n <= n0 && n0 - n <= |all|
        invariant Contents() == all[n0 - n..]
        invariant Writable() == old(Writable())
        decreases |list|
      {
        FrontSize();
        var avail := |list[0]| - inPos;
        DropTwice(all, n0 - n, if n < avail then n else avail);
        if n < avail {
          Advance(n);
          return;
        }
        n := n - avail;
        PopFront();
      }
      DropTwice(all, n0 - n, Min(n, |Contents()|));
      ConsumeLast(n);
    }

    lemma EmptyList()
      requires Valid() && |list| == 0
      ensures Contents() == [] && Writable() == [] && InEnd() == 0
    {
    }

    lemma FrontSize()
      requires Valid() && 0 < out
      ensures |list| > 0 && inPos < |list[0]| && |list[0]| - inPos <= inSize == |Contents()|
    {
      Views();
      OffsetNext(list, 0);
      OffsetBound(list, 1, out);
    }

    /** Moves the input start inside the front element. */
    method Advance(n: nat)
      requires Valid() && 0 < out && n < |list[0]| - inPos
      modifies this`inPos, this`inSize
      ensures Valid() && n <= |old(Contents())| && Contents() == old(Contents())[n..] && Writable() == old(Writable())
    {
      hide Offset, Flatten, Contents, Writable;
      FrontSize();
      Views();
      inSize := inSize - n;
      inPos := inPos + n;
      Dropped(old(Contents()), old(Writable()), old(inPos), n);
    }

    /** The last branch of consume: input and output share the front element (or
        the list is empty, where the original reads a field of the list head
        and goes on to store zeros, as here). */
    method ConsumeLast(n: nat)
      requires Valid() && 0 == out
      modifies this`inPos, this`outPos, this`outEnd, this`inSize
      ensures Valid() && Contents() == old(Contents())[Min(n, |old(Contents())|)..] && Writable() == old(Writable())
      ensures Contents() == [] && Writable() == [] ==> InEnd() == 0
    {
      hide Flatten, Contents, Writable, Offset, Between;
      Views();
      OffsetEnds(list);
      ghost var contents, writable, from := Contents(), Writable(), inPos;
      OutputEmpty();
      var avail := outPos - inPos;
      assert |contents| == avail;
      if n < avail {
        inSize := inSize - n;
        inPos := inPos + n;
        Dropped(contents, writable, from, n);
      } else {
        inSize := 0;
        if out != |list| - 1 || outPos != outEnd {
          inPos := outPos;
          Dropped(contents, writable, from, avail);
        } else {
          inPos := 0;
          outPos := 0;
          outEnd := 0;
          Views();
          assert contents[avail..] == [] && writable == [];
        }
      }
    }

    /** The input start has moved k bytes on. */
    lemma Dropped(contents: seq<Byte>, writable: seq<Byte>, from: nat, k: nat)
      requires Valid() && inPos == from + k <= InEnd() <= OutEnd() <= |Flatten(list)|
      requires contents == Between(list, from, InEnd()) && writable == Between(list, InEnd(), OutEnd())
      ensures Contents() == contents[k..] && Writable() == writable
    {
      hide Flatten, Offset;
    }

    /** Whether the prepared bytes end where the last element ends. */
    ghost predicate IsFull()
      requires Valid()
      reads this
    {
      OutEnd() == |Flatten(list)|
    }

    /** The end of the output is set in the last element, which takes what fits of
        n more bytes. */
    method TakeInLast(n: nat) returns (rest: nat)
      requires Valid() && out < |list|
      modifies this`outEnd
      ensures Valid() && Contents() == old(Contents())
      ensures InEnd() == old(InEnd())
      ensures OutEnd() + rest == Offset(list, |list| - 1) + ShareStart(|list| - 1) + n
      ensures rest > 0 ==> IsFull()
      ensures var avail := |list[|list| - 1]| - ShareStart(|list| - 1);
              rest == if n > avail then n - avail else 0
    {
      hide Flatten, Offset, Between, Contents, Writable;
      Views();
      OffsetEnds(list);
      var e, start := list[|list| - 1], ShareStart(|list| - 1);
      var avail := |e| - start;
      if n > avail {
        outEnd := |e|;
        rest := n - avail;
      } else {
        outEnd := start + n;
        rest := 0;
      }
      Views();
    }

    /** Elements behind the one the output starts in are set aside. */
    method CutBehind() returns (reuse: seq<seq<Byte>>)
      requires Valid() && out < |list|
      modifies this`list, this`outEnd
      ensures Valid() && out == |list| - 1 && Contents() == old(Contents()) && InEnd() == old(InEnd())
      ensures list + reuse == old(list)
      ensures forall i :: 0 <= i < |reuse| ==> |reuse[i]| > 0
    {
      hide Flatten, Offset, Between, Contents, Writable;
      reuse := [];
      if out != |list| - 1 {
        ghost var was := list;
        Views();
        outEnd := |list[out]|;
        reuse := list[out + 1..];
        list := list[..out + 1];
        SamePrefix(was, list, out, inPos, InEnd());
        Views();
      }
    }

    /** The first part of prepare: the element the output starts in takes what
        fits. */
    method TrimOutput(n: nat) returns (rest: nat, reuse: seq<seq<Byte>>)
      requires Valid()
      modifies this`list, this`outEnd
      ensures Valid() && Contents() == old(Contents())
      ensures InEnd() == old(InEnd()) && OutEnd() + rest == InEnd() + n
      ensures list + reuse == old(list)
      ensures rest > 0 ==> IsFull()
      ensures forall i :: 0 <= i < |reuse| ==> |reuse[i]| > 0
    {
      hide Flatten, Offset, Between, Contents, Writable;
      rest, reuse := n, [];
      if out < |list| {
        reuse := CutBehind();
        rest := TakeInLast(n);
      } else {
        OffsetEnds(list);
      }
    }

    lemma SamePrefix(was: seq<seq<Byte>>, now: seq<seq<Byte>>, i: nat, a: nat, b: nat)
      requires i < |was| && (now == was || now == was[..i + 1])
      ensures Offset(now, i) == Offset(was, i) && Offset(was, i) + |was[i]| <= |Flatten(now)|
      ensures |Flatten(now)| <= |Flatten(was)|
      ensures a <= b <= |Flatten(now)| ==> Between(now, a, b) == Between(was, a, b)
    {
      hide Flatten;
      assert was[..i + 1][..i] == was[..i];
      FlattenSplit(was, i + 1);
      FlattenTake(was, i);
      SliceOfFront(Flatten(was[..i + 1]), Flatten(was[i + 1..]), a, b);
    }

    /** One more element behind the others, not yet used; the output starts in it if
        it started behind the others. */
    method AddElement(e: seq<Byte>)
      requires Valid() && IsFull() && |e| > 0
      modifies this`list, this`outEnd
      ensures Valid() && out < |list| && Contents() == old(Contents())
      ensures InEnd() == old(InEnd()) && list == old(list) + [e]
      ensures Offset(list, |list| - 1) == old(OutEnd()) && ShareStart(|list| - 1) == 0
    {
      hide Flatten, Offset, Between, Contents, Writable;
      Views();
      OffsetAppend(list, e, out);
      OffsetAppend(list, e, |list|);
      OffsetEnds(list);
      BetweenAppend(list, e, inPos, InEnd());
      list := list + [e];
      outEnd := 0;
      Views();
    }

    /** One more element, which takes what fits. */
    method AppendElement(e: seq<Byte>, n: nat) returns (rest: nat)
      requires Valid() && IsFull() && n > 0 && |e| > 0
      modifies this`list, this`outEnd
      ensures Valid() && Contents() == old(Contents())
      ensures InEnd() == old(InEnd()) && OutEnd() + rest == old(OutEnd()) + n
      ensures list == old(list) + [e]
      ensures rest > 0 ==> IsFull()
      ensures |e| >= n ==> rest == 0
      ensures |e| < n ==> rest == n - |e|
    {
      hide Flatten, Offset, Between, Contents, Writable, Valid;
      AddElement(e);
      rest := TakeInLast(n);
    }

    /** The bytes allocated behind the input sequence. */
    ghost function Room(): (n: nat)
      requires Valid()
      reads this
    {
      Bounds();
      |Flatten(list)| - InEnd()
    }

    lemma RoomEnds()
      requires Valid()
      ensures out == |list| <==> Room() == 0
    {
      OffsetEnds(list);
      if out < |list| {
        OffsetNext(list, out);
        OffsetBound(list, out + 1, |list|);
      }
    }

    /** Prepares as many bytes as the elements have room for. */
    method UseRoom(n0: nat) returns (n: nat)
      requires Valid()
      modifies this`list, this`outEnd
      ensures Valid() && Contents() == old(Contents())
      ensures OutEnd() + n == InEnd() + n0
      ensures n == if n0 > old(Room()) then n0 - old(Room()) else 0
      ensures if n > 0 then list == old(list) && IsFull() else list <= old(list)
    {
      hide Flatten, Offset, Between, Contents, Writable, InEnd, OutEnd, IsFull, Room;
      ghost var was := list;
      RoomIs();
      var reuse;
      n, reuse := TrimOutput(n0);
      while n > 0 && reuse != []
        invariant Valid() && Contents() == old(Contents())
        invariant InEnd() == old(InEnd()) && OutEnd() + n == InEnd() + n0
        invariant n > 0 ==> IsFull()
        invariant list + reuse == was
        invariant forall i :: 0 <= i < |reuse| ==> |reuse[i]| > 0
        decreases |reuse|
      {
        var e := reuse[0];
        assert list + reuse == (list + [e]) + reuse[1..];
        reuse := reuse[1..];
        n := AppendElement(e, n);
      }
      Views();
      FlattenAppend(list, reuse);
      assert was[..|list|] == list;
      if n > 0 {
        assert reuse == [] && list + reuse == list;
        FullEnd();
      }
    }

    lemma RoomIs()
      requires Valid()
      ensures Room() == |Flatten(list)| - InEnd()
    {
    }

    lemma FullEnd()
      requires Valid() && IsFull()
      ensures OutEnd() == |Flatten(list)|
    {
    }

    /** Makes the output sequence n0 bytes long. No element is added as long as
        allocated room is left; otherwise a single one, of at least the size that
        is short. */
    method Prepare(n0: nat)
      requires Valid()
      modifies this`list, this`outEnd
      ensures Valid() && Contents() == old(Contents())
      ensures |Writable()| == n0
      ensures n0 <= old(Room()) ==> list <= old(list)
      ensures n0 > old(Room()) ==>
                && |list| == |old(list)| + 1 && old(list) <= list
                && |list[|old(list)|]| == if allocSize >= n0 - old(Room()) then allocSize else n0 - old(Room())
    {
      hide Flatten, Offset, Between, Contents, Writable, InEnd, OutEnd, IsFull, Room;
      var n := UseRoom(n0);
      while n > 0
        invariant Valid() && Contents() == old(Contents())
        invariant OutEnd() + n == InEnd() + n0
        invariant n > 0 ==> IsFull() && list == old(list) && n == n0 - old(Room())
        invariant n0 <= old(Room()) ==> n == 0 && list <= old(list)
        invariant n == 0 && n0 > old(Room()) ==>
                    && |list| == |old(list)| + 1 && old(list) <= list
                    && |list[|old(list)|]| == if allocSize >= n0 - old(Room()) then allocSize else n0 - old(Room())
        decreases n
      {
        var size := if allocSize >= n then allocSize else n;
        n := AppendElement(seq(size, _ => 0), n);
      }
      Views();
    }

    /** The bounds of the i-th element's share of the output sequence
        (mutable_buffers_type::const_iterator::operator*). */
    function ShareStart(i: nat): nat
      reads this
    {
      if i == out then outPos else 0
    }

    function ShareEnd(i: nat): nat
      requires i < |list|
      reads this
    {
      if i == |list| - 1 then outEnd else |list[i]|
    }

    /** The length of the first buffer of the output sequence. */
    function FirstLength(): (n: nat)
      requires Valid()
      reads this
      ensures n <= |Writable()|
      ensures |Writable()| > 0 ==> n > 0
      ensures out == |list| - 1 ==> n == |Writable()|
    {
      Views();
      OffsetEnds(list);
      if out == |list| then 0
      else
        OffsetNext(list, out);
        OffsetBound(list, out + 1, |list|);
        if out < |list| - 1 then OffsetBound(list, out + 1, |list| - 1); |list[out]| - outPos
        else ShareEnd(out) - ShareStart(out)
    }

    /** A caller's write through the output sequence: byte j of element i. */
    method Poke(i: nat, j: nat, x: Byte)
      requires Valid() && out <= i < |list| && ShareStart(i) <= j < ShareEnd(i)
      modifies this`list
      ensures Valid() && Contents() == old(Contents()) && |list| == |old(list)|
      ensures Offset(list, i) == Offset(old(list), i)
      ensures forall k :: 0 <= k < |list| ==> |list[k]| == |old(list)[k]|
      ensures InEnd() <= Offset(old(list), i) + j < OutEnd() && InEnd() == old(InEnd()) && OutEnd() == old(OutEnd())
      ensures Writable() == old(Writable())[Offset(old(list), i) + j - InEnd() := x]
    {
      hide Flatten, Offset, Contents, Writable, Between, ShareStart, ShareEnd;
      Views();
      ghost var was, p := list, Offset(list, i) + j;
      Inside(i, j);
      PokedList(list, i, j, x);
      list := list[i := list[i][j := x]];
      SameOffset(was, list, out);
      SameOffset(was, list, i);
      SameOffset(was, list, |list| - 1);
      BetweenUpdate(was, list, p, x, inPos, InEnd(), OutEnd());
      Views();
    }

    /** A position in the share of an element is a position in the output. */
    lemma Inside(i: nat, j: nat)
      requires Valid() && out <= i < |list| && ShareStart(i) <= j < ShareEnd(i)
      ensures j < |list[i]| && InEnd() <= Offset(list, i) + j < OutEnd()
    {
      hide Flatten, Offset;
      OffsetEnds(list);
      OffsetNext(list, i);
      OffsetBound(list, out, i);
      if out < i { OffsetNext(list, out); OffsetBound(list, out + 1, i); }
      if i < |list| - 1 { OffsetBound(list, i + 1, |list| - 1); }
    }

    /** Where the output begins, if it has any bytes. */
    lemma OutputStart()
      requires Valid()
      ensures |Writable()| > 0 ==>
                out < |list| && ShareStart(out) == outPos <= ShareEnd(out) && InEnd() == Offset(list, out) + outPos
    {
      hide Flatten, Offset, Contents, Writable, Between;
      Views();
      OffsetEnds(list);
    }

    /** Where the share of an element ends before the output does, the share of the
        next one begins. */
    lemma NextElement(i: nat)
      requires Valid() && out <= i < |list| && Offset(list, i) + ShareEnd(i) < OutEnd()
      ensures i + 1 < |list| && ShareStart(i + 1) == 0
      ensures Offset(list, i + 1) == Offset(list, i) + ShareEnd(i)
    {
      hide Flatten, Offset;
      OffsetNext(list, i);
    }

    /** buffer_copy into the output sequence, buffer by buffer. */
    method Fill(data: seq<Byte>)
      requires Valid() && |data| == |Writable()|
      modifies this`list
      ensures Valid() && Contents() == old(Contents()) && Writable() == data
    {
      hide Flatten, Offset, Contents, Writable, Between, Valid, InEnd, OutEnd;
      OutputStart();
      var i, j, k := out, outPos, 0;
      while k < |data|
        invariant Valid() && Contents() == old(Contents()) && |Writable()| == |data|
        invariant 0 <= k <= |data| && Writable()[..k] == data[..k]
        invariant k < |data| ==> out <= i < |list| && ShareStart(i) <= j <= ShareEnd(i)
        invariant k < |data| ==> k == Offset(list, i) + j - InEnd()
        decreases |data| - k, |list| - i
      {
        Views();
        if j == ShareEnd(i) {
          NextElement(i);
          i, j := i + 1, 0;
        } else {
          PrefixNext(Writable(), data, k);
          Poke(i, j, data[k]);
          Views();
          k, j := k + 1, j + 1;
        }
      }
      assert Writable()[..|data|] == Writable() && data[..|data|] == data;
    }

    /** The element and the position in it of byte k of the output sequence. */
    method Locate(k: nat) returns (i: nat, j: nat)
      requires Valid() && k < |Writable()|
      ensures out <= i < |list| && ShareStart(i) <= j < ShareEnd(i)
      ensures Offset(list, i) + j == InEnd() + k
    {
      hide Flatten, Offset, Between, Contents, Writable, Valid, InEnd, OutEnd;
      Views();
      OutputStart();
      i, j := out, outPos;
      var rest := k;
      while j + rest >= ShareEnd(i)
        invariant out <= i < |list| && ShareStart(i) == j <= ShareEnd(i)
        invariant 0 <= rest && Offset(list, i) + j + rest == InEnd() + k
        decreases |list| - i
      {
        NextElement(i);
        rest := rest - (ShareEnd(i) - j);
        i, j := i + 1, 0;
      }
      j := j + rest;
    }

    /** The size of the output sequence. */
    function OutputSize(): (n: nat)
      requires Valid()
      reads this
      ensures n == |Writable()|
    {
      Views();
      OutEnd() - InEnd()
    }

    /** A caller's write of some bytes from position at of the output sequence on,
        cut off at its end. */
    method Write(at: nat, data: seq<Byte>)
      requires Valid()
      modifies this`list
      ensures Valid() && Contents() == old(Contents())
      ensures Writable() == ByteQueue.Overwritten(old(Writable()), at, data)
    {
      hide Flatten, Offset, Contents, Writable, Between, Valid, InEnd, OutEnd, ShareStart, ShareEnd, OutputSize;
      hide Spliced, ByteQueue.Overwritten;
      ghost var output := Writable();
      SplicedEnds(output, at, data);
      var start := Min(at, OutputSize());
      var count := Min(|data|, OutputSize() - start);
      for k := 0 to count
        invariant Valid() && Contents() == old(Contents())
        invariant Writable() == Spliced(output, start, data, k)
      {
        SplicedNext(output, start, data, k);
        var i, j := Locate(start + k);
        Poke(i, j, data[k]);
      }
    }

    /** Any sequence of calls is one of the byte queue, and no prepare is refused. */
    method Run(calls: seq<ByteQueue.Call>) returns (ghost answers: seq<Option<seq<Byte>>>)
      requires Valid()
      modifies this
      ensures Valid() && |answers| == |calls|
      ensures ByteQueue.AllGranted(calls, answers)
      ensures var q := ByteQueue.After(ByteQueue.Queue(old(Contents()), 0, old(Writable())), calls, answers);
              Contents() == q.Contents() && Writable() == q.output
    {
      hide Flatten, Offset, Contents, Writable, Between, Valid, ByteQueue.After, ByteQueue.Overwritten;
      ghost var start := ByteQueue.Queue(Contents(), 0, Writable());
      ghost var q := start;
      answers := [];
      ByteQueue.AfterNone(q);
      for i := 0 to |calls|
        invariant Valid() && |answers| == i && q == ByteQueue.After(start, calls[..i], answers)
        invariant Contents() == q.Contents() && Writable() == q.output
        invariant forall k :: 0 <= k < i ==>
                    ByteQueue.IsAnswer(calls[k], answers[k]) && (calls[k].Prepare? ==> answers[k].Some?)
      {
        ghost var answer := Do(calls[i], q);
        ByteQueue.AfterNext(start, calls[..i], answers, calls[i], answer);
        assert calls[..i + 1] == calls[..i] + [calls[i]];
        answers := answers + [answer];
        q := q.Next(calls[i], answer);
      }
      assert calls[..|calls|] == calls;
    }

    /** One call of a sequence. */
    method Do(call: ByteQueue.Call, ghost q: ByteQueue.Queue) returns (ghost answer: Option<seq<Byte>>)
      requires Valid() && q.Valid() && Contents() == q.Contents() && Writable() == q.output
      modifies this
      ensures Valid() && ByteQueue.IsAnswer(call, answer) && (call.Prepare? ==> answer.Some?)
      ensures Contents() == q.Next(call, answer).Contents() && Writable() == q.Next(call, answer).output
    {
      hide Flatten, Offset, Contents, Writable, Between, Valid, ByteQueue.Overwritten, ByteQueue.Queue.Contents;
      answer := None;
      match call {
        case Prepare(n) =>
          Prepare(n);
          answer := Some(Writable());
        case Write(at, data) => Write(at, data);
        case Commit(n) => Commit(n);
        case Consume(n) => Consume(n);
        case Clear => Clear();
      }
      ByteQueue.ContentsNext(q, call, answer);
    }

    /** The bytes, as the list of buffers that data() walks. */
    method Data() returns (bs: seq<seq<Byte>>)
      requires Valid()
      ensures Flatten(bs) == Contents()
    {
      hide Flatten, Contents, Offset;
      bs := [];
      var it := 0;
      var end := if out == |list| then |list| else out + 1;
      Views();
      DataStart(bs);
      OffsetEnds(list);
      while it != end
        invariant it <= end
        invariant inPos <= DataEnd(it) <= |Flatten(list)|
        invariant Flatten(bs) == Between(list, inPos, DataEnd(it))
        decreases end - it
      {
        var size := if out == |list| || it != out then |list[it]| else outPos;
        var skip := if it == 0 then inPos else 0;
        DataNext(bs, it, skip, size);
        bs := bs + [list[it][skip..size]];
        it := it + 1;
      }
    }

    /** Where the bytes of the first it buffers of data() end. */
    ghost function DataEnd(it: nat): nat
      requires out <= |list| && it <= |list| && it <= out + 1
      reads this
    {
      if it == 0 then inPos else if it == out + 1 then InEnd() else Offset(list, it)
    }

    lemma DataStart(bs: seq<seq<Byte>>)
      requires Valid() && bs == []
      ensures inPos <= |Flatten(list)| && Flatten(bs) == Between(list, inPos, inPos)
    {
      Bounds();
    }

    lemma DataNext(bs: seq<seq<Byte>>, it: nat, skip: nat, size: nat)
      requires Valid() && it < |list| && it <= out
      requires size == (if out == |list| || it != out then |list[it]| else outPos)
      requires skip == (if it == 0 then inPos else 0)
      requires inPos <= DataEnd(it) <= |Flatten(list)|
      requires Flatten(bs) == Between(list, inPos, DataEnd(it))
      ensures skip <= size <= |list[it]|
      ensures inPos <= DataEnd(it + 1) <= |Flatten(list)|
      ensures Flatten(bs + [list[it][skip..size]]) == Between(list, inPos, DataEnd(it + 1))
    {
      hide Flatten, Offset, Between;
      Bounds();
      OffsetEnds(list);
      OffsetNext(list, it);
      OffsetBound(list, it + 1, |list|);
      OffsetBound(list, 0, it);
      if 0 < it { OffsetNext(list, 0); OffsetBound(list, 1, it); }
      FlattenSnoc(bs, list[it][skip..size]);
      PartOfElement(list, it, skip, size);
      BetweenJoin(list, inPos, Offset(list, it) + skip, Offset(list, it) + size);
    }

    method Clear()
      requires Valid()
      modifies this
      ensures Valid() && Contents() == [] && Writable() == []
    {
      list := [];
      out, inSize, inPos, outPos, outEnd := 0, 0, 0, 0, 0;
    }

    method Capacity() returns (n: nat)
      requires Valid()
      ensures n == inSize + if out < |list| then |Flatten(list)| - InEnd() else 0
    {
      hide Flatten, Offset;
      OffsetEnds(list);
      var pos := out;
      if pos == |list| {
        return inSize;
      }
      OffsetNext(list, out);
      n := |list[pos]| - outPos;
      pos := pos + 1;
      while pos != |list|
        invariant out < pos <= |list|
        invariant n == Offset(list, pos) - InEnd()
        decreases |list| - pos
      {
        OffsetNext(list, pos);
        n := n + |list[pos]|;
        pos := pos + 1;
      }
      n := inSize + n;
    }
  }

  lemma PartOfElement(list: seq<seq<Byte>>, i: nat, a: nat, b: nat)
    requires i < |list| && a <= b <= |list[i]|
    ensures Offset(list, i) + |list[i]| <= |Flatten(list)|
    ensures Between(list, Offset(list, i) + a, Offset(list, i) + b) == list[i][a..b]
  {
    hide Flatten, Offset;
    ElementAt(list, i);
    var here := Offset(list, i);
    SliceOfSlice(Flatten(list), here, here + |list[i]|, a, b);
  }

  lemma BetweenUpdate(list: seq<seq<Byte>>, now: seq<seq<Byte>>, p: nat, x: Byte, a: nat, b: nat, c: nat)
    requires p < |Flatten(list)| && Flatten(now) == Flatten(list)[p := x]
    requires a <= b <= p < c <= |Flatten(list)|
    ensures Between(now, a, b) == Between(list, a, b)
    ensures Between(now, b, c) == Between(list, b, c)[p - b := x]
  {
  }

  lemma ElementAt(list: seq<seq<Byte>>, i: nat)
    requires i < |list|
    ensures Offset(list, i) + |list[i]| <= |Flatten(list)|
    ensures Flatten(list)[Offset(list, i)..Offset(list, i) + |list[i]|] == list[i]
  {
    FlattenSplit(list, i + 1);
    FlattenTake(list, i);
  }

  lemma PrefixNext(s: seq<Byte>, data: seq<Byte>, k: nat)
    requires k < |data| == |s| && s[..k] == data[..k]
    ensures s[k := data[k]][..k + 1] == data[..k + 1]
  {
    assert s[k := data[k]][..k + 1] == s[..k] + [data[k]];
  }

  /** The first k bytes of a write done. */
  function Spliced(output: seq<Byte>, start: nat, data: seq<Byte>, k: nat): (r: seq<Byte>)
    requires k <= |data| && start + k <= |output|
    ensures |r| == |output|
  {
    output[..start] + data[..k] + output[start + k..]
  }

  lemma SplicedEnds(output: seq<Byte>, at: nat, data: seq<Byte>)
    ensures var start := Min(at, |output|);
            && Spliced(output, start, data, 0) == output
            && Spliced(output, start, data, Min(|data|, |output| - start)) == ByteQueue.Overwritten(output, at, data)
  {
  }

  lemma SplicedNext(output: seq<Byte>, start: nat, data: seq<Byte>, k: nat)
    requires k < |data| && start + k < |output|
    ensures Spliced(output, start, data, k)[start + k := data[k]] == Spliced(output, start, data, k + 1)
  {
  }

  lemma DropTwice(s: seq<Byte>, a: nat, b: nat)
    requires a + b <= |s|
    ensures s[a..][b..] == s[a + b..]
  {
  }

  lemma SliceOfFront(s: seq<Byte>, more: seq<Byte>, a: nat, b: nat)
    ensures a <= b <= |s| ==> (s + more)[a..b] == s[a..b]
  {
  }

  lemma PokedList(list: seq<seq<Byte>>, i: nat, j: nat, x: Byte)
    requires i < |list| && j < |list[i]|
    ensures Offset(list, i) + j < |Flatten(list)|
    ensures Flatten(list[i := list[i][j := x]]) == Flatten(list)[Offset(list, i) + j := x]
  {
    hide Flatten;
    var now := list[i := list[i][j := x]];
    FlattenSplit(list, i + 1);
    FlattenTake(list, i);
    FlattenSplit(now, i + 1);
    FlattenTake(now, i);
    assert now[..i] == list[..i] && now[i + 1..] == list[i + 1..];
    UpdateMiddle(Flatten(list[..i]), list[i], Flatten(list[i + 1..]), j, x);
  }

  /** Positions depend only on the sizes of the elements. */
  lemma {:induction false} SameOffset(list: seq<seq<Byte>>, now: seq<seq<Byte>>, k: nat)
    requires k <= |list| == |now| && forall i :: 0 <= i < |list| ==> |now[i]| == |list[i]|
    ensures Offset(now, k) == Offset(list, k)
  {
    hide Offset;
    OffsetEnds(list);
    OffsetEnds(now);
    if k > 0 {
      SameOffset(list, now, k - 1);
      OffsetNext(list, k - 1);
      OffsetNext(now, k - 1);
    }
  }

  lemma UpdateMiddle(a: seq<Byte>, e: seq<Byte>, b: seq<Byte>, j: nat, x: Byte)
    requires j < |e|
    ensures a + e[j := x] + b == (a + e + b)[|a| + j := x]
  {
  }
}
