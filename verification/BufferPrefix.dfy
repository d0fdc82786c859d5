/** The shortened buffer sequence, include/beast/core/detail/buffer_prefix.hpp.
    A buffer is modelled by the bytes it refers to. */
module BufferPrefix {
  import opened Bytes
  import opened Sequences

  /** buffer_prefix for a single buffer. */
  function Prefix(n: nat, b: seq<Byte>): (r: seq<Byte>) {
    b[..Min(n, |b|)]
  }

  /** The sequence's total size in bytes. */
  function TotalSize(bs: seq<seq<Byte>>): nat { |Flatten(bs)| }

  lemma TotalNext(bs: seq<seq<Byte>>, i: nat)
    requires i < |bs|
    ensures TotalSize(bs[..i + 1]) == TotalSize(bs[..i]) + |bs[i]|
  {
    FlattenTake(bs, i);
  }

  lemma TotalGrows(bs: seq<seq<Byte>>, i: nat)
    requires i <= |bs|
    ensures TotalSize(bs[..i]) <= TotalSize(bs)
    ensures Flatten(bs)[..TotalSize(bs[..i])] == Flatten(bs[..i])
  {
    FlattenSplit(bs, i);
  }

  /** A buffer sequence object: iterators point into one particular copy. */
  class BufferList {
    const items: seq<seq<Byte>>
    constructor (items: seq<seq<Byte>>)
      ensures this.items == items
    {
      this.items := items;
    }
  }

  /** A position in one buffer sequence object. */
  datatype Iterator = Iterator(list: BufferList, pos: nat)

  class Helper {
    var bs: BufferList
    var back: Iterator
    var end: Iterator
    var size: nat

    /** Both iterators belong to this object's own sequence; back is the last
        buffer of the view, unless the whole sequence is shorter than asked. */
    ghost predicate Valid()
      reads this
    {
      && back.list == bs && end.list == bs
      && end.pos <= |bs.items|
      && (back.pos + 1 == end.pos || back.pos == end.pos == |bs.items|)
    }

    /** const_iterator::operator* */
    function Deref(it: Iterator): seq<Byte>
      requires it.pos < |it.list.items|
      reads this
    {
      if it == back then Prefix(size, it.list.items[it.pos]) else it.list.items[it.pos]
    }

    /** The buffers that begin() to end() shows. */
    ghost function View(): (v: seq<seq<Byte>>)
      requires Valid()
      reads this
      ensures |v| == end.pos
    {
      seq(end.pos, i requires 0 <= i < end.pos <= |bs.items| reads this => Deref(Iterator(bs, i)))
    }

    method Setup(n0: nat)
      modifies this`back, this`end, this`size
      ensures Valid()
      ensures IsPrefixView(View(), bs.items, n0)
    {
      var n := n0;
      end := Iterator(bs, 0);
      while end.pos != |bs.items|
        invariant end.list == bs && end.pos <= |bs.items|
        invariant n + TotalSize(bs.items[..end.pos]) == n0
        invariant end.pos > 0 ==> n > 0
        decreases |bs.items| - end.pos
      {
        var len := |bs.items[end.pos]|;
        TotalNext(bs.items, end.pos);
        if n <= len {
          size := n;
          back := end;
          end := Iterator(bs, end.pos + 1);
          ShortView(View(), bs.items, n0, size);
          return;
        }
        n := n - len;
        end := Iterator(bs, end.pos + 1);
      }
      size := 0;
      back := end;
      assert View() == bs.items;
      assert bs.items[..|bs.items|] == bs.items;
      WholeView(bs.items, n0);
    }

    constructor (n: nat, items: seq<seq<Byte>>)
      ensures Valid() && bs.items == items && IsPrefixView(View(), items, n)
      ensures fresh(bs)
    {
      bs := new BufferList(items);
      back := Iterator(bs, 0);
      end := Iterator(bs, 0);
      size := 0;
      new;
      Setup(n);
    }

    /** The copy constructor: positions are measured in the other sequence and
        stepped off in the own copy. */
    constructor Copy(other: Helper)
      requires other.Valid()
      ensures Valid() && View() == other.View()
      ensures fresh(bs) && bs.items == other.bs.items
    {
      var nback := other.back.pos;
      var nend := other.end.pos;
      bs := new BufferList(other.bs.items);
      back := Iterator(bs, nback);
      end := Iterator(bs, nend);
      size := other.size;
      new;
      assert View() == other.View();
    }

    /** The move constructor; what is left in the other's sequence is a value
        that no iterator into it is used with. */
    constructor Move(other: Helper)
      requires other.Valid()
      modifies other`bs
      ensures Valid() && View() == old(other.View())
    {
      var nback := other.back.pos;
      var nend := other.end.pos;
      bs := new BufferList(other.bs.items);
      back := Iterator(bs, nback);
      end := Iterator(bs, nend);
      size := other.size;
      new;
      assert View() == other.View();
      other.bs := new BufferList([]);
      assert View() == old(other.View());
    }

    /** Copy assignment, also from itself. */
    method Assign(other: Helper)
      requires other.Valid() && Valid()
      modifies this
      ensures Valid() && View() == old(other.View())
    {
      ghost var shown := other.View();
      var nback := other.back.pos;
      var nend := other.end.pos;
      var nsize := other.size;
      bs := new BufferList(other.bs.items);
      back := Iterator(bs, nback);
      end := Iterator(bs, nend);
      size := nsize;
      assert View() == shown;
    }

    /** Move assignment from another object, of which again the sequence is lost. */
    method AssignMoved(other: Helper)
      requires other.Valid() && other != this
      modifies this, other`bs
      ensures Valid() && View() == old(other.View())
      ensures bs.items == old(other.bs.items)
    {
      ghost var shown := other.View();
      var nback := other.back.pos;
      var nend := other.end.pos;
      bs := new BufferList(other.bs.items);
      back := Iterator(bs, nback);
      end := Iterator(bs, nend);
      size := other.size;
      assert View() == shown;
      other.bs := new BufferList([]);
      assert View() == shown;
    }

    /** Walking from begin() to end() and collecting the bytes. */
    method Collect() returns (bytes: seq<Byte>)
      requires Valid()
      ensures bytes == Flatten(View())
    {
      bytes := [];
      var it := Iterator(bs, 0);
      while it != end
        invariant it.list == bs && it.pos <= end.pos
        invariant bytes == Flatten(View()[..it.pos])
        decreases end.pos - it.pos
      {
        FlattenTake(View(), it.pos);
        bytes := bytes + Deref(it);
        it := Iterator(it.list, it.pos + 1);
      }
      assert View()[..end.pos] == View();
    }
  }

  // ---- what the view is ----

  /** The bytes are the first n, and no fewer leading buffers would do: none of
      an empty sequence, otherwise one for n = 0, otherwise the least number of
      buffers that reaches n, or all of them. */
  ghost predicate IsPrefixView(view: seq<seq<Byte>>, bs: seq<seq<Byte>>, n: nat) {
    && |view| <= |bs|
    && Flatten(view) == Flatten(bs)[..Min(n, TotalSize(bs))]
    && (|bs| > 0 ==> |view| > 0)
    && (|view| > 1 ==> TotalSize(bs[..|view| - 1]) < n)
    && (|view| < |bs| ==> n <= TotalSize(bs[..|view|]))
    && (forall i :: 0 <= i < |view| - 1 ==> view[i] == bs[i])
  }

  lemma ShortView(view: seq<seq<Byte>>, bs: seq<seq<Byte>>, n: nat, size: nat)
    requires 0 < |view| <= |bs|
    requires TotalSize(bs[..|view| - 1]) + size == n && size <= |bs[|view| - 1]|
    requires |view| > 1 ==> size > 0
    requires view[..|view| - 1] == bs[..|view| - 1] && view[|view| - 1] == bs[|view| - 1][..size]
    ensures IsPrefixView(view, bs, n)
  {
    var k := |view| - 1;
    TotalNext(bs, k);
    TotalGrows(bs, k + 1);
    FlattenTake(bs, k);
    FlattenTake(view, k);
    assert view[..k + 1] == view;
    assert Flatten(bs)[..n] == Flatten(bs)[..TotalSize(bs[..k + 1])][..n];
  }

  lemma WholeView(bs: seq<seq<Byte>>, n: nat)
    requires |bs| > 0 ==> TotalSize(bs) < n
    ensures IsPrefixView(bs, bs, n)
  {
    if |bs| > 0 {
      TotalGrows(bs, |bs| - 1);
    }
  }

  /** A prefix of a prefix has the bytes of the shorter of the two. */
  lemma PrefixOfPrefix(inner: seq<seq<Byte>>, outer: seq<seq<Byte>>, bs: seq<seq<Byte>>, m: nat, n: nat)
    requires IsPrefixView(inner, bs, n) && IsPrefixView(outer, inner, m)
    ensures Flatten(outer) == Flatten(bs)[..Min(Min(m, n), TotalSize(bs))]
  {
  }

  /** Those properties leave no choice. */
  lemma PrefixViewIsUnique(v: seq<seq<Byte>>, w: seq<seq<Byte>>, bs: seq<seq<Byte>>, n: nat)
    requires IsPrefixView(v, bs, n) && IsPrefixView(w, bs, n)
    ensures v == w
  {
    hide Flatten;
    if |v| < |w| {
      PrefixTotals(bs, |v|, |w| - 1);
    } else if |w| < |v| {
      PrefixTotals(bs, |w|, |v| - 1);
    }
    var k := |v|;
    if k > 0 {
      FlattenTake(v, k - 1);
      FlattenTake(w, k - 1);
      assert v[..k] == v && w[..k] == w;
      assert v[..k - 1] == w[..k - 1];
      SameTail(Flatten(v[..k - 1]), v[k - 1], w[k - 1]);
      assert v == v[..k - 1] + [v[k - 1]] && w == w[..k - 1] + [w[k - 1]];
    }
  }

  lemma SameTail(a: seq<Byte>, x: seq<Byte>, y: seq<Byte>)
    requires a + x == a + y
    ensures x == y
  {
    assert (a + x)[|a|..] == x && (a + y)[|a|..] == y;
  }

  lemma PrefixTotals(bs: seq<seq<Byte>>, i: nat, j: nat)
    requires i <= j <= |bs|
    ensures TotalSize(bs[..i]) <= TotalSize(bs[..j])
  {
    TotalGrows(bs[..j], i);
    assert bs[..j][..i] == bs[..i];
  }
}
