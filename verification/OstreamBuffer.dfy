/** The stream buffer of include/beast/core/detail/ostream.hpp over a
    multi_buffer. */
module OstreamBuffer {
  import opened Bytes
  import opened Sequences
  import MB = MultiBuffer

  const MAX_SIZE: nat := 512

  /** read_size_helper for a multi_buffer. */
  method ReadSizeHelper(b: MB.Buffer, maxSize: nat) returns (n: nat)
    requires b.Valid() && maxSize >= 1
    ensures 1 <= n <= maxSize
    ensures b.Room() > 0 ==> n <= b.Room() && (n == b.Room() || n == maxSize)
    ensures b.Room() == 0 ==> n == maxSize || (n < maxSize && n >= 512 && n >= b.allocSize && n in {512, b.allocSize})
  {
    hide Flatten, MB.Offset, MB.Between;
    b.Views();
    b.RoomEnds();
    var capacity := b.Capacity();
    var avail := capacity - b.Size();
    if avail > 0 {
      return Min(avail, maxSize);
    }
    if b.allocSize > 512 {
      return Min(maxSize, b.allocSize);
    }
    return Min(maxSize, 512);
  }

  /** What a stream does to its buffer. */
  datatype Op = Put(ch: Byte) | Sync

  /** The characters that a run of operations writes. */
  function Characters(ops: seq<Op>): seq<Byte> {
    if |ops| == 0 then []
    else Characters(ops[..|ops| - 1]) + (match ops[|ops| - 1] case Put(ch) => [ch] case Sync => [])
  }

  class OstreamBuffer {
    const buf: MB.Buffer
    /** pptr() - pbase() */
    var count: nat
    /** epptr() - pbase() */
    var limit: nat

    /** The put area is the first output buffer less its last byte. */
    ghost predicate Valid()
      reads this, buf
    {
      buf.Valid() && limit + 1 == buf.FirstLength() && count <= limit
    }

    /** Committed bytes, then the characters waiting in the put area. */
    ghost function Written(): seq<Byte>
      requires Valid()
      reads this, buf
    {
      buf.Contents() + buf.Writable()[..count]
    }

    constructor (buf: MB.Buffer)
      requires buf.Valid()
      modifies buf
      ensures Valid() && this.buf == buf && Written() == old(buf.Contents())
    {
      this.buf := buf;
      this.count := 0;
      this.limit := 0;
      new;
      Prepare();
    }

    method Prepare()
      requires buf.Valid()
      modifies this`count, this`limit, buf
      ensures Valid() && count == 0 && Written() == buf.Contents() == old(buf.Contents())
      ensures limit < 512
      ensures old(buf.Room()) == 0 && buf.allocSize <= 512 ==> limit == 511
    {
      hide MB.Buffer.Contents, MB.Buffer.Writable, MB.Buffer.Room;
      buf.RoomEnds();
      var n := ReadSizeHelper(buf, MAX_SIZE);
      buf.Prepare(n);
      count, limit := 0, buf.FirstLength() - 1;
      assert buf.Contents() + buf.Writable()[..0] == buf.Contents();
    }

    method Flush(extra: nat)
      requires buf.Valid() && count + extra <= |buf.Writable()|
      modifies buf
      ensures buf.Valid() && buf.Contents() == old(buf.Contents()) + old(buf.Writable())[..count + extra]
    {
      buf.Commit(count + extra);
    }

    /** *(pbase() + k) = ch */
    method Assign(k: nat, ch: Byte)
      requires buf.Valid() && k < buf.FirstLength()
      modifies buf
      ensures buf.Valid() && buf.Contents() == old(buf.Contents())
      ensures k < |old(buf.Writable())| && buf.Writable() == old(buf.Writable())[k := ch]
      ensures buf.FirstLength() == old(buf.FirstLength())
    {
      hide MB.Buffer.Contents, MB.Buffer.Writable, Flatten, MB.Offset;
      buf.Poke(buf.out, buf.outPos + k, ch);
    }

    /** overflow(ch) for a character: it goes to the byte kept free. */
    method Overflow(ch: Byte) returns (r: Byte)
      requires Valid()
      modifies this`count, this`limit, buf
      ensures Valid() && Written() == old(Written()) + [ch] && r == ch
      ensures count == 0
    {
      hide MB.Buffer.Contents, MB.Buffer.Writable;
      Assign(count, ch);
      assert buf.Writable()[..count + 1] == old(buf.Writable()[..count]) + [ch];
      Flush(1);
      Prepare();
      r := ch;
    }

    method Sync()
      requires Valid()
      modifies this`count, this`limit, buf
      ensures Valid() && Written() == old(Written()) && buf.Contents() == Written()
    {
      Flush(0);
      Prepare();
    }

    /** What std::basic_streambuf::sputc does with the put area. */
    method Sputc(ch: Byte)
      requires Valid()
      modifies this`count, this`limit, buf
      ensures Valid() && Written() == old(Written()) + [ch]
    {
      hide MB.Buffer.Contents, MB.Buffer.Writable;
      if count < limit {
        Assign(count, ch);
        assert buf.Writable()[..count + 1] == old(buf.Writable()[..count]) + [ch];
        count := count + 1;
      } else {
        var _ := Overflow(ch);
      }
    }

    /** Any run of writes and syncs appends the characters written; after a
        final sync they are all committed. */
    method Run(ops: seq<Op>)
      requires Valid()
      modifies this`count, this`limit, buf
      ensures Valid() && Written() == old(Written()) + Characters(ops)
      ensures |ops| > 0 && ops[|ops| - 1].Sync? ==> buf.Contents() == Written()
    {
      for i := 0 to |ops|
        invariant Valid() && Written() == old(Written()) + Characters(ops[..i])
        invariant i > 0 && ops[i - 1].Sync? ==> buf.Contents() == Written()
      {
        assert ops[..i + 1][..i] == ops[..i];
        match ops[i] {
          case Put(ch) => Sputc(ch);
          case Sync => Sync();
        }
      }
      assert ops[..|ops|] == ops;
    }
  }

  /** A stream opened on a buffer, written to and destroyed. */
  method WriteThrough(buf: MB.Buffer, ops: seq<Op>)
    requires buf.Valid()
    modifies buf
    ensures buf.Valid() && buf.Contents() == old(buf.Contents()) + Characters(ops)
  {
    var os := new OstreamBuffer(buf);
    os.Run(ops);
    os.Sync();
  }
}
