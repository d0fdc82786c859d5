/** string_body::reader, include/beast/http/string_body.hpp. */
module StringBody {
  import opened Bytes
  import opened Options
  import opened Power
  import opened Sequences

  /** std::string::resize: cut, or fill up with zeros. */
  function Resized(s: seq<Byte>, n: nat): (r: seq<Byte>)
    ensures |r| == n
    ensures forall k :: 0 <= k < n ==> r[k] == if k < |s| then s[k] else 0
  {
    if n <= |s| then s[..n] else s + seq(n - |s|, _ => 0)
  }

  /** What a parser does with the reader: prepare room, write some bytes at an
      offset of the room, or commit. */
  datatype Op = Prepare(n: nat) | Write(at: nat, data: seq<Byte>) | Commit(m: nat)

  /** The committed bytes and the room, without the string they share. */
  datatype Session = Session(committed: seq<Byte>, room: seq<Byte>) {
    /** A write has to stay inside the room. */
    predicate Allows(op: Op) {
      op.Write? ==> op.at + |op.data| <= |room|
    }

    function Next(op: Op): Session
      requires Allows(op)
    {
      match op
      case Prepare(n) => Session(committed, Resized(room, n))
      case Write(at, data) => Session(committed, room[..at] + data + room[at + |data|..])
      case Commit(m) => Session(committed + room[..Min(m, |room|)], [])
    }
  }

  /** The session after a run, or None when a write leaves the room. */
  function After(start: Session, ops: seq<Op>): Option<Session> {
    if |ops| == 0 then Some(start)
    else
      match After(start, ops[..|ops| - 1])
      case None => None
      case Some(s) => if s.Allows(ops[|ops| - 1]) then Some(s.Next(ops[|ops| - 1])) else None
  }

  lemma AfterNext(start: Session, ops: seq<Op>, i: nat)
    requires i < |ops|
    ensures After(start, ops[..i]).None? ==> After(start, ops[..i + 1]).None?
    ensures After(start, ops[..i]).Some? ==>
              After(start, ops[..i + 1]) ==
              var s := After(start, ops[..i]).value;
              if s.Allows(ops[i]) then Some(s.Next(ops[i])) else None
  {
    assert ops[..i + 1][..i] == ops[..i];
  }

  /** Committed bytes are never altered: they only grow at the end. */
  lemma {:induction false} CommittedOnlyGrows(start: Session, ops: seq<Op>, i: nat)
    requires i <= |ops| && After(start, ops).Some?
    ensures After(start, ops[..i]).Some? && After(start, ops[..i]).value.committed <= After(start, ops).value.committed
    decreases |ops| - i
  {
    if i == |ops| {
      assert ops[..i] == ops;
    } else {
      CommittedOnlyGrows(start, ops, i + 1);
      AfterNext(start, ops, i);
    }
  }

  // ---- rounds ----

  /** A prepare whose room is written to in part but never committed. */
  datatype Spare = Spare(n: nat, written: seq<Byte>) {
    function Ops(): seq<Op> { [Prepare(n), Write(0, written[..Min(n, |written|)])] }
  }

  /** A round: any number of spare prepares, then one that is filled and committed
      once. */
  datatype Round = Round(spares: seq<Spare>, data: seq<Byte>, m: nat) {
    function Ops(): seq<Op> { SpareOps(spares) + [Prepare(|data|), Write(0, data), Commit(m)] }

    /** The first min(m, n) bytes filled. */
    function Kept(): seq<Byte> { data[..Min(m, |data|)] }
  }

  function SpareOps(spares: seq<Spare>): seq<Op> {
    if |spares| == 0 then [] else SpareOps(spares[..|spares| - 1]) + spares[|spares| - 1].Ops()
  }

  function RoundOps(rounds: seq<Round>): seq<Op> {
    if |rounds| == 0 then [] else RoundOps(rounds[..|rounds| - 1]) + rounds[|rounds| - 1].Ops()
  }

  /** What all rounds keep, in order. */
  function Filled(rounds: seq<Round>): seq<Byte> {
    if |rounds| == 0 then []
    else Filled(rounds[..|rounds| - 1]) + rounds[|rounds| - 1].Kept()
  }

  lemma {:induction false} AfterAppend(start: Session, a: seq<Op>, b: seq<Op>)
    requires After(start, a).Some?
    ensures After(start, a + b) == After(After(start, a).value, b)
  {
    hide Session.Next, Session.Allows;
    if |b| == 0 {
      assert a + b == a;
    } else {
      var k := |b| - 1;
      AfterAppend(start, a, b[..k]);
      assert (a + b)[..|a + b| - 1] == a + b[..k];
    }
  }

  lemma {:induction false} SparesCommitNothing(s: Session, spares: seq<Spare>)
    ensures After(s, SpareOps(spares)).Some? && After(s, SpareOps(spares)).value.committed == s.committed
  {
    if |spares| > 0 {
      var k := |spares| - 1;
      SparesCommitNothing(s, spares[..k]);
      AfterAppend(s, SpareOps(spares[..k]), spares[k].Ops());
      var t := After(s, SpareOps(spares[..k])).value;
      AfterTwo(t, Prepare(spares[k].n), Write(0, spares[k].written[..Min(spares[k].n, |spares[k].written|)]));
    }
  }

  lemma AfterTwo(s: Session, a: Op, b: Op)
    requires s.Allows(a) && s.Next(a).Allows(b)
    ensures After(s, [a, b]) == Some(s.Next(a).Next(b))
  {
    assert [a, b][..1] == [a] && [a][..0] == [];
    assert After(s, [a]) == Some(s.Next(a));
  }

  lemma OneRound(s: Session, r: Round)
    ensures After(s, r.Ops()) == Some(Session(s.committed + r.Kept(), []))
  {
    hide After;
    SparesCommitNothing(s, r.spares);
    var t := After(s, SpareOps(r.spares)).value;
    var last := [Prepare(|r.data|), Write(0, r.data), Commit(r.m)];
    AfterAppend(s, SpareOps(r.spares), last);
    AfterTwo(t, Prepare(|r.data|), Write(0, r.data));
    AfterNext(t, last, 2);
    assert last[..2] == [Prepare(|r.data|), Write(0, r.data)] && last[..3] == last;
    var room := Resized(t.room, |r.data|);
    assert room[..0] + r.data + room[|r.data|..] == r.data;
  }

  lemma NoRounds(start: Session)
    ensures After(start, RoundOps([])) == Some(start) && Filled([]) == []
  {
  }

  lemma LastRound(rounds: seq<Round>)
    requires |rounds| > 0
    ensures var k := |rounds| - 1;
            && RoundOps(rounds) == RoundOps(rounds[..k]) + rounds[k].Ops()
            && Filled(rounds) == Filled(rounds[..k]) + rounds[k].Kept()
  {
  }

  /** Any run of rounds commits, behind what was committed, the first min(m, n)
      bytes filled in each round. */
  lemma {:induction false} RoundsCommitFilled(start: Session, rounds: seq<Round>)
    ensures After(start, RoundOps(rounds)) ==
            Some(Session(start.committed + Filled(rounds), if |rounds| == 0 then start.room else []))
  {
    hide *;
    if |rounds| == 0 {
      NoRounds(start);
      assert rounds == [] && start.committed + [] == start.committed;
    } else {
      var k := |rounds| - 1;
      RoundsCommitFilled(start, rounds[..k]);
      LastRound(rounds);
      var s := After(start, RoundOps(rounds[..k])).value;
      AfterAppend(start, RoundOps(rounds[..k]), rounds[k].Ops());
      OneRound(s, rounds[k]);
      var more := rounds[k].Kept();
      assert (start.committed + Filled(rounds[..k])) + more == start.committed + (Filled(rounds[..k]) + more);
    }
  }

  /** A reader over a body that may hold bytes already: any run of rounds and
      finish leave in the body the bytes filled and committed, and no others. */
  method ReadRounds(initial: seq<Byte>, rounds: seq<Round>) returns (body: seq<Byte>)
    ensures body == Filled(rounds)
  {
    hide After, Filled, RoundOps;
    var reader := new Reader(initial);
    RoundsCommitFilled(reader.State(), rounds);
    reader.Run(RoundOps(rounds));
    body := reader.body;
    assert [] + Filled(rounds) == Filled(rounds);
  }

  lemma SmallModulo(x: nat, m: nat)
    requires x < m
    ensures x % m == x
  {
  }

  class Reader {
    var body: seq<Byte>
    var len: nat

    ghost predicate Valid()
      reads this
    {
      len <= |body|
    }

    ghost function State(): Session
      requires Valid()
      reads this
    {
      Session(body[..len], body[len..])
    }

    /** The body may already hold bytes; they count as room. */
    constructor (body: seq<Byte>)
      ensures Valid() && State() == Session([], body)
    {
      this.body := body;
      this.len := 0;
    }

    /** None stands for the length_error, otherwise the size to reserve, for a
        size_t of the given width: the narrowing cast keeps the value whenever it
        is reached. The call changes no byte of the body. */
    method Init(contentLength: nat, bits: nat) returns (reserved: Option<nat>)
      requires contentLength < Pow(2, 64)
      ensures reserved == if contentLength < Pow(2, bits) then Some(contentLength) else None
      ensures bits >= 64 ==> reserved == Some(contentLength)
    {
      hide Pow;
      var max := Pow(2, bits) - 1;
      if bits >= 64 {
        PowExponentMonotone(2, 64, bits);
      }
      if contentLength > max {
        return None;
      }
      SmallModulo(contentLength, max + 1);
      reserved := Some(contentLength % (max + 1));
    }

    method Prepare(n: nat)
      requires Valid()
      modifies this
      ensures Valid() && State() == old(State()).Next(Op.Prepare(n))
      ensures |body| == len + n && len == old(len)
    {
      body := Resized(body, len + n);
      assert body[..len] == old(body)[..len];
      assert body[len..] == Resized(old(body)[len..], n);
    }

    /** The parser's write through the buffer that prepare returned. */
    method Write(at: nat, data: seq<Byte>)
      requires Valid() && at + |data| <= |body| - len
      modifies this
      ensures Valid() && State() == old(State()).Next(Op.Write(at, data))
    {
      body := body[..len + at] + data + body[len + at + |data|..];
      assert body[..len] == old(body)[..len];
      assert body[len..] == old(body)[len..][..at] + data + old(body)[len..][at + |data|..];
    }

    method Commit(n: nat)
      requires Valid()
      modifies this
      ensures Valid() && State() == old(State()).Next(Op.Commit(n))
    {
      if |body| > len + n {
        body := Resized(body, len + n);
      }
      len := |body|;
      assert body == old(body)[..old(len)] + old(body)[old(len)..][..Min(n, |old(body)| - old(len))];
    }

    method Finish()
      requires Valid()
      modifies this
      ensures Valid() && body == old(State()).committed && State() == Session(body, [])
    {
      body := Resized(body, len);
      assert body == old(body)[..len];
    }

    /** Any run of prepares, writes and commits ending in finish leaves in the
        body exactly the bytes committed. */
    method Run(ops: seq<Op>)
      requires Valid() && After(State(), ops).Some?
      modifies this
      ensures body == After(old(State()), ops).value.committed
    {
      ghost var start := State();
      assert ops[..|ops|] == ops;
      for i := 0 to |ops|
        invariant Valid() && After(start, ops[..i]) == Some(State())
      {
        CommittedOnlyGrows(start, ops, i + 1);
        AfterNext(start, ops, i);
        match ops[i] {
          case Prepare(n) => Prepare(n);
          case Write(at, data) => Write(at, data);
          case Commit(m) => Commit(m);
        }
      }
      Finish();
    }
  }
}
