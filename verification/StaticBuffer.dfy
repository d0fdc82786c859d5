/** The fixed-size dynamic buffer, include/beast/core/static_buffer.hpp and
    include/beast/core/impl/static_buffer.ipp. */
module StaticBuffer {
  import opened Bytes
  import opened Options
  import opened Sequences
  import opened ByteQueue

  /** The parts of the memory before and after a commit of k bytes. */
  lemma Split(s: seq<Byte>, i: nat, o: nat, l: nat, k: nat)
    requires i <= o && o + k <= l <= |s|
    ensures s[..o] + s[o..l][..k] == s[..o + k]
    ensures s[i..o] + s[o..l][..k] == s[i..o + k]
    ensures s[o..l][k..] == s[o + k..l]
  {
    SliceOfSlice(s, o, l, 0, k);
    SliceOfSlice(s, o, l, k, l - o);
    assert s[..o] + s[o..o + k] == s[..o + k];
    assert s[i..o] + s[o..o + k] == s[i..o + k];
  }

  /** The parts of the memory before and after a write. */
  lemma Splice(s: seq<Byte>, now: seq<Byte>, o: nat, l: nat, at: nat, bytes: seq<Byte>, start: nat, data: seq<Byte>)
    requires o <= l <= |s| == |now| && start == Min(at, l - o) && data == bytes[..Min(|bytes|, l - o - start)]
    requires forall k :: 0 <= k < |data| ==> now[o + start + k] == data[k]
    requires forall k :: 0 <= k < |s| && !(o + start <= k < o + start + |data|) ==> now[k] == s[k]
    ensures now[..o] == s[..o]
    ensures now[o..l] == Overwritten(s[o..l], at, bytes)
  {
    var was, part := s[o..l], now[o..l];
    assert part[..start] == was[..start];
    assert part[start + |data|..] == was[start + |data|..];
    forall k | 0 <= k < |data|
      ensures part[start..start + |data|][k] == data[k]
    {
      assert part[start + k] == now[o + start + k];
    }
    assert part[start..start + |data|] == data;
    assert part == part[..start] + part[start..start + |data|] + part[start + |data|..];
  }

  /** Call i is refused room exactly when it does not fit behind the bytes
      committed: consumed bytes still take up theirs. */
  predicate IsRight(q: Queue, calls: seq<Call>, answers: seq<Option<seq<Byte>>>, capacity: nat, i: nat)
    requires q.Valid() && i < |calls| == |answers|
  {
    calls[i].Prepare? ==>
      (answers[i].Some? <==> |After(q, calls[..i], answers[..i]).committed| + calls[i].n <= capacity)
  }

  lemma RightNext(
    q: Queue, calls: seq<Call>, answers: seq<Option<seq<Byte>>>, call: Call, answer: Option<seq<Byte>>, capacity: nat)
    requires q.Valid() && |answers| == |calls|
    requires call.Prepare? ==> (answer.Some? <==> |After(q, calls, answers).committed| + call.n <= capacity)
    ensures IsRight(q, calls + [call], answers + [answer], capacity, |calls|)
    ensures forall k :: 0 <= k < |calls| && IsRight(q, calls, answers, capacity, k) ==>
              IsRight(q, calls + [call], answers + [answer], capacity, k)
  {
    hide After;
    assert (calls + [call])[..|calls|] == calls && (answers + [answer])[..|calls|] == answers;
    forall k | 0 <= k < |calls| && IsRight(q, calls, answers, capacity, k)
      ensures IsRight(q, calls + [call], answers + [answer], capacity, k)
    {
      assert (calls + [call])[..k] == calls[..k] && (answers + [answer])[..k] == answers[..k];
    }
  }

  /** static_buffer_n: the pointers are indices into the member array, and
      begin_ is index 0. */
  class Buffer {
    const mem: array<Byte>
    var inn: nat
    var out: nat
    var last: nat
    var end: nat

    ghost predicate Valid()
      reads this
    {
      inn <= out <= last <= end == mem.Length
    }

    ghost function Contents(): seq<Byte>
      requires Valid()
      reads this, mem
    {
      mem[inn..out]
    }

    ghost function Writable(): seq<Byte>
      requires Valid()
      reads this, mem
    {
      mem[out..last]
    }

    ghost function State(): (q: Queue)
      requires Valid()
      reads this, mem
      ensures q.Valid() && q.Contents() == Contents()
    {
      Queue(mem[..out], inn, mem[out..last])
    }

    constructor (n: nat)
      ensures Valid() && fresh(mem) && mem.Length == n && State() == Queue([], 0, [])
    {
      mem := new Byte[n](_ => 0);
      inn, out, last, end := 0, 0, 0, n;
    }

    method Reset()
      modifies this
      ensures Valid() && State() == Queue([], 0, [])
    {
      inn, out, last, end := 0, 0, 0, mem.Length;
    }

    function Size(): (n: nat)
      requires Valid()
      reads this, mem
      ensures n == |Contents()|
    {
      out - inn
    }

    /** False stands for the length_error; nothing has changed then. */
    method Prepare(n: nat) returns (ok: bool)
      requires Valid()
      modifies this`last
      ensures Valid() && Contents() == old(Contents())
      ensures ok <==> |old(State()).committed| + n <= mem.Length
      ensures if ok then |Writable()| == n else Writable() == old(Writable())
    {
      if n > end - out {
        return false;
      }
      last := out + n;
      ok := true;
    }

    /** The caller's write to the output sequence from position at on, cut off at
        its end. */
    method Write(at: nat, data: seq<Byte>)
      requires Valid()
      modifies mem
      ensures Valid() && State() == old(State()).Next(Call.Write(at, data), None)
    {
      hide Overwritten;
      ghost var was := mem[..];
      var start := Min(at, last - out);
      var count := Min(|data|, last - out - start);
      forall k | 0 <= k < count {
        mem[out + start + k] := data[k];
      }
      Splice(was, mem[..], out, last, at, data, start, data[..count]);
    }

    method Commit(n: nat)
      requires Valid()
      modifies this`out
      ensures Valid() && State() == old(State()).Next(Call.Commit(n), None)
      ensures Contents() == old(Contents()) + old(Writable())[..Min(n, |old(Writable())|)]
    {
      Split(mem[..], inn, out, last, Min(n, last - out));
      out := out + Min(n, last - out);
    }

    method Consume(n: nat)
      requires Valid()
      modifies this`inn
      ensures Valid() && State() == old(State()).Next(Call.Consume(n), None)
      ensures Contents() == old(Contents())[Min(n, |old(Contents())|)..]
    {
      inn := inn + Min(n, out - inn);
    }

    /** One call. */
    method Do(call: Call) returns (answer: Option<seq<Byte>>)
      requires Valid()
      modifies this, mem
      ensures Valid() && IsAnswer(call, answer) && State() == old(State()).Next(call, answer)
      ensures call.Prepare? ==> (answer.Some? <==> |old(State()).committed| + call.n <= mem.Length)
    {
      answer := None;
      match call {
        case Prepare(n) =>
          var ok := Prepare(n);
          if ok {
            answer := Some(mem[out..last]);
          }
        case Write(at, data) => Write(at, data);
        case Commit(n) => Commit(n);
        case Consume(n) => Consume(n);
        case Clear => Reset();
      }
    }

    /** Any sequence of calls: the contents are the bytes committed since the last
        reset, in order, less those consumed; exactly the prepares that do not fit
        behind the bytes committed are refused, and change nothing. */
    method Run(calls: seq<Call>) returns (answers: seq<Option<seq<Byte>>>)
      requires Valid()
      modifies this, mem
      ensures Valid() && |answers| == |calls| && State() == After(old(State()), calls, answers)
      ensures forall i :: 0 <= i < |calls| ==>
                IsAnswer(calls[i], answers[i]) && IsRight(old(State()), calls, answers, mem.Length, i)
    {
      hide State, Valid, IsRight, IsAnswer, After, Queue.Next;
      ghost var start := State();
      answers := [];
      AfterNone(start);
      for i := 0 to |calls|
        invariant Valid() && |answers| == i && State() == After(start, calls[..i], answers)
        invariant forall k :: 0 <= k < i ==>
                    IsAnswer(calls[k], answers[k]) && IsRight(start, calls[..i], answers, mem.Length, k)
      {
        var answer := Do(calls[i]);
        RightNext(start, calls[..i], answers, calls[i], answer, mem.Length);
        AfterNext(start, calls[..i], answers, calls[i], answer);
        assert calls[..i + 1] == calls[..i] + [calls[i]];
        answers := answers + [answer];
      }
      assert calls[..|calls|] == calls;
    }
  }
}
