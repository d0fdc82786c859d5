/** What every dynamic buffer is for: a queue of bytes. */
module ByteQueue {
  import opened Bytes
  import opened Options
  import opened Sequences

  /** One use of a dynamic buffer: prepare room for some data, fill it and
      commit m bytes of it, or consume n bytes. */
  datatype Use = Append(data: seq<Byte>, m: nat) | Drop(n: nat)

  function Step(q: seq<Byte>, use: Use): seq<Byte> {
    match use
    case Append(data, m) => q + data[..Min(m, |data|)]
    case Drop(n) => q[Min(n, |q|)..]
  }

  function Run(q: seq<Byte>, uses: seq<Use>): seq<Byte> {
    if |uses| == 0 then q else Step(Run(q, uses[..|uses| - 1]), uses[|uses| - 1])
  }

  /** Every byte committed by the run, in order. */
  function Committed(uses: seq<Use>): seq<Byte> {
    if |uses| == 0 then []
    else
      Committed(uses[..|uses| - 1]) +
      (match uses[|uses| - 1] case Append(data, m) => data[..Min(m, |data|)] case Drop(_) => [])
  }

  /** How many bytes the run really removes. */
  function Removed(q: seq<Byte>, uses: seq<Use>): nat {
    if |uses| == 0 then 0
    else
      Removed(q, uses[..|uses| - 1]) +
      (match uses[|uses| - 1] case Append(_, _) => 0 case Drop(n) => Min(n, |Run(q, uses[..|uses| - 1])|))
  }

  /** Nothing is lost, duplicated or reordered: what is left after any run is
      all that was there or committed, less the bytes removed from the front. */
  lemma {:induction false} Conservation(q: seq<Byte>, uses: seq<Use>)
    ensures Removed(q, uses) <= |q + Committed(uses)|
    ensures Run(q, uses) == (q + Committed(uses))[Removed(q, uses)..]
  {
    if |uses| == 0 {
      assert q + [] == q;
    } else {
      var before := uses[..|uses| - 1];
      Conservation(q, before);
      var r, all := Removed(q, before), q + Committed(before);
      match uses[|uses| - 1]
      case Append(data, m) =>
        var d := data[..Min(m, |data|)];
        assert q + (Committed(before) + d) == all + d;
        assert (all + d)[r..] == all[r..] + d;
      case Drop(n) =>
        assert q + (Committed(before) + []) == all;
        var k := Min(n, |all[r..]|);
        assert all[r..][k..] == all[r + k..];
    }
  }

  // ---- call by call ----

  /** The single calls. A write goes through the buffers that prepare returned. */
  datatype Call = Prepare(n: nat) | Write(at: nat, data: seq<Byte>) | Commit(n: nat) | Consume(n: nat) | Clear

  /** A write to the output sequence, cut off at its end. */
  function Overwritten(output: seq<Byte>, at: nat, data: seq<Byte>): (r: seq<Byte>)
    ensures |r| == |output|
  {
    var i := Min(at, |output|);
    var k := Min(|data|, |output| - i);
    output[..i] + data[..k] + output[i + k..]
  }

  /** Every byte committed since the buffer was last cleared, how many of them are
      consumed, and the output sequence. */
  datatype Queue = Queue(committed: seq<Byte>, consumed: nat, output: seq<Byte>) {
    predicate Valid() { consumed <= |committed| }

    function Contents(): seq<Byte>
      requires Valid()
    {
      committed[consumed..]
    }

    /** The queue after a call. A prepare is answered with what its room holds, or
        with None when it is refused, which changes nothing. */
    function Next(call: Call, answer: Option<seq<Byte>>): (q: Queue)
      requires Valid()
      ensures q.Valid()
    {
      match call
      case Prepare(_) => if answer.Some? then this.(output := answer.value) else this
      case Write(at, data) => this.(output := Overwritten(output, at, data))
      case Commit(n) =>
        var k := Min(n, |output|);
        Queue(committed + output[..k], consumed, output[k..])
      case Consume(n) => this.(consumed := consumed + Min(n, |committed| - consumed))
      case Clear => Queue([], 0, [])
    }
  }

  /** Whether room is answered to prepares alone, and in the size asked for. */
  predicate IsAnswer(call: Call, answer: Option<seq<Byte>>) {
    answer.Some? ==> call.Prepare? && |answer.value| == call.n
  }

  /** No prepare of a run is refused. */
  ghost predicate AllGranted(calls: seq<Call>, answers: seq<Option<seq<Byte>>>)
    requires |answers| == |calls|
  {
    forall i :: 0 <= i < |calls| ==> IsAnswer(calls[i], answers[i]) && (calls[i].Prepare? ==> answers[i].Some?)
  }

  function After(q: Queue, calls: seq<Call>, answers: seq<Option<seq<Byte>>>): (r: Queue)
    requires q.Valid() && |answers| == |calls|
    ensures r.Valid()
    decreases |calls|
  {
    if |calls| == 0 then q
    else
      var k := |calls| - 1;
      After(q, calls[..k], answers[..k]).Next(calls[k], answers[k])
  }

  lemma AfterNext(q: Queue, calls: seq<Call>, answers: seq<Option<seq<Byte>>>, call: Call, answer: Option<seq<Byte>>)
    requires q.Valid() && |answers| == |calls|
    ensures After(q, calls + [call], answers + [answer]) == After(q, calls, answers).Next(call, answer)
  {
    assert (calls + [call])[..|calls|] == calls && (answers + [answer])[..|calls|] == answers;
  }

  lemma {:induction false} AfterAppend(
    q: Queue, a: seq<Call>, b: seq<Call>, x: seq<Option<seq<Byte>>>, y: seq<Option<seq<Byte>>>)
    requires q.Valid() && |x| == |a| && |y| == |b|
    ensures After(q, a + b, x + y) == After(After(q, a, x), b, y)
    decreases |b|
  {
    hide Queue.Next;
    if |b| == 0 {
      assert a + b == a && x + y == x;
    } else {
      var k := |b| - 1;
      AfterAppend(q, a, b[..k], x, y[..k]);
      assert (a + b)[..|a + b| - 1] == a + b[..k];
      assert (x + y)[..|a + b| - 1] == x + y[..k];
    }
  }

  /** What a call does to the contents. */
  lemma ContentsNext(q: Queue, call: Call, answer: Option<seq<Byte>>)
    requires q.Valid()
    ensures var next := q.Next(call, answer);
            next.Contents() ==
              match call
              case Prepare(_) => q.Contents()
              case Write(_, _) => q.Contents()
              case Commit(n) => q.Contents() + q.output[..Min(n, |q.output|)]
              case Consume(n) => q.Contents()[Min(n, |q.Contents()|)..]
              case Clear => []
  {
  }

  function CallsOf(use: Use): seq<Call> {
    match use
    case Append(data, m) => [Prepare(|data|), Write(0, data), Commit(m)]
    case Drop(n) => [Consume(n)]
  }

  function AllCalls(uses: seq<Use>): seq<Call> {
    if |uses| == 0 then [] else AllCalls(uses[..|uses| - 1]) + CallsOf(uses[|uses| - 1])
  }

  /** A use, call by call, is a step of the queue if its prepare is granted. */
  lemma CallsAreStep(q: Queue, use: Use, answers: seq<Option<seq<Byte>>>)
    requires q.Valid() && |answers| == |CallsOf(use)|
    requires AllGranted(CallsOf(use), answers)
    ensures After(q, CallsOf(use), answers).Contents() == Step(q.Contents(), use)
  {
    hide After, Queue.Contents;
    AfterNone(q);
    match use
    case Append(data, m) =>
      var a, b, c := Prepare(|data|), Write(0, data), Commit(m);
      assert CallsOf(use) == [a, b, c] && IsAnswer(a, answers[0]) && CallsOf(use)[0].Prepare?;
      ThreeCalls(q, a, b, c, answers);
      WholeWrite(answers[0].value, data);
      ContentsNext(q, a, answers[0]);
      ContentsNext(q.Next(a, answers[0]), b, answers[1]);
      ContentsNext(q.Next(a, answers[0]).Next(b, answers[1]), c, answers[2]);
    case Drop(n) =>
      AfterNext(q, [], [], Consume(n), answers[0]);
      assert CallsOf(use) == [] + [Consume(n)] && answers == [] + [answers[0]];
      ContentsNext(q, Consume(n), answers[0]);
  }

  lemma ThreeCalls(q: Queue, a: Call, b: Call, c: Call, answers: seq<Option<seq<Byte>>>)
    requires q.Valid() && |answers| == 3
    ensures After(q, [a, b, c], answers) == q.Next(a, answers[0]).Next(b, answers[1]).Next(c, answers[2])
  {
    hide *;
    var x, y, z := answers[0], answers[1], answers[2];
    AfterNone(q);
    AfterNext(q, [], [], a, x);
    AfterNext(q, [a], [x], b, y);
    AfterNext(q, [a, b], [x, y], c, z);
    assert [] + [a] == [a] && [a] + [b] == [a, b] && [a, b] + [c] == [a, b, c];
    assert [] + [x] == [x] && [x] + [y] == [x, y] && [x, y] + [z] == answers;
  }

  lemma WholeWrite(output: seq<Byte>, data: seq<Byte>)
    requires |output| == |data|
    ensures Overwritten(output, 0, data) == data
  {
  }

  /** So is any run of whole uses. */
  lemma {:induction false} CallsAreRun(q: Queue, uses: seq<Use>, answers: seq<Option<seq<Byte>>>)
    requires q.Valid() && |answers| == |AllCalls(uses)|
    requires AllGranted(AllCalls(uses), answers)
    ensures After(q, AllCalls(uses), answers).Contents() == Run(q.Contents(), uses)
    decreases |uses|
  {
    hide *;
    AfterNone(q);
    NoCalls();
    if |uses| == 0 {
      assert uses == [] && answers == [];
    } else {
      var before, last := uses[..|uses| - 1], uses[|uses| - 1];
      assert uses == before + [last];
      LastCalls(before, last);
      var n := |AllCalls(before)|;
      var x, y := answers[..n], answers[n..];
      assert answers == x + y;
      GrantedParts(AllCalls(before), CallsOf(last), x, y);
      CallsAreRun(q, before, x);
      AfterAppend(q, AllCalls(before), CallsOf(last), x, y);
      CallsAreStep(After(q, AllCalls(before), x), last, y);
    }
  }

  lemma NoCalls()
    ensures AllCalls([]) == []
    ensures forall q :: Run(q, []) == q
  {
  }

  lemma LastCalls(before: seq<Use>, last: Use)
    ensures AllCalls(before + [last]) == AllCalls(before) + CallsOf(last)
    ensures forall q :: Run(q, before + [last]) == Step(Run(q, before), last)
  {
    assert (before + [last])[..|before|] == before;
  }

  lemma GrantedParts(a: seq<Call>, b: seq<Call>, x: seq<Option<seq<Byte>>>, y: seq<Option<seq<Byte>>>)
    requires |x| == |a| && |y| == |b| && AllGranted(a + b, x + y)
    ensures AllGranted(a, x) && AllGranted(b, y)
  {
    hide IsAnswer;
    forall i | 0 <= i < |a|
      ensures IsAnswer(a[i], x[i]) && (a[i].Prepare? ==> x[i].Some?)
    {
      assert (a + b)[i] == a[i] && (x + y)[i] == x[i];
    }
    forall i | 0 <= i < |b|
      ensures IsAnswer(b[i], y[i]) && (b[i].Prepare? ==> y[i].Some?)
    {
      assert (a + b)[|a| + i] == b[i] && (x + y)[|a| + i] == y[i];
    }
  }

  lemma AfterNone(q: Queue)
    requires q.Valid()
    ensures After(q, [], []) == q
  {
  }
}
