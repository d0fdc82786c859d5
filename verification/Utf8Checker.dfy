/** The incremental validator of include/beast/websocket/detail/utf8_checker.hpp. */
module Utf8Checker {
  import opened Bytes
  import opened Options
  import opened Rfc3629
  import opened Sequences

  // ---- the three helpers of write ----

  /** How many bytes the character led by b takes; 0 for a byte that leads none. */
  function Needed(b: Byte): nat {
    if b < 128 then 1
    else if b < 194 then 0
    else if b < 224 then 2
    else if b < 240 then 3
    else if b < 245 then 4
    else 0
  }

  /** How many bytes Accept may look at, from a lead byte. */
  function Span(b: Byte): nat {
    if b < 128 then 1
    else if b & 0x60 == 0x40 then 2
    else if b & 0xf0 == 0xe0 then 3
    else if b & 0xf8 == 0xf0 then 4
    else 1
  }

  /** The length of the character accepted at s[i], or 0. */
  function Accept(s: seq<Byte>, i: nat): (n: nat)
    requires i < |s| && i + Span(s[i]) <= |s|
  {
    if s[i] < 128 then 1
    else if s[i] & 0x60 == 0x40 then
      if s[i + 1] & 0xc0 != 0x80 then 0 else 2
    else if s[i] & 0xf0 == 0xe0 then
      if || s[i + 1] & 0xc0 != 0x80
         || s[i + 2] & 0xc0 != 0x80
         || (s[i] == 224 && s[i + 1] < 160)
         || (s[i] == 237 && s[i + 1] > 159)
      then 0 else 3
    else if s[i] & 0xf8 == 0xf0 then
      if || s[i] > 244
         || s[i + 1] & 0xc0 != 0x80
         || s[i + 2] & 0xc0 != 0x80
         || s[i + 3] & 0xc0 != 0x80
         || (s[i] == 240 && s[i + 1] < 144)
         || (s[i] == 244 && s[i + 1] > 143)
      then 0 else 4
    else 0
  }

  /** The early check of an incomplete character. */
  predicate ValidHave(have: seq<Byte>, size: nat)
    requires 1 <= size <= |have|
  {
    if have[0] & 0x60 == 0x40 then have[0] <= 223
    else if have[0] & 0xf0 == 0xe0 then
      !(size > 1 && (|| have[1] & 0xc0 != 0x80
                     || (have[0] == 224 && have[1] < 160)
                     || (have[0] == 237 && have[1] > 159)))
    else if have[0] & 0xf8 == 0xf0 then
      && !(size > 2 && have[2] & 0xc0 != 0x80)
      && !(size > 1 && (|| have[1] & 0xc0 != 0x80
                        || (have[0] == 240 && have[1] < 144)
                        || (have[0] == 244 && have[1] > 143)))
    else true
  }

  // ---- what the validator computes, on values ----

  /** 0xc0 and 0xc1 lead no character of RFC 3629. */
  predicate IsOverlongLead(b: Byte) { b == 0xc0 || b == 0xc1 }

  /** The text with every 0xc0 and 0xc1 replaced by 0xc2. */
  function Repair(s: seq<Byte>): (r: seq<Byte>)
    ensures |r| == |s|
  {
    seq(|s|, i requires 0 <= i < |s| => if IsOverlongLead(s[i]) then 0xc2 else s[i])
  }

  /** Whether a character may begin with x, which is shorter than that character. */
  predicate CanBegin(x: seq<Byte>)
    requires |x| > 0 && |x| < Needed(x[0])
  {
    && (|x| >= 2 ==>
          && IsTail(x[1])
          && (x[0] == 0xe0 ==> x[1] >= 0xa0) && (x[0] == 0xed ==> x[1] <= 0x9f)
          && (x[0] == 0xf0 ==> x[1] >= 0x90) && (x[0] == 0xf4 ==> x[1] <= 0x8f))
    && (|x| >= 3 ==> IsTail(x[2]))
  }

  /** The incomplete character at the end of s, or None when no text begins with s. */
  function Pending(s: seq<Byte>): (r: Option<seq<Byte>>)
    decreases |s|
  {
    if |s| == 0 then Some([])
    else
      var n := Needed(s[0]);
      if n == 0 then None
      else if n <= |s| then (if IsChar(s[..n]) then Pending(s[n..]) else None)
      else if CanBegin(s) then Some(s)
      else None
  }

  lemma CharLength(c: seq<Byte>)
    requires IsChar(c)
    ensures |c| > 0 && Needed(c[0]) == |c|
  {
  }

  lemma {:induction false} PendingAppend(s: seq<Byte>, t: seq<Byte>)
    ensures Pending(s).Some? ==> Pending(s + t) == Pending(Pending(s).value + t)
    ensures Pending(s).None? ==> Pending(s + t).None?
    decreases |s|
  {
    if |s| == 0 {
      assert s + t == t && Pending(s).value + t == t;
    } else {
      var n := Needed(s[0]);
      if 0 < n <= |s| {
        assert (s + t)[..n] == s[..n];
        assert (s + t)[n..] == s[n..] + t;
        PendingAppend(s[n..], t);
      } else if n > |s| && !CanBegin(s) {
        if n <= |s + t| && IsChar((s + t)[..n]) {
          assert (s + t)[..n][..|s|] == s;
          BeginsChar((s + t)[..n], |s|);
        }
      }
    }
  }

  lemma BeginsChar(c: seq<Byte>, k: nat)
    requires 0 < k < |c| && |c| == Needed(c[0]) && IsChar(c)
    ensures CanBegin(c[..k])
  {
  }

  lemma {:induction false} PendingIsText(s: seq<Byte>)
    ensures IsText(s) <==> Pending(s) == Some([])
    decreases |s|
  {
    if |s| > 0 {
      if IsText(s) {
        var n :| 1 <= n <= |s| && IsChar(s[..n]) && IsText(s[n..]);
        CharLength(s[..n]);
        PendingIsText(s[n..]);
      } else if Pending(s) == Some([]) {
        var n := Needed(s[0]);
        PendingIsText(s[n..]);
      }
    }
  }

  /** A completion of an incomplete character. */
  function Completion(x: seq<Byte>): (r: seq<Byte>)
    requires |x| > 0 && |x| < Needed(x[0])
  {
    if |x| >= 2 then [0x80, 0x80][..Needed(x[0]) - |x|]
    else if x[0] < 0xe0 then [0x80]
    else if x[0] < 0xf0 then [if x[0] == 0xe0 then 0xa0 else 0x80, 0x80]
    else [if x[0] == 0xf0 then 0x90 else 0x80, 0x80, 0x80]
  }

  lemma CompletionIsChar(x: seq<Byte>)
    requires |x| > 0 && |x| < Needed(x[0]) && CanBegin(x)
    ensures IsChar(x + Completion(x))
  {
  }

  lemma {:induction false} PendingTail(s: seq<Byte>)
    requires Pending(s).Some?
    ensures var x := Pending(s).value; |x| > 0 ==> |x| < Needed(x[0]) && CanBegin(x)
    decreases |s|
  {
    if |s| > 0 && Needed(s[0]) <= |s| {
      PendingTail(s[Needed(s[0])..]);
    }
  }

  /** Pending decides whether some text begins with s. */
  lemma PendingIsPrefix(s: seq<Byte>)
    ensures IsTextPrefix(s) <==> Pending(s).Some?
  {
    if IsTextPrefix(s) {
      var rest :| IsText(s + rest);
      PendingIsText(s + rest);
      PendingAppend(s, rest);
    }
    if Pending(s).Some? {
      PendingTail(s);
      var x := Pending(s).value;
      if |x| == 0 {
        PendingIsText(s);
        assert s + [] == s;
      } else {
        var rest := Completion(x);
        CompletionIsChar(x);
        CharLength(x + rest);
        PendingAppend(s, rest);
        assert (x + rest)[..|x + rest|] == x + rest;
        assert Pending(x + rest) == Some([]);
        PendingIsText(s + rest);
      }
    }
  }

  // ---- the bit tests against the grammar ----

  lemma ByteClasses(b: Byte)
    ensures b & 0xc0 == 0x80 <==> IsTail(b)
    ensures b >= 128 ==> (b & 0x60 == 0x40 <==> 0xc0 <= b <= 0xdf)
    ensures b & 0xf0 == 0xe0 <==> 0xe0 <= b <= 0xef
    ensures b & 0xf8 == 0xf0 <==> 0xf0 <= b <= 0xf7
  {
  }

  lemma AcceptMeansChar(s: seq<Byte>, i: nat)
    requires i < |s| && i + Span(s[i]) <= |s|
    ensures var n := Needed(Repair(s)[i]);
            if Accept(s, i) > 0 then Accept(s, i) == n && i + n <= |s| && IsChar(Repair(s)[i..i + n])
            else n == 0 || (i + n <= |s| && !IsChar(Repair(s)[i..i + n]))
  {
    var r, n := Repair(s), Needed(Repair(s)[i]);
    ByteClasses(s[i]);
    if 0 < n && i + n <= |s| {
      var c := r[i..i + n];
      assert c[0] == r[i];
      if n >= 2 { assert c[1] == r[i + 1]; ByteClasses(s[i + 1]); }
      if n >= 3 { assert c[2] == r[i + 2]; ByteClasses(s[i + 2]); }
      if n >= 4 { assert c[3] == r[i + 3]; ByteClasses(s[i + 3]); }
    }
  }

  lemma AcceptStep(s: seq<Byte>, i: nat)
    requires i < |s| && i + Span(s[i]) <= |s|
    ensures i + Accept(s, i) <= |s|
    ensures Pending(Repair(s)[i..]) ==
            if Accept(s, i) > 0 then Pending(Repair(s)[i + Accept(s, i)..]) else None
    ensures forall k :: i < k < i + Accept(s, i) ==> !IsOverlongLead(s[k])
  {
    hide Accept, Needed, IsChar, Pending, Repair;
    AcceptMeansChar(s, i);
    PendingFrom(Repair(s), i);
    if Accept(s, i) > 0 {
      TailsAreNotLeads(s, i, Accept(s, i));
    }
  }

  /** The text from i on, one character further. */
  lemma PendingFrom(r: seq<Byte>, i: nat)
    requires i < |r|
    ensures var n := Needed(r[i]);
            && (n == 0 ==> Pending(r[i..]) == None)
            && (0 < n && i + n <= |r| ==>
                  Pending(r[i..]) == if IsChar(r[i..i + n]) then Pending(r[i + n..]) else None)
  {
    hide Needed, IsChar, CanBegin;
    var n := Needed(r[i]);
    if i + n <= |r| {
      assert r[i..][..n] == r[i..i + n];
      assert r[i..][n..] == r[i + n..];
    }
  }

  lemma TailsAreNotLeads(s: seq<Byte>, i: nat, n: nat)
    requires i + n <= |s| && IsChar(Repair(s)[i..i + n])
    ensures forall k :: i < k < i + n ==> !IsOverlongLead(s[k])
  {
    var c := Repair(s)[i..i + n];
    forall k | i < k < i + n
      ensures !IsOverlongLead(s[k])
    {
      assert c[k - i] == Repair(s)[k];
    }
  }

  lemma ValidHaveMeansCanBegin(have: seq<Byte>, size: nat)
    requires 1 <= size <= |have| && size < Needed(have[0])
    ensures ValidHave(have, size) <==> CanBegin(have[..size])
  {
  }

  // ---- the eight-byte skip ----

  lemma WordIsAscii(s: seq<Byte>, i: nat)
    requires i + 8 <= |s| && LoadWord(s, i) & 0x8080_8080_8080_8080 == 0
    ensures forall k :: i <= k < i + 8 ==> s[k] < 128
  {
    AsciiBits(s[i], s[i + 1], s[i + 2], s[i + 3], s[i + 4], s[i + 5], s[i + 6], s[i + 7]);
  }

  lemma AsciiBits(a: Byte, b: Byte, c: Byte, d: Byte, e: Byte, f: Byte, g: Byte, h: Byte)
    requires ((a as bv64) | (b as bv64 << 8) | (c as bv64 << 16) | (d as bv64 << 24) |
              (e as bv64 << 32) | (f as bv64 << 40) | (g as bv64 << 48) | (h as bv64 << 56)) & 0x8080_8080_8080_8080 == 0
    ensures a < 128 && b < 128 && c < 128 && d < 128 && e < 128 && f < 128 && g < 128 && h < 128
  {
  }

  lemma {:induction false} SkipAscii(s: seq<Byte>, i: nat, n: nat)
    requires i + n <= |s| && forall k :: i <= k < i + n ==> s[k] < 128
    ensures Pending(Repair(s)[i..]) == Pending(Repair(s)[i + n..])
    decreases n
  {
    if n > 0 {
      AcceptStep(s, i);
      SkipAscii(s, i + 1, n - 1);
    }
  }

  // ---- splitting a text ----

  lemma RepairAppend(a: seq<Byte>, b: seq<Byte>)
    ensures Repair(a + b) == Repair(a) + Repair(b)
  {
  }

  lemma RepairSuffix(s: seq<Byte>, i: nat)
    requires i <= |s|
    ensures Repair(s)[i..] == Repair(s[i..])
  {
  }

  /** Every 0xc0 or 0xc1 of the piece stands at least four bytes before its end,
      where the fast loops of write meet it. */
  ghost predicate LeadsAreEarly(input: seq<Byte>) {
    forall k :: 0 <= k < |input| && IsOverlongLead(input[k]) ==> k + 4 <= |input|
  }

  /** When write succeeds, for the bytes written before and the new piece. */
  ghost predicate Accepts(text: seq<Byte>, input: seq<Byte>) {
    Pending(Repair(text + input)).Some? && LeadsAreEarly(input)
  }

  class Checker {
    var need: nat
    var p: nat
    const have: array<Byte>
    /** Whether word reads are done at aligned addresses only. */
    const alignedReads: bool
    /** Everything written since the last reset. */
    ghost var text: seq<Byte>

    ghost predicate Valid()
      reads this, have
    {
      && have.Length == 4 && p <= 3
      && Pending(Repair(text)) == Some(have[..p])
      && need == (if p == 0 then 0 else Needed(have[0]) - p)
    }

    constructor (alignedReads: bool)
      ensures Valid() && text == [] && fresh(have) && this.alignedReads == alignedReads
    {
      need := 0;
      p := 0;
      have := new Byte[4];
      this.alignedReads := alignedReads;
      text := [];
    }

    method Reset()
      requires have.Length == 4
      modifies this
      ensures Valid() && text == []
    {
      need := 0;
      p := 0;
      text := [];
    }

    method Finish() returns (success: bool)
      requires Valid()
      modifies this
      ensures success <==> IsText(Repair(old(text)))
      ensures Valid() && text == []
    {
      success := need == 0;
      PendingIsText(Repair(text));
      PendingTail(Repair(text));
      Reset();
    }

    /** The two fast loops: characters that cannot run past the end. */
    method ScanFast(input: seq<Byte>, start: nat, address: nat) returns (ok: bool, i: nat)
      requires start <= |input|
      ensures !ok ==> Pending(Repair(input)[start..]).None?
      ensures ok ==> start <= i <= |input| < i + 4
      ensures ok ==> Pending(Repair(input)[start..]) == Pending(Repair(input)[i..])
      ensures ok ==> forall k :: start <= k < i && IsOverlongLead(input[k]) ==> k + 4 <= |input|
    {
      hide Accept, Pending, LoadWord, Repair;
      i := start;
      var last: int := |input| - 7;
      while i < last
        invariant start <= i <= |input|
        invariant Pending(Repair(input)[start..]) == Pending(Repair(input)[i..])
        invariant forall k :: start <= k < i && IsOverlongLead(input[k]) ==> k + 4 <= |input|
      {
        if (!alignedReads || (address + i) % 8 == 0) && LoadWord(input, i) & 0x8080_8080_8080_8080 == 0 {
          WordIsAscii(input, i);
          SkipAscii(input, i, 8);
          i := i + 8;
        } else {
          AcceptStep(input, i);
          var n := Accept(input, i);
          if n == 0 { return false, i; }
          i := i + n;
        }
      }
      last := last + 4;
      while i < last
        invariant start <= i <= |input|
        invariant Pending(Repair(input)[start..]) == Pending(Repair(input)[i..])
        invariant forall k :: start <= k < i && IsOverlongLead(input[k]) ==> k + 4 <= |input|
      {
        AcceptStep(input, i);
        var n := Accept(input, i);
        if n == 0 { return false, i; }
        i := i + n;
      }
      ok := true;
    }

    /** Copies bytes to the end of the incomplete character. */
    method Keep(bytes: seq<Byte>)
      requires have.Length == 4 && p + |bytes| <= 4
      modifies this`p, have
      ensures p == old(p) + |bytes|
      ensures have[..p] == old(have[..p]) + bytes
    {
      for k := 0 to |bytes|
        invariant p == old(p) + k
        invariant have[..p] == old(have[..p]) + bytes[..k]
      {
        have[p] := bytes[k];
        p := p + 1;
      }
    }

    /** The careful loop over the last bytes of a piece. */
    method ScanTail(input: seq<Byte>, start: nat) returns (ok: bool)
      requires start <= |input| < start + 4
      requires have.Length == 4 && need == 0 && p == 0
      modifies this`need, this`p, have
      ensures ok <==> Pending(Repair(input)[start..]).Some? && forall k :: start <= k < |input| ==> !IsOverlongLead(input[k])
      ensures ok ==> p <= 3 && Pending(Repair(input)[start..]) == Some(have[..p])
      ensures ok ==> need == (if p == 0 then 0 else Needed(have[0]) - p)
    {
      hide Accept, ValidHave, Pending, Repair, Needed;
      var i := start;
      while i < |input|
        invariant start <= i <= |input| && need == 0 && p == 0
        invariant Pending(Repair(input)[start..]) == Pending(Repair(input)[i..])
        invariant forall k :: start <= k < i ==> !IsOverlongLead(input[k])
      {
        TailFacts(input, i);
        var n := |input| - i;
        var wanted := Needed(input[i]);
        if wanted == 0 {
          return false;
        }
        if wanted <= n {
          SpanIsNeeded(input[i]);
          AcceptStep(input, i);
          var taken := Accept(input, i);
          if taken == 0 { return false; }
          i := i + taken;
        } else {
          need := wanted - n;
          Keep(input[i..]);
          KeptMeansPending(input, i, have[..]);
          ok := ValidHave(have[..], p);
          return;
        }
      }
      TailFacts(input, i);
      ok := true;
    }

    /** Accepts exactly when the repaired text so far begins some text and every
        overlong lead stands early enough in its piece. */
    method Write(input: seq<Byte>, address: nat) returns (ok: bool)
      requires Valid()
      modifies this, have
      ensures ok <==> Accepts(old(text), input)
      ensures ok ==> Valid() && text == old(text) + input
    {
      hide Accept, ValidHave, Repair, Pending;
      ghost var x := have[..p];
      WriteContinues(text, input, x);
      text := text + input;
      var i := 0;
      if need > 0 {
        var n := Min(|input|, need);
        need := need - n;
        Keep(input[..n]);
        i := n;
        if need > 0 {
          ok := ValidHave(have[..], p);
          TopUpPartial(x, input, have[..]);
          return;
        }
        TopUpComplete(x, input, n, have[..]);
        if Accept(have[..], 0) == 0 {
          return false;
        }
        p := 0;
      }
      ok, i := ScanFast(input, i, address);
      if ok {
        ok := ScanTail(input, i);
      }
    }

    /** The overload that takes a list of buffers. */
    method WriteAll(pieces: seq<seq<Byte>>, addresses: seq<nat>) returns (ok: bool)
      requires Valid() && |addresses| == |pieces|
      modifies this, have
      ensures ok <==> AcceptsAll(old(text), pieces)
      ensures ok ==> Valid() && text == old(text) + Flatten(pieces)
    {
      hide Pending, Repair, Valid;
      ghost var before := text;
      CurrentIsAccepted();
      FlattenNone(pieces);
      for i := 0 to |pieces|
        invariant Valid() && text == before + Flatten(pieces[..i])
        invariant Pending(Repair(text)).Some?
        invariant forall j :: 0 <= j < i ==> LeadsAreEarly(pieces[j])
      {
        FlattenTake(pieces, i);
        assert before + Flatten(pieces[..i + 1]) == text + pieces[i];
        ghost var sofar := text + pieces[i];
        ok := Write(pieces[i], addresses[i]);
        if !ok {
          FlattenSplit(pieces, i + 1);
          assert before + Flatten(pieces) == sofar + Flatten(pieces[i + 1..]);
          StaysRejected(sofar, Flatten(pieces[i + 1..]));
          return false;
        }
      }
      assert pieces[..|pieces|] == pieces;
      ok := true;
    }

    lemma CurrentIsAccepted()
      requires Valid()
      ensures Pending(Repair(text)).Some?
    {
    }
  }

  /** check_utf8: one write and finish. */
  method CheckUtf8(s: seq<Byte>, address: nat, alignedReads: bool) returns (ok: bool)
    ensures ok <==> IsText(Repair(s)) && LeadsAreEarly(s)
  {
    var c := new Checker(alignedReads);
    assert [] + s == s;
    ok := c.Write(s, address);
    if ok {
      ok := c.Finish();
    } else {
      PendingIsText(Repair(s));
    }
  }

  // ---- the verdict against RFC 3629 ----

  /** When writing the pieces one after another succeeds. */
  ghost predicate AcceptsAll(text: seq<Byte>, pieces: seq<seq<Byte>>) {
    && Pending(Repair(text + Flatten(pieces))).Some?
    && forall i :: 0 <= i < |pieces| ==> LeadsAreEarly(pieces[i])
  }

  ghost predicate HasOverlongLead(s: seq<Byte>) {
    exists k :: 0 <= k < |s| && IsOverlongLead(s[k])
  }

  lemma StaysRejected(text: seq<Byte>, more: seq<Byte>)
    ensures Pending(Repair(text)).None? ==> Pending(Repair(text + more)).None?
  {
    RepairAppend(text, more);
    PendingAppend(Repair(text), Repair(more));
  }

  lemma {:induction false} TextHasNoOverlongLead(s: seq<Byte>)
    requires Pending(s).Some?
    ensures !HasOverlongLead(s)
    decreases |s|
  {
    if |s| > 0 {
      var n := Needed(s[0]);
      if n <= |s| {
        TextHasNoOverlongLead(s[n..]);
        assert forall k :: n <= k < |s| ==> s[k] == s[n..][k - n];
        assert forall k :: 0 <= k < n ==> s[k] == s[..n][k];
      } else {
        NoLeadInside(s);
      }
    }
  }

  lemma RepairKeeps(s: seq<Byte>)
    requires !HasOverlongLead(s)
    ensures Repair(s) == s
  {
  }

  /** A rejection is always right, however the bytes are cut. */
  lemma RejectionIsRight(pieces: seq<seq<Byte>>)
    ensures IsTextPrefix(Flatten(pieces)) ==> AcceptsAll([], pieces)
  {
    var s := Flatten(pieces);
    assert [] + s == s;
    if IsTextPrefix(s) {
      PendingIsPrefix(s);
      TextHasNoOverlongLead(s);
      RepairKeeps(s);
      forall i | 0 <= i < |pieces|
        ensures LeadsAreEarly(pieces[i])
      {
        PieceInside(pieces, i);
      }
    }
  }

  lemma PieceInside(pieces: seq<seq<Byte>>, i: nat)
    requires i < |pieces| && !HasOverlongLead(Flatten(pieces))
    ensures !HasOverlongLead(pieces[i])
  {
    hide Flatten;
    forall k | 0 <= k < |pieces[i]|
      ensures !IsOverlongLead(pieces[i][k])
    {
      FlattenAt(pieces, i, k);
    }
  }

  /** Without 0xc0 and 0xc1 the verdict is that of RFC 3629 for every cut. */
  lemma VerdictIsRfc3629(pieces: seq<seq<Byte>>)
    requires !HasOverlongLead(Flatten(pieces))
    ensures AcceptsAll([], pieces) <==> IsTextPrefix(Flatten(pieces))
  {
    var s := Flatten(pieces);
    assert [] + s == s;
    RepairKeeps(s);
    PendingIsPrefix(s);
    RejectionIsRight(pieces);
  }

  /** Exactly when the verdict on a cut message differs from RFC 3629: the
      message holds an overlong lead, would be fine with 0xc2 in its place, and
      each such lead stands at least four bytes before the end of its piece. */
  lemma VerdictDiffersExactly(pieces: seq<seq<Byte>>)
    ensures (AcceptsAll([], pieces) <==> IsTextPrefix(Flatten(pieces)))
       <==> !(&& HasOverlongLead(Flatten(pieces))
              && IsTextPrefix(Repair(Flatten(pieces)))
              && forall i :: 0 <= i < |pieces| ==> LeadsAreEarly(pieces[i]))
  {
    hide Flatten, Pending, Repair, IsTextPrefix;
    var s := Flatten(pieces);
    assert [] + s == s;
    PendingIsPrefix(s);
    PendingIsPrefix(Repair(s));
    RejectionIsRight(pieces);
    if HasOverlongLead(s) {
      if IsTextPrefix(s) {
        TextHasNoOverlongLead(s);
      }
    } else {
      VerdictIsRfc3629(pieces);
    }
  }

  /** The same for check_utf8 on a whole text. */
  lemma CheckDiffersExactly(s: seq<Byte>)
    ensures ((IsText(Repair(s)) && LeadsAreEarly(s)) <==> IsText(s))
       <==> !(HasOverlongLead(s) && IsText(Repair(s)) && LeadsAreEarly(s))
  {
    PendingIsText(s);
    if HasOverlongLead(s) {
      if IsText(s) {
        TextHasNoOverlongLead(s);
      }
    } else {
      RepairKeeps(s);
    }
  }

  /** When writing the pieces of a whole message and finishing succeeds. */
  ghost predicate AcceptsMessage(pieces: seq<seq<Byte>>) {
    && IsText(Repair(Flatten(pieces)))
    && forall i :: 0 <= i < |pieces| ==> LeadsAreEarly(pieces[i])
  }

  /** A cut message, written piece by piece and finished. */
  method CheckPieces(pieces: seq<seq<Byte>>, addresses: seq<nat>, alignedReads: bool) returns (ok: bool)
    requires |addresses| == |pieces|
    ensures ok <==> AcceptsMessage(pieces)
  {
    hide Repair, Pending, IsText;
    var c := new Checker(alignedReads);
    assert [] + Flatten(pieces) == Flatten(pieces);
    PendingIsText(Repair(Flatten(pieces)));
    ok := c.WriteAll(pieces, addresses);
    if ok {
      ok := c.Finish();
    }
  }

  /** The same for a whole message, cut in any way and finished. */
  lemma MessageDiffersExactly(pieces: seq<seq<Byte>>)
    ensures (AcceptsMessage(pieces) <==> IsText(Flatten(pieces)))
       <==> !(&& HasOverlongLead(Flatten(pieces))
              && IsText(Repair(Flatten(pieces)))
              && forall i :: 0 <= i < |pieces| ==> LeadsAreEarly(pieces[i]))
  {
    hide Flatten, Pending, Repair, IsText;
    var s := Flatten(pieces);
    PendingIsText(s);
    if HasOverlongLead(s) {
      if IsText(s) {
        TextHasNoOverlongLead(s);
      }
    } else {
      RepairKeeps(s);
      forall i | 0 <= i < |pieces|
        ensures LeadsAreEarly(pieces[i])
      {
        PieceInside(pieces, i);
      }
    }
  }

  /** A message accepted in one piece and rejected in two; RFC 3629 rejects it. */
  lemma CutMatters()
    ensures var s: seq<Byte> := [0xc0, 0x80, 0x41, 0x41];
            AcceptsAll([], [s]) && !AcceptsAll([], [s[..1], s[1..]]) && !IsTextPrefix(s)
  {
    hide Flatten, Pending, Repair, IsTextPrefix, LeadsAreEarly;
    var s: seq<Byte> := [0xc0, 0x80, 0x41, 0x41];
    FlattenCons(s, []);
    FlattenNone([s]);
    assert [s][..0] == [] && [s] == [s] + [];
    assert [] + Flatten([s]) == s;
    RepairedPair(s);
    PendingIsPrefix(s);
    assert IsOverlongLead(s[0]) && HasOverlongLead(s);
    if Pending(s).Some? {
      TextHasNoOverlongLead(s);
    }
    assert !LeadsAreEarly(s[..1]) && s[..1] == [s[..1], s[1..]][0];
  }

  lemma RepairedPair(s: seq<Byte>)
    requires s == [0xc0, 0x80, 0x41, 0x41]
    ensures Pending(Repair(s)).Some? && LeadsAreEarly(s) && !LeadsAreEarly(s[..1])
  {
    hide Accept;
    var r := Repair(s);
    assert r == [0xc2, 0x80, 0x41, 0x41];
    SkipAscii(s, 2, 2);
    PendingFrom(r, 0);
    assert r[0..] == r && r[4..] == [];
    assert IsOverlongLead(s[..1][0]);
  }

  lemma WriteContinues(text: seq<Byte>, input: seq<Byte>, x: seq<Byte>)
    requires Pending(Repair(text)) == Some(x)
    ensures Pending(Repair(text + input)) == Pending(x + Repair(input))
    ensures x == [] ==> Pending(Repair(text + input)) == Pending(Repair(input)[0..])
    ensures |x| > 0 ==> |x| < Needed(x[0]) && CanBegin(x)
  {
    RepairAppend(text, input);
    PendingAppend(Repair(text), Repair(input));
    PendingTail(Repair(text));
    assert Repair(input)[0..] == Repair(input) == [] + Repair(input);
  }

  lemma TopUpPartial(x: seq<Byte>, input: seq<Byte>, have: seq<Byte>)
    requires |x| > 0 && |x| + |input| < Needed(x[0]) && CanBegin(x)
    requires |have| == 4 && have[..|x| + |input|] == x + input
    ensures ValidHave(have, |x| + |input|) <==> Pending(x + Repair(input)).Some? && LeadsAreEarly(input)
    ensures ValidHave(have, |x| + |input|) ==> Pending(x + Repair(input)) == Some(x + input)
  {
    var y := x + input;
    assert have[0] == y[0] == x[0];
    ValidHaveMeansCanBegin(have, |y|);
    NoLeadInside(x);
    NoLeadInside(y);
    RepairAppend(x, input);
    assert forall k :: 0 <= k < |input| ==> input[k] == y[|x| + k];
  }

  lemma TopUpComplete(x: seq<Byte>, input: seq<Byte>, n: nat, have: seq<Byte>)
    requires |x| > 0 && 0 < n <= |input| && |x| + n == Needed(x[0]) && CanBegin(x)
    requires |have| == 4 && have[..|x| + n] == x + input[..n]
    ensures have[0] == x[0] && Span(have[0]) <= 4
    ensures Accept(have, 0) == 0 ==> Pending(x + Repair(input)).None?
    ensures Accept(have, 0) > 0 ==> Pending(x + Repair(input)) == Pending(Repair(input)[n..])
    ensures Accept(have, 0) > 0 ==> forall k :: 0 <= k < n ==> !IsOverlongLead(input[k])
  {
    hide Accept, IsChar, CanBegin, Pending, Repair;
    var m, z := |x| + n, x + Repair(input);
    SpanIsNeeded(x[0]);
    LeadKept(x, input, n, have);
    AcceptMeansChar(have, 0);
    AcceptStep(have, 0);
    PendingStep(z);
    assert z[m..] == Repair(input)[n..];
    assert forall k :: 0 <= k < n ==> input[k] == (x + input[..n])[|x| + k] == have[|x| + k];
  }

  lemma LeadKept(x: seq<Byte>, input: seq<Byte>, n: nat, have: seq<Byte>)
    requires 0 < |x| < Needed(x[0]) && n <= |input| && |x| + n == Needed(x[0]) && CanBegin(x)
    requires |have| == 4 && have[..|x| + n] == x + input[..n]
    ensures have[0] == x[0] == Repair(have)[0]
    ensures Repair(have)[0..|x| + n] == (x + Repair(input))[..|x| + n]
  {
    hide CanBegin;
    NoLeadInside(x);
    RepairAppend(x, input[..n]);
    assert have[0] == (x + input[..n])[0];
    assert Repair(have)[0..|x| + n] == Repair(have[..|x| + n]);
    assert Repair(input)[..n] == Repair(input[..n]);
  }

  lemma PendingStep(z: seq<Byte>)
    requires |z| > 0 && 0 < Needed(z[0]) <= |z|
    ensures Pending(z) == if IsChar(z[..Needed(z[0])]) then Pending(z[Needed(z[0])..]) else None
  {
  }

  lemma TailFacts(input: seq<Byte>, i: nat)
    requires i <= |input|
    ensures i == |input| ==> Pending(Repair(input)[i..]) == Some([])
    ensures i < |input| && Needed(input[i]) == 0 ==> Pending(Repair(input)[i..]).None? || IsOverlongLead(input[i])
    ensures i < |input| ==> Needed(input[i]) <= 4
  {
  }

  lemma KeptMeansPending(input: seq<Byte>, i: nat, have: seq<Byte>)
    requires i < |input| && |input| - i < Needed(input[i]) && |have| == 4
    requires have[..|input| - i] == input[i..]
    ensures ValidHave(have, |input| - i) <==>
            Pending(Repair(input)[i..]).Some? && forall k :: i <= k < |input| ==> !IsOverlongLead(input[k])
    ensures ValidHave(have, |input| - i) ==> Pending(Repair(input)[i..]) == Some(have[..|input| - i])
  {
    var n := |input| - i;
    ValidHaveMeansCanBegin(have, n);
    RepairSuffix(input, i);
    NoLeadInside(input[i..]);
    assert forall k :: i <= k < |input| ==> input[k] == input[i..][k - i];
  }

  /** Repair matters only at lead bytes. */
  lemma NoLeadInside(x: seq<Byte>)
    requires |x| > 0 && |x| < Needed(x[0])
    ensures CanBegin(x) ==> forall k :: 0 <= k < |x| ==> !IsOverlongLead(x[k])
    ensures Repair(x)[0] == x[0]
    ensures CanBegin(x) <==> CanBegin(Repair(x))
    ensures CanBegin(x) ==> Repair(x) == x
  {
  }

  lemma SpanIsNeeded(b: Byte)
    requires Needed(b) > 0
    ensures Span(b) == Needed(b) && !IsOverlongLead(b)
  {
  }
}
