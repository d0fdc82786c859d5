/** The incremental SHA-1 of include/beast/core/detail/sha1.hpp. */
module Sha1 {
  import opened Bytes
  import opened Fips180
  import opened Power
  import opened Sequences

  function Rol(value: Word, bits: bv6): Word
    requires 0 < bits < 32
  {
    (value << bits) | (value >> (32 - bits))
  }

  lemma RolIsRotateLeft(w: Word)
    ensures Rol(w, 1) == w.RotateLeft(1)
    ensures Rol(w, 5) == w.RotateLeft(5)
    ensures Rol(w, 30) == w.RotateLeft(30)
  {
  }

  lemma ChooseIdentity(w: Word, x: Word, y: Word)
    ensures (w & (x ^ y)) ^ y == Ch(w, x, y)
  {
  }

  lemma MajorityIdentity(w: Word, x: Word, y: Word)
    ensures ((w | x) & y) | (w & x) == Maj(w, x, y)
  {
  }

  function Blk(block: seq<Word>, i: nat): Word
    requires |block| == 16 && i < 16
  {
    Rol(block[(i + 13) % 16] ^ block[(i + 8) % 16] ^ block[(i + 2) % 16] ^ block[i], 1)
  }

  /** The circular schedule just before round t: slot k mod 16 holds W[k] for
      the sixteen indices k that end just below max(t, 16). */
  ghost predicate Window(block: seq<Word>, m: seq<Word>, t: nat)
    requires |m| == 16
  {
    && |block| == 16
    && forall k: nat :: Oldest(t) <= k < Oldest(t) + 16 ==> block[k % 16] == W(m, k)
  }

  function Oldest(t: nat): nat { if t < 16 then 0 else t - 16 }

  lemma SlotBack(t: nat, k: nat)
    requires k <= 16 <= t
    ensures (t % 16 + (16 - k)) % 16 == (t - k) % 16
  {
    var i, q := t % 16, t / 16;
    if i >= k {
      assert t - k == 16 * q + (i - k);
    } else {
      assert t - k == 16 * (q - 1) + (i + 16 - k);
    }
  }

  lemma BlkIsNextWord(block: seq<Word>, i: nat)
    requires |block| == 16 && i < 16
    ensures Blk(block, i) == NextWord(block[(i + 13) % 16], block[(i + 8) % 16], block[(i + 2) % 16], block[i])
  {
    RolIsRotateLeft(block[(i + 13) % 16] ^ block[(i + 8) % 16] ^ block[(i + 2) % 16] ^ block[i]);
  }

  lemma Tap(block: seq<Word>, m: seq<Word>, t: nat, k: nat, slot: nat)
    requires |m| == 16 && 1 <= k <= 16 <= t && Window(block, m, t)
    requires slot == (t - k) % 16
    ensures block[slot] == W(m, t - k)
  {
    hide W;
  }

  lemma SlotsBack(t: nat, i: nat)
    requires t >= 16 && i == t % 16
    ensures (i + 13) % 16 == (t - 3) % 16 && (i + 8) % 16 == (t - 8) % 16
    ensures (i + 2) % 16 == (t - 14) % 16 && i == (t - 16) % 16
  {
    SlotBack(t, 3);
    SlotBack(t, 8);
    SlotBack(t, 14);
    SlotBack(t, 16);
  }

  lemma ScheduleWord(m: seq<Word>, t: nat)
    requires |m| == 16 && t >= 16
    ensures W(m, t) == NextWord(W(m, t - 3), W(m, t - 8), W(m, t - 14), W(m, t - 16))
  {
  }

  lemma BlkIsSchedule(block: seq<Word>, m: seq<Word>, t: nat)
    requires |m| == 16 && |block| == 16 && t >= 16 && Window(block, m, t)
    ensures Blk(block, t % 16) == W(m, t)
  {
    hide *;
    ScheduleWord(m, t);
    var i := t % 16;
    SlotsBack(t, i);
    Tap(block, m, t, 3, (i + 13) % 16);
    Tap(block, m, t, 8, (i + 8) % 16);
    Tap(block, m, t, 14, (i + 2) % 16);
    Tap(block, m, t, 16, i);
    BlkIsNextWord(block, i);
  }

  lemma WindowStep(block: seq<Word>, m: seq<Word>, t: nat)
    requires |m| == 16 && t >= 16 && Window(block, m, t)
    ensures Window(block[t % 16 := W(m, t)], m, t + 1)
  {
    hide W;
    forall k: nat | t - 15 <= k <= t
      ensures block[t % 16 := W(m, t)][k % 16] == W(m, k)
    {
      if k < t {
        OtherSlot(t, k);
      }
    }
  }

  lemma OtherSlot(t: nat, k: nat)
    requires t - 15 <= k < t
    ensures k % 16 != t % 16
  {
  }

  // ---- rounds ----

  // v, w, x, y, z stand for the working variables in the roles a, b, c, d, e of
  // round t; a round leaves them in the roles b, c, d, e, a. The ghost arguments
  // name the message block m and the hash value h that the rounds started from.

  ghost predicate Scheduled(block: array<Word>, m: seq<Word>, t: nat)
    requires |m| == 16
    reads block
  {
    Window(block[..], m, t)
  }

  lemma ScheduleStart(block: seq<Word>, m: seq<Word>, t: nat)
    requires |m| == 16 && t < 16 && Window(block, m, t)
    ensures block[t % 16] == W(m, t)
    ensures Window(block, m, t + 1)
  {
  }

  lemma ScheduleStep(block: seq<Word>, m: seq<Word>, t: nat)
    requires |m| == 16 && |block| == 16 && t >= 16 && Window(block, m, t)
    ensures Blk(block, t % 16) == W(m, t)
    ensures Window(block[t % 16 := Blk(block, t % 16)], m, t + 1)
  {
    BlkIsSchedule(block, m, t);
    WindowStep(block, m, t);
  }

  /** The schedule word of a round, stored over the oldest one. */
  method StoreNext(block: array<Word>, i: nat, ghost m: seq<Word>, ghost t: nat)
    requires block.Length == 16 && |m| == 16
    requires t >= 16 && i == t % 16
    requires Scheduled(block, m, t)
    modifies block
    ensures Scheduled(block, m, t + 1) && block[i] == W(m, t)
  {
    hide Window, W, Blk;
    ScheduleStep(block[..], m, t);
    ghost var next := block[..][i := Blk(block[..], i)];
    block[i] := Blk(block[..], i);
    assert block[..] == next;
  }

  lemma RoundsStep(m: seq<Word>, h: State, t: nat)
    requires |m| == 16
    ensures Rounds(m, h, t + 1) == Round(Rounds(m, h, t), t, W(m, t))
  {
  }

  /** The update of z shared by R0..R4. */
  function Accumulate(z: Word, f: Word, word: Word, k: Word, rotated: Word): Word { z + (f + word + k + rotated) }

  lemma TempOrder(rotated: Word, f: Word, e: Word, k: Word, word: Word)
    ensures Accumulate(e, f, word, k, rotated) == Temp(rotated, f, e, k, word)
  {
  }

  lemma RoundIs(s: State, t: nat, word: Word)
    ensures Round(s, t, word) ==
            State(Temp(Rol(s.a, 5), F(t, s.b, s.c, s.d), s.e, K(t), word), s.a, Rol(s.b, 30), s.c, s.d)
  {
    RolIsRotateLeft(s.a);
    RolIsRotateLeft(s.b);
  }

  lemma R0IsRound(s: State, t: nat, word: Word)
    requires t < 20
    ensures Round(s, t, word) ==
            State(Accumulate(s.e, (s.b & (s.c ^ s.d)) ^ s.d, word, 0x5a827999, Rol(s.a, 5)), s.a, Rol(s.b, 30), s.c, s.d)
  {
    ChooseIdentity(s.b, s.c, s.d);
    TempOrder(Rol(s.a, 5), F(t, s.b, s.c, s.d), s.e, K(t), word);
    RoundIs(s, t, word);
  }

  method R0(block: array<Word>, v: Word, w0: Word, x: Word, y: Word, z0: Word, i: nat,
            ghost m: seq<Word>, ghost h: State, ghost t: nat)
    returns (w: Word, z: Word)
    requires block.Length == 16 && |m| == 16
    requires t < 16 && i == t % 16
    requires Scheduled(block, m, t)
    requires Rounds(m, h, t) == State(v, w0, x, y, z0)
    ensures Scheduled(block, m, t + 1)
    ensures Rounds(m, h, t + 1) == State(z, v, w, x, y)
  {
    ScheduleStart(block[..], m, t);
    z := Accumulate(z0, (w0 & (x ^ y)) ^ y, block[i], 0x5a827999, Rol(v, 5));
    w := Rol(w0, 30);
    R0IsRound(Rounds(m, h, t), t, W(m, t));
    RoundsStep(m, h, t);
  }

  method R1(block: array<Word>, v: Word, w0: Word, x: Word, y: Word, z0: Word, i: nat,
            ghost m: seq<Word>, ghost h: State, ghost t: nat)
    returns (w: Word, z: Word)
    requires block.Length == 16 && |m| == 16
    requires 16 <= t < 20 && i == t % 16
    requires Scheduled(block, m, t)
    requires Rounds(m, h, t) == State(v, w0, x, y, z0)
    modifies block
    ensures Scheduled(block, m, t + 1)
    ensures Rounds(m, h, t + 1) == State(z, v, w, x, y)
  {
    hide *;
    StoreNext(block, i, m, t);
    z := Accumulate(z0, (w0 & (x ^ y)) ^ y, block[i], 0x5a827999, Rol(v, 5));
    w := Rol(w0, 30);
    R0IsRound(Rounds(m, h, t), t, W(m, t));
    RoundsStep(m, h, t);
  }

  lemma R2IsRound(s: State, t: nat, word: Word)
    requires 20 <= t < 40
    ensures Round(s, t, word) ==
            State(Accumulate(s.e, s.b ^ s.c ^ s.d, word, 0x6ed9eba1, Rol(s.a, 5)), s.a, Rol(s.b, 30), s.c, s.d)
  {
    TempOrder(Rol(s.a, 5), F(t, s.b, s.c, s.d), s.e, K(t), word);
    RoundIs(s, t, word);
  }

  method R2(block: array<Word>, v: Word, w0: Word, x: Word, y: Word, z0: Word, i: nat,
            ghost m: seq<Word>, ghost h: State, ghost t: nat)
    returns (w: Word, z: Word)
    requires block.Length == 16 && |m| == 16
    requires 20 <= t < 40 && i == t % 16
    requires Scheduled(block, m, t)
    requires Rounds(m, h, t) == State(v, w0, x, y, z0)
    modifies block
    ensures Scheduled(block, m, t + 1)
    ensures Rounds(m, h, t + 1) == State(z, v, w, x, y)
  {
    hide *;
    StoreNext(block, i, m, t);
    z := Accumulate(z0, w0 ^ x ^ y, block[i], 0x6ed9eba1, Rol(v, 5));
    w := Rol(w0, 30);
    R2IsRound(Rounds(m, h, t), t, W(m, t));
    RoundsStep(m, h, t);
  }

  lemma R3IsRound(s: State, t: nat, word: Word)
    requires 40 <= t < 60
    ensures Round(s, t, word) ==
            State(Accumulate(s.e, ((s.b | s.c) & s.d) | (s.b & s.c), word, 0x8f1bbcdc, Rol(s.a, 5)), s.a, Rol(s.b, 30), s.c, s.d)
  {
    MajorityIdentity(s.b, s.c, s.d);
    TempOrder(Rol(s.a, 5), F(t, s.b, s.c, s.d), s.e, K(t), word);
    RoundIs(s, t, word);
  }

  method R3(block: array<Word>, v: Word, w0: Word, x: Word, y: Word, z0: Word, i: nat,
            ghost m: seq<Word>, ghost h: State, ghost t: nat)
    returns (w: Word, z: Word)
    requires block.Length == 16 && |m| == 16
    requires 40 <= t < 60 && i == t % 16
    requires Scheduled(block, m, t)
    requires Rounds(m, h, t) == State(v, w0, x, y, z0)
    modifies block
    ensures Scheduled(block, m, t + 1)
    ensures Rounds(m, h, t + 1) == State(z, v, w, x, y)
  {
    hide *;
    StoreNext(block, i, m, t);
    z := Accumulate(z0, ((w0 | x) & y) | (w0 & x), block[i], 0x8f1bbcdc, Rol(v, 5));
    w := Rol(w0, 30);
    R3IsRound(Rounds(m, h, t), t, W(m, t));
    RoundsStep(m, h, t);
  }

  lemma R4IsRound(s: State, t: nat, word: Word)
    requires 60 <= t < 80
    ensures Round(s, t, word) ==
            State(Accumulate(s.e, s.b ^ s.c ^ s.d, word, 0xca62c1d6, Rol(s.a, 5)), s.a, Rol(s.b, 30), s.c, s.d)
  {
    TempOrder(Rol(s.a, 5), F(t, s.b, s.c, s.d), s.e, K(t), word);
    RoundIs(s, t, word);
  }

  method R4(block: array<Word>, v: Word, w0: Word, x: Word, y: Word, z0: Word, i: nat,
            ghost m: seq<Word>, ghost h: State, ghost t: nat)
    returns (w: Word, z: Word)
    requires block.Length == 16 && |m| == 16
    requires 60 <= t < 80 && i == t % 16
    requires Scheduled(block, m, t)
    requires Rounds(m, h, t) == State(v, w0, x, y, z0)
    modifies block
    ensures Scheduled(block, m, t + 1)
    ensures Rounds(m, h, t + 1) == State(z, v, w, x, y)
  {
    hide *;
    StoreNext(block, i, m, t);
    z := Accumulate(z0, w0 ^ x ^ y, block[i], 0xca62c1d6, Rol(v, 5));
    w := Rol(w0, 30);
    R4IsRound(Rounds(m, h, t), t, W(m, t));
    RoundsStep(m, h, t);
  }

  method Rounds0To9(block: array<Word>, a0: Word, b0: Word, c0: Word, d0: Word, e0: Word,
                    ghost m: seq<Word>, ghost h: State)
    returns (a: Word, b: Word, c: Word, d: Word, e: Word)
    requires block.Length == 16 && |m| == 16
    requires Scheduled(block, m, 0) && Rounds(m, h, 0) == State(a0, b0, c0, d0, e0)
    ensures Scheduled(block, m, 10) && Rounds(m, h, 10) == State(a, b, c, d, e)
  {
    hide *;
    a, b, c, d, e := a0, b0, c0, d0, e0;
    b, e := R0(block, a, b, c, d, e, 0, m, h, 0);
    a, d := R0(block, e, a, b, c, d, 1, m, h, 1);
    e, c := R0(block, d, e, a, b, c, 2, m, h, 2);
    d, b := R0(block, c, d, e, a, b, 3, m, h, 3);
    c, a := R0(block, b, c, d, e, a, 4, m, h, 4);
    b, e := R0(block, a, b, c, d, e, 5, m, h, 5);
    a, d := R0(block, e, a, b, c, d, 6, m, h, 6);
    e, c := R0(block, d, e, a, b, c, 7, m, h, 7);
    d, b := R0(block, c, d, e, a, b, 8, m, h, 8);
    c, a := R0(block, b, c, d, e, a, 9, m, h, 9);
  }

  method Rounds10To19(block: array<Word>, a0: Word, b0: Word, c0: Word, d0: Word, e0: Word,
                    ghost m: seq<Word>, ghost h: State)
    returns (a: Word, b: Word, c: Word, d: Word, e: Word)
    requires block.Length == 16 && |m| == 16
    requires Scheduled(block, m, 10) && Rounds(m, h, 10) == State(a0, b0, c0, d0, e0)
    modifies block
    ensures Scheduled(block, m, 20) && Rounds(m, h, 20) == State(a, b, c, d, e)
  {
    hide *;
    a, b, c, d, e := a0, b0, c0, d0, e0;
    b, e := R0(block, a, b, c, d, e, 10, m, h, 10);
    a, d := R0(block, e, a, b, c, d, 11, m, h, 11);
    e, c := R0(block, d, e, a, b, c, 12, m, h, 12);
    d, b := R0(block, c, d, e, a, b, 13, m, h, 13);
    c, a := R0(block, b, c, d, e, a, 14, m, h, 14);
    b, e := R0(block, a, b, c, d, e, 15, m, h, 15);
    a, d := R1(block, e, a, b, c, d, 0, m, h, 16);
    e, c := R1(block, d, e, a, b, c, 1, m, h, 17);
    d, b := R1(block, c, d, e, a, b, 2, m, h, 18);
    c, a := R1(block, b, c, d, e, a, 3, m, h, 19);
  }

  method Rounds20To29(block: array<Word>, a0: Word, b0: Word, c0: Word, d0: Word, e0: Word,
                    ghost m: seq<Word>, ghost h: State)
    returns (a: Word, b: Word, c: Word, d: Word, e: Word)
    requires block.Length == 16 && |m| == 16
    requires Scheduled(block, m, 20) && Rounds(m, h, 20) == State(a0, b0, c0, d0, e0)
    modifies block
    ensures Scheduled(block, m, 30) && Rounds(m, h, 30) == State(a, b, c, d, e)
  {
    hide *;
    a, b, c, d, e := a0, b0, c0, d0, e0;
    b, e := R2(block, a, b, c, d, e, 4, m, h, 20);
    a, d := R2(block, e, a, b, c, d, 5, m, h, 21);
    e, c := R2(block, d, e, a, b, c, 6, m, h, 22);
    d, b := R2(block, c, d, e, a, b, 7, m, h, 23);
    c, a := R2(block, b, c, d, e, a, 8, m, h, 24);
    b, e := R2(block, a, b, c, d, e, 9, m, h, 25);
    a, d := R2(block, e, a, b, c, d, 10, m, h, 26);
    e, c := R2(block, d, e, a, b, c, 11, m, h, 27);
    d, b := R2(block, c, d, e, a, b, 12, m, h, 28);
    c, a := R2(block, b, c, d, e, a, 13, m, h, 29);
  }

  method Rounds30To39(block: array<Word>, a0: Word, b0: Word, c0: Word, d0: Word, e0: Word,
                    ghost m: seq<Word>, ghost h: State)
    returns (a: Word, b: Word, c: Word, d: Word, e: Word)
    requires block.Length == 16 && |m| == 16
    requires Scheduled(block, m, 30) && Rounds(m, h, 30) == State(a0, b0, c0, d0, e0)
    modifies block
    ensures Scheduled(block, m, 40) && Rounds(m, h, 40) == State(a, b, c, d, e)
  {
    hide *;
    a, b, c, d, e := a0, b0, c0, d0, e0;
    b, e := R2(block, a, b, c, d, e, 14, m, h, 30);
    a, d := R2(block, e, a, b, c, d, 15, m, h, 31);
    e, c := R2(block, d, e, a, b, c, 0, m, h, 32);
    d, b := R2(block, c, d, e, a, b, 1, m, h, 33);
    c, a := R2(block, b, c, d, e, a, 2, m, h, 34);
    b, e := R2(block, a, b, c, d, e, 3, m, h, 35);
    a, d := R2(block, e, a, b, c, d, 4, m, h, 36);
    e, c := R2(block, d, e, a, b, c, 5, m, h, 37);
    d, b := R2(block, c, d, e, a, b, 6, m, h, 38);
    c, a := R2(block, b, c, d, e, a, 7, m, h, 39);
  }

  method Rounds40To49(block: array<Word>, a0: Word, b0: Word, c0: Word, d0: Word, e0: Word,
                    ghost m: seq<Word>, ghost h: State)
    returns (a: Word, b: Word, c: Word, d: Word, e: Word)
    requires block.Length == 16 && |m| == 16
    requires Scheduled(block, m, 40) && Rounds(m, h, 40) == State(a0, b0, c0, d0, e0)
    modifies block
    ensures Scheduled(block, m, 50) && Rounds(m, h, 50) == State(a, b, c, d, e)
  {
    hide *;
    a, b, c, d, e := a0, b0, c0, d0, e0;
    b, e := R3(block, a, b, c, d, e, 8, m, h, 40);
    a, d := R3(block, e, a, b, c, d, 9, m, h, 41);
    e, c := R3(block, d, e, a, b, c, 10, m, h, 42);
    d, b := R3(block, c, d, e, a, b, 11, m, h, 43);
    c, a := R3(block, b, c, d, e, a, 12, m, h, 44);
    b, e := R3(block, a, b, c, d, e, 13, m, h, 45);
    a, d := R3(block, e, a, b, c, d, 14, m, h, 46);
    e, c := R3(block, d, e, a, b, c, 15, m, h, 47);
    d, b := R3(block, c, d, e, a, b, 0, m, h, 48);
    c, a := R3(block, b, c, d, e, a, 1, m, h, 49);
  }

  method Rounds50To59(block: array<Word>, a0: Word, b0: Word, c0: Word, d0: Word, e0: Word,
                    ghost m: seq<Word>, ghost h: State)
    returns (a: Word, b: Word, c: Word, d: Word, e: Word)
    requires block.Length == 16 && |m| == 16
    requires Scheduled(block, m, 50) && Rounds(m, h, 50) == State(a0, b0, c0, d0, e0)
    modifies block
    ensures Scheduled(block, m, 60) && Rounds(m, h, 60) == State(a, b, c, d, e)
  {
    hide *;
    a, b, c, d, e := a0, b0, c0, d0, e0;
    b, e := R3(block, a, b, c, d, e, 2, m, h, 50);
    a, d := R3(block, e, a, b, c, d, 3, m, h, 51);
    e, c := R3(block, d, e, a, b, c, 4, m, h, 52);
    d, b := R3(block, c, d, e, a, b, 5, m, h, 53);
    c, a := R3(block, b, c, d, e, a, 6, m, h, 54);
    b, e := R3(block, a, b, c, d, e, 7, m, h, 55);
    a, d := R3(block, e, a, b, c, d, 8, m, h, 56);
    e, c := R3(block, d, e, a, b, c, 9, m, h, 57);
    d, b := R3(block, c, d, e, a, b, 10, m, h, 58);
    c, a := R3(block, b, c, d, e, a, 11, m, h, 59);
  }

  method Rounds60To69(block: array<Word>, a0: Word, b0: Word, c0: Word, d0: Word, e0: Word,
                    ghost m: seq<Word>, ghost h: State)
    returns (a: Word, b: Word, c: Word, d: Word, e: Word)
    requires block.Length == 16 && |m| == 16
    requires Scheduled(block, m, 60) && Rounds(m, h, 60) == State(a0, b0, c0, d0, e0)
    modifies block
    ensures Scheduled(block, m, 70) && Rounds(m, h, 70) == State(a, b, c, d, e)
  {
    hide *;
    a, b, c, d, e := a0, b0, c0, d0, e0;
    b, e := R4(block, a, b, c, d, e, 12, m, h, 60);
    a, d := R4(block, e, a, b, c, d, 13, m, h, 61);
    e, c := R4(block, d, e, a, b, c, 14, m, h, 62);
    d, b := R4(block, c, d, e, a, b, 15, m, h, 63);
    c, a := R4(block, b, c, d, e, a, 0, m, h, 64);
    b, e := R4(block, a, b, c, d, e, 1, m, h, 65);
    a, d := R4(block, e, a, b, c, d, 2, m, h, 66);
    e, c := R4(block, d, e, a, b, c, 3, m, h, 67);
    d, b := R4(block, c, d, e, a, b, 4, m, h, 68);
    c, a := R4(block, b, c, d, e, a, 5, m, h, 69);
  }

  method Rounds70To79(block: array<Word>, a0: Word, b0: Word, c0: Word, d0: Word, e0: Word,
                    ghost m: seq<Word>, ghost h: State)
    returns (a: Word, b: Word, c: Word, d: Word, e: Word)
    requires block.Length == 16 && |m| == 16
    requires Scheduled(block, m, 70) && Rounds(m, h, 70) == State(a0, b0, c0, d0, e0)
    modifies block
    ensures Scheduled(block, m, 80) && Rounds(m, h, 80) == State(a, b, c, d, e)
  {
    hide *;
    a, b, c, d, e := a0, b0, c0, d0, e0;
    b, e := R4(block, a, b, c, d, e, 6, m, h, 70);
    a, d := R4(block, e, a, b, c, d, 7, m, h, 71);
    e, c := R4(block, d, e, a, b, c, 8, m, h, 72);
    d, b := R4(block, c, d, e, a, b, 9, m, h, 73);
    c, a := R4(block, b, c, d, e, a, 10, m, h, 74);
    b, e := R4(block, a, b, c, d, e, 11, m, h, 75);
    a, d := R4(block, e, a, b, c, d, 12, m, h, 76);
    e, c := R4(block, d, e, a, b, c, 13, m, h, 77);
    d, b := R4(block, c, d, e, a, b, 14, m, h, 78);
    c, a := R4(block, b, c, d, e, a, 15, m, h, 79);
  }

  /** A digest array read as the five words of a hash value. */
  function StateOf(digest: seq<Word>): State
    requires |digest| == 5
  {
    State(digest[0], digest[1], digest[2], digest[3], digest[4])
  }

  lemma StartOfSchedule(m: seq<Word>, h: State)
    requires |m| == 16
    ensures Window(m, m, 0) && Rounds(m, h, 0) == h
  {
  }

  method Transform(digest: array<Word>, block: array<Word>)
    requires digest.Length == 5 && block.Length == 16 && digest != block
    modifies digest, block
    ensures StateOf(digest[..]) == Compress(StateOf(old(digest[..])), old(block[..]))
  {
    hide Rounds, W, Window, Plus;
    ghost var m, h := block[..], StateOf(digest[..]);
    StartOfSchedule(m, h);
    var a, b, c, d, e := digest[0], digest[1], digest[2], digest[3], digest[4];
    a, b, c, d, e := EightyRounds(block, a, b, c, d, e, m, h);
    digest[0] := Plus(digest[0], a);
    digest[1] := Plus(digest[1], b);
    digest[2] := Plus(digest[2], c);
    digest[3] := Plus(digest[3], d);
    digest[4] := Plus(digest[4], e);
  }

  method EightyRounds(block: array<Word>, a0: Word, b0: Word, c0: Word, d0: Word, e0: Word,
                      ghost m: seq<Word>, ghost h: State)
    returns (a: Word, b: Word, c: Word, d: Word, e: Word)
    requires block.Length == 16 && |m| == 16
    requires Scheduled(block, m, 0) && Rounds(m, h, 0) == State(a0, b0, c0, d0, e0)
    modifies block
    ensures Rounds(m, h, 80) == State(a, b, c, d, e)
  {
    hide *;
    a, b, c, d, e := Rounds0To9(block, a0, b0, c0, d0, e0, m, h);
    a, b, c, d, e := Rounds10To19(block, a, b, c, d, e, m, h);
    a, b, c, d, e := Rounds20To29(block, a, b, c, d, e, m, h);
    a, b, c, d, e := Rounds30To39(block, a, b, c, d, e, m, h);
    a, b, c, d, e := Rounds40To49(block, a, b, c, d, e, m, h);
    a, b, c, d, e := Rounds50To59(block, a, b, c, d, e, m, h);
    a, b, c, d, e := Rounds60To69(block, a, b, c, d, e, m, h);
    a, b, c, d, e := Rounds70To79(block, a, b, c, d, e, m, h);
  }

  lemma WordOfBytes(b0: Byte, b1: Byte, b2: Byte, b3: Byte)
    ensures (b3 as Word) | (b2 as Word << 8) | (b1 as Word << 16) | (b0 as Word << 24) == BigEndian32([b0, b1, b2, b3])
  {
  }

  method MakeBlock(p: array<Byte>, block: array<Word>)
    requires p.Length == 64 && block.Length == 16
    modifies block
    ensures block[..] == Parse(p[..])
  {
    hide Parse;
    for i := 0 to 16
      invariant forall k :: 0 <= k < i ==> block[k] == Parse(p[..])[k]
    {
      block[i] :=
        (p[4 * i + 3] as Word) | (p[4 * i + 2] as Word << 8) | (p[4 * i + 1] as Word << 16) | (p[4 * i] as Word << 24);
      WordAt(p[..], i);
    }
  }

  lemma WordAt(s: seq<Byte>, i: nat)
    requires |s| == 64 && i < 16
    ensures (s[4 * i + 3] as Word) | (s[4 * i + 2] as Word << 8) | (s[4 * i + 1] as Word << 16) | (s[4 * i] as Word << 24) ==
            Parse(s)[i]
  {
    hide BigEndian32;
    WordOfBytes(s[4 * i], s[4 * i + 1], s[4 * i + 2], s[4 * i + 3]);
    assert s[4 * i..4 * i + 4] == [s[4 * i], s[4 * i + 1], s[4 * i + 2], s[4 * i + 3]];
  }

  /** Absorbing one more complete block. */
  lemma HashOneMore(s: seq<Byte>, block: seq<Byte>)
    requires |s| % 64 == 0 && |block| == 64
    ensures HashBlocks(s + block) == Compress(HashBlocks(s), Parse(block))
  {
    assert (s + block)[..|s + block| - 64] == s;
    assert (s + block)[|s + block| - 64..] == block;
  }

  // ---- padding ----

  lemma LengthFieldWords(l: bv64)
    ensures BigEndian32(BigEndian64(l)[..4]) == (l >> 32) as Word
    ensures BigEndian32(BigEndian64(l)[4..]) == (l & 0xffff_ffff) as Word
  {
  }

  /** Writing the length over the last two words of a block parses like the
      block whose last eight bytes are the length field. */
  lemma ParseWithLength(head: seq<Byte>, old8: seq<Byte>, l: bv64)
    requires |head| == 56 && |old8| == 8
    ensures Parse(head + BigEndian64(l)) == Parse(head + old8)[15 := (l & 0xffff_ffff) as Word][14 := (l >> 32) as Word]
  {
    hide BigEndian32, BigEndian64;
    var x, y := head + BigEndian64(l), head + old8;
    forall i | 0 <= i < 14
      ensures Parse(x)[i] == Parse(y)[i]
    {
      assert x[4 * i..4 * i + 4] == y[4 * i..4 * i + 4];
    }
    LengthFieldWords(l);
    assert x[56..60] == BigEndian64(l)[..4];
    assert x[60..64] == BigEndian64(l)[4..];
  }

  lemma ParseZeros(i: nat)
    requires i < 16
    ensures Parse(Zeros(64))[i] == 0
  {
    assert Zeros(64)[4 * i..4 * i + 4] == Zeros(4);
  }

  /** The size_t arithmetic of finish gives the length field of the standard. */
  lemma TotalBitsModulo(n: nat)
    ensures (((n / 64 % TWO_64) * 64 + n % 64) * 8) % TWO_64 == (8 * n) % TWO_64
  {
    var b, rest := n / 64, n % 64;
    var q, r := b / TWO_64, b % TWO_64;
    assert n == 64 * b + rest && b == TWO_64 * q + r;
    AddMultiple((r * 64 + rest) * 8, 512 * q);
    assert 8 * n == (r * 64 + rest) * 8 + TWO_64 * (512 * q);
  }

  lemma AddMultiple(x: nat, k: nat)
    ensures (x + TWO_64 * k) % TWO_64 == x % TWO_64
  {
  }

  /** The tail of the padded message, before its last eight bytes are known. */
  function Marked(tail: seq<Byte>): (r: seq<Byte>)
    requires |tail| < 64
    ensures |r| == 64
  {
    tail + [0x80] + Zeros(63 - |tail|)
  }

  lemma PadInOneBlock(whole: seq<Byte>, tail: seq<Byte>, l: seq<Byte>)
    requires |whole| % 64 == 0 && |tail| < 56 && |l| == 8
    ensures PadWith(whole + tail, l) == whole + (Marked(tail)[..56] + l)
    ensures Marked(tail) == Marked(tail)[..56] + Zeros(8)
  {
    assert ZeroCount(|whole + tail|) == 55 - |tail|;
    assert Marked(tail)[..56] == tail + [0x80] + Zeros(55 - |tail|);
  }

  lemma PadInTwoBlocks(whole: seq<Byte>, tail: seq<Byte>, l: seq<Byte>)
    requires |whole| % 64 == 0 && 56 <= |tail| < 64 && |l| == 8
    ensures PadWith(whole + tail, l) == (whole + Marked(tail)) + (Zeros(56) + l)
  {
    assert ZeroCount(|whole + tail|) == 119 - |tail|;
    assert Zeros(119 - |tail|) == Zeros(63 - |tail|) + Zeros(56);
  }

  lemma CountBlock(n: nat)
    ensures (n / 64 % TWO_64 + 1) % TWO_64 == (n + 64) / 64 % TWO_64
  {
  }

  /** The total_bits of finish, in size_t arithmetic. */
  function TotalBits(blocks: nat, buflen: nat): bv64 { Low64((blocks * 64 + buflen) * 8) }

  lemma SplitLength(whole: nat, rest: nat)
    requires whole % 64 == 0 && rest < 64
    ensures (whole + rest) % 64 == rest && (whole + rest) / 64 == whole / 64
  {
  }

  /** One more piece of the message, behind what was absorbed before it. */
  lemma TakeMore(whole: seq<Byte>, tail: seq<Byte>, before: seq<Byte>, message: seq<Byte>, p: nat, n: nat)
    requires p + n <= |message| && whole + tail == before + message[..p]
    ensures whole + (tail + message[p..p + n]) == before + message[..p + n]
  {
    assert message[..p] + message[p..p + n] == message[..p + n];
    assert whole + (tail + message[p..p + n]) == (whole + tail) + message[p..p + n];
    assert (before + message[..p]) + message[p..p + n] == before + (message[..p] + message[p..p + n]);
  }

  class Sha1Context {
    var buflen: nat
    var blocks: nat
    const digest: array<Word>
    const buf: array<Byte>
    /** The bytes already compressed. */
    ghost var whole: seq<Byte>

    ghost predicate Valid()
      reads this, digest, buf
    {
      && digest.Length == 5 && buf.Length == 64 && digest as object != buf as object
      && buflen < 64
      && |whole| % 64 == 0
      && blocks == |whole| / 64 % TWO_64
      && StateOf(digest[..]) == HashBlocks(whole)
    }

    /** Every byte passed to Update since Init. */
    ghost function Absorbed(): (m: seq<Byte>)
      requires Valid()
      reads this, digest, buf
    {
      whole + buf[..buflen]
    }

    /** What the fields hold after any calls of Update, in terms of the bytes
        absorbed: the digest covers all complete blocks, the buffer the rest. */
    lemma Streaming()
      requires Valid()
      ensures buflen == |Absorbed()| % 64 && blocks == |Absorbed()| / 64 % TWO_64
      ensures buf[..buflen] == Absorbed()[|Absorbed()| - buflen..]
      ensures (|Absorbed()| - buflen) % 64 == 0
      ensures StateOf(digest[..]) == HashBlocks(Absorbed()[..|Absorbed()| - buflen])
    {
      hide HashBlocks, StateOf;
      SplitLength(|whole|, buflen);
      assert Absorbed()[..|whole|] == whole;
    }

    constructor Init()
      ensures Valid() && Absorbed() == []
      ensures fresh(digest) && fresh(buf)
    {
      buflen := 0;
      blocks := 0;
      digest := new Word[5];
      buf := new Byte[64];
      whole := [];
      new;
      digest[0] := 0x67452301;
      digest[1] := 0xefcdab89;
      digest[2] := 0x98badcfe;
      digest[3] := 0x10325476;
      digest[4] := 0xc3d2e1f0;
    }

    method Update(message: seq<Byte>)
      requires Valid()
      modifies this, digest, buf
      ensures Valid() && Absorbed() == old(Absorbed()) + message
    {
      hide HashBlocks, Compress, Parse, StateOf;
      var p, size := 0, |message|;
      while true
        invariant 0 <= p && 0 <= size && p + size == |message|
        invariant Valid() && whole + buf[..buflen] == old(Absorbed()) + message[..p]
        decreases size
      {
        var n := if size < 64 - buflen then size else 64 - buflen;
        ghost var tail, piece, words := buf[..buflen], message[p..p + n], digest[..];
        forall k | 0 <= k < n {
          buf[buflen + k] := message[p + k];
        }
        buflen := buflen + n;
        assert digest[..] == words;
        assert buf[..buflen] == tail + piece;
        TakeMore(whole, tail, old(Absorbed()), message, p, n);
        if buflen != 64 {
          assert message[..p + n] == message;
          return;
        }
        p := p + n;
        size := size - n;
        buflen := 0;
        ProcessBuffer();
      }
    }

    /** Compresses the 64 buffered bytes. */
    method ProcessBuffer()
      requires Valid() && buflen == 0
      modifies this`blocks, this`whole, digest
      ensures Valid() && whole == old(whole + buf[..])
    {
      hide HashBlocks, Compress, Parse, StateOf;
      var block := new Word[16];
      MakeBlock(buf, block);
      Transform(digest, block);
      CountBlock(|whole|);
      blocks := (blocks + 1) % TWO_64;
      HashOneMore(whole, buf[..]);
      whole := whole + buf[..];
    }

    /** The padding loop: 0x80, then zeros up to the end of the buffer. */
    method MarkEnd()
      requires buf.Length == 64 && buflen < 64
      modifies this`buflen, buf
      ensures buf[..] == Marked(old(buf[..buflen]))
    {
      ghost var n := buflen;
      buf[buflen] := 0x80;
      buflen := buflen + 1;
      while buflen < 64
        invariant n < buflen <= 64
        invariant buf[..n] == old(buf[..buflen]) && buf[n] == 0x80
        invariant forall k :: n < k < buflen ==> buf[k] == 0
      {
        buf[buflen] := 0x00;
        buflen := buflen + 1;
      }
      assert buf[n + 1..] == Zeros(63 - n);
      assert buf[..] == buf[..n] + [buf[n]] + buf[n + 1..];
    }

    method WriteDigest(out: array<Byte>)
      requires digest.Length == 5 && out.Length >= 20 && out as object != digest as object
      modifies out
      ensures out[..20] == Digest(StateOf(digest[..]))
      ensures out[20..] == old(out[20..])
    {
      hide Bytes32;
      for i := 0 to 5
        invariant forall k :: 0 <= k < i ==> out[4 * k..4 * k + 4] == Bytes32(digest[k])
        invariant out[20..] == old(out[20..])
      {
        ghost var before := out[..];
        StoreWord(out, 4 * i, digest[i]);
        forall k | 0 <= k < i
          ensures out[4 * k..4 * k + 4] == Bytes32(digest[k])
        {
          assert out[4 * k..4 * k + 4] == before[4 * k..4 * k + 4];
        }
        assert out[20..] == before[20..];
      }
      assert out[..20] == out[0..4] + out[4..8] + out[8..12] + out[12..16] + out[16..20];
    }

    /** Compresses the padded tail: one block, or two when the length field
        does not fit beside the marked tail. */
    method CompressTail(totalBits: bv64, marked: nat, ghost tail: seq<Byte>)
      requires digest.Length == 5 && buf.Length == 64
      requires |tail| < 64 && marked == |tail| + 1 && buf[..] == Marked(tail)
      requires |whole| % 64 == 0 && StateOf(digest[..]) == HashBlocks(whole)
      modifies digest
      ensures StateOf(digest[..]) == HashBlocks(PadWith(whole + tail, BigEndian64(totalBits)))
    {
      hide HashBlocks, Compress, Parse, StateOf, BigEndian64, PadWith, Marked, Zeros;
      ghost var done := whole;
      ghost var last := Marked(tail)[..56] + BigEndian64(totalBits);
      var block := new Word[16];
      MakeBlock(buf, block);
      if marked > 56 {
        Transform(digest, block);
        ClearFourteen(block);
        done, last := whole + Marked(tail), Zeros(56) + BigEndian64(totalBits);
        HashOneMore(whole, Marked(tail));
        ParseTwo(block[..], totalBits);
        PadInTwoBlocks(whole, tail, BigEndian64(totalBits));
      } else {
        PadInOneBlock(whole, tail, BigEndian64(totalBits));
        ParseWithLength(Marked(tail)[..56], Zeros(8), totalBits);
      }
      ghost var words := block[..];
      block[15] := (totalBits & 0xffff_ffff) as Word;
      block[14] := (totalBits >> 32) as Word;
      assert block[..] == words[15 := (totalBits & 0xffff_ffff) as Word][14 := (totalBits >> 32) as Word];
      Transform(digest, block);
      HashOneMore(done, last);
    }

    method Finish(out: array<Byte>)
      requires Valid() && out.Length >= 20
      requires out != buf && out as object != digest as object
      modifies this, digest, buf, out
      ensures out[..20] == Fips180.Sha1(old(Absorbed()))
      ensures out[20..] == old(out[20..])
    {
      hide HashBlocks, Compress, Parse, StateOf, BigEndian64, BitLength, Digest, PadWith, TotalBits;
      ghost var tail, words, rest := buf[..buflen], digest[..], out[20..];
      var totalBits := TotalBits(blocks, buflen);
      LengthOf(whole, tail);
      var marked := buflen + 1;
      MarkEnd();
      assert digest[..] == words;
      CompressTail(totalBits, marked, tail);
      assert out[20..] == rest;
      WriteDigest(out);
    }
  }

  method StoreWord(d: array<Byte>, at: nat, w: Word)
    requires at + 4 <= d.Length
    modifies d
    ensures d[at..at + 4] == Bytes32(w)
    ensures d[..at] == old(d[..at]) && d[at + 4..] == old(d[at + 4..])
  {
    d[at + 3] := (w & 0xff) as Byte;
    d[at + 2] := ((w >> 8) & 0xff) as Byte;
    d[at + 1] := ((w >> 16) & 0xff) as Byte;
    d[at] := ((w >> 24) & 0xff) as Byte;
  }

  method ClearFourteen(block: array<Word>)
    requires block.Length == 16
    modifies block
    ensures forall k :: 0 <= k < 14 ==> block[k] == 0
  {
    for i := 0 to 14
      invariant forall k :: 0 <= k < i ==> block[k] == 0
    {
      block[i] := 0;
    }
  }

  lemma LengthOf(whole: seq<Byte>, tail: seq<Byte>)
    requires |whole| % 64 == 0 && |tail| < 64
    ensures TotalBits(|whole| / 64 % TWO_64, |tail|) == BitLength(|whole + tail|)
  {
    hide *;
    LengthOfSum(|whole|, |tail|);
  }

  lemma LengthOfSum(whole: nat, rest: nat)
    requires whole % 64 == 0 && rest < 64
    ensures TotalBits(whole / 64 % TWO_64, rest) == BitLength(whole + rest)
  {
    hide TotalBits, BitLength;
    SplitLength(whole, rest);
    TotalBitsAgree(whole + rest);
  }

  lemma TotalBitsAgree(n: nat)
    ensures TotalBits(n / 64 % TWO_64, n % 64) == BitLength(n)
  {
    hide Low64;
    TotalBitsModulo(n);
    SameLow64((n / 64 % TWO_64 * 64 + n % 64) * 8, 8 * n);
  }

  lemma SameLow64(x: nat, y: nat)
    requires x % TWO_64 == y % TWO_64
    ensures Low64(x) == Low64(y)
  {
  }

  lemma ParseTwo(block: seq<Word>, l: bv64)
    requires |block| == 16 && forall k :: 0 <= k < 14 ==> block[k] == 0
    ensures block[15 := (l & 0xffff_ffff) as Word][14 := (l >> 32) as Word] == Parse(Zeros(56) + BigEndian64(l))
  {
    ParseWithLength(Zeros(56), Zeros(8), l);
    assert Zeros(56) + Zeros(8) == Zeros(64);
    forall k | 0 <= k < 14
      ensures Parse(Zeros(64))[k] == 0
    {
      ParseZeros(k);
    }
  }

  /** The digest does not depend on how the message is cut into updates. */
  method HashPieces(pieces: seq<seq<Byte>>) returns (d: seq<Byte>)
    ensures d == Fips180.Sha1(Flatten(pieces))
  {
    hide *;
    var ctx := new Sha1Context.Init();
    FlattenNone(pieces);
    for i := 0 to |pieces|
      invariant fresh(ctx) && fresh(ctx.digest) && fresh(ctx.buf)
      invariant ctx.Valid() && ctx.Absorbed() == Flatten(pieces[..i])
    {
      ctx.Update(pieces[i]);
      FlattenTake(pieces, i);
    }
    assert pieces[..|pieces|] == pieces;
    var out := new Byte[20];
    ctx.Finish(out);
    d := out[..];
    assert out[..20] == out[..];
  }
}
