/** WebSocket masking, include/beast/websocket/detail/mask.hpp (64-bit keys). */
module Mask {
  import opened Bytes
  import opened Sequences

  type Key = bv64

  // ---- the specification: octet k is combined with key octet k mod 8 ----

  function Octet(key: Key, j: nat): Byte
    requires j < 8
  {
    if j == 0 then (key & 0xff) as Byte
    else if j == 1 then ((key >> 8) & 0xff) as Byte
    else if j == 2 then ((key >> 16) & 0xff) as Byte
    else if j == 3 then ((key >> 24) & 0xff) as Byte
    else if j == 4 then ((key >> 32) & 0xff) as Byte
    else if j == 5 then ((key >> 40) & 0xff) as Byte
    else if j == 6 then ((key >> 48) & 0xff) as Byte
    else ((key >> 56) & 0xff) as Byte
  }

  function KeyAt(key: Key, k: nat): Byte { Octet(key, k % 8) }

  function Mix(x: Byte, y: Byte): Byte { x ^ y }

  function Masked(s: seq<Byte>, key: Key): (r: seq<Byte>)
    ensures |r| == |s|
  {
    seq(|s|, k requires 0 <= k < |s| => Mix(s[k], KeyAt(key, k)))
  }

  /** The key as it stands n octets further on. */
  ghost predicate IsAdvanced(key: Key, n: nat, key': Key) {
    forall k: nat :: KeyAt(key', k) == KeyAt(key, k + n)
  }

  // ---- rotation ----

  /** ror(key, 8 * d): (key << (64 - 8 * d)) | (key >> 8 * d). */
  function Ror(key: Key, d: nat): Key
    requires 1 <= d <= 7
  {
    match d
    case 1 => (key << 56) | (key >> 8)
    case 2 => (key << 48) | (key >> 16)
    case 3 => (key << 40) | (key >> 24)
    case 4 => (key << 32) | (key >> 32)
    case 5 => (key << 24) | (key >> 40)
    case 6 => (key << 16) | (key >> 48)
    case 7 => (key << 8) | (key >> 56)
  }

  // Octet j of the rotated key, for each number of octets (together they are slow).

  lemma RorOctet1(key: Key, j: nat)
    requires j < 8
    ensures Octet(Ror(key, 1), j) == Octet(key, (j + 1) % 8)
  {
    match j case 0 => case 1 => case 2 => case 3 => case 4 => case 5 => case 6 => case 7 =>
  }

  lemma RorOctet2(key: Key, j: nat)
    requires j < 8
    ensures Octet(Ror(key, 2), j) == Octet(key, (j + 2) % 8)
  {
    match j case 0 => case 1 => case 2 => case 3 => case 4 => case 5 => case 6 => case 7 =>
  }

  lemma RorOctet3(key: Key, j: nat)
    requires j < 8
    ensures Octet(Ror(key, 3), j) == Octet(key, (j + 3) % 8)
  {
    match j case 0 => case 1 => case 2 => case 3 => case 4 => case 5 => case 6 => case 7 =>
  }

  lemma RorOctet4(key: Key, j: nat)
    requires j < 8
    ensures Octet(Ror(key, 4), j) == Octet(key, (j + 4) % 8)
  {
    match j case 0 => case 1 => case 2 => case 3 => case 4 => case 5 => case 6 => case 7 =>
  }

  lemma RorOctet5(key: Key, j: nat)
    requires j < 8
    ensures Octet(Ror(key, 5), j) == Octet(key, (j + 5) % 8)
  {
    match j case 0 => case 1 => case 2 => case 3 => case 4 => case 5 => case 6 => case 7 =>
  }

  lemma RorOctet6(key: Key, j: nat)
    requires j < 8
    ensures Octet(Ror(key, 6), j) == Octet(key, (j + 6) % 8)
  {
    match j case 0 => case 1 => case 2 => case 3 => case 4 => case 5 => case 6 => case 7 =>
  }

  lemma RorOctet7(key: Key, j: nat)
    requires j < 8
    ensures Octet(Ror(key, 7), j) == Octet(key, (j + 7) % 8)
  {
    match j case 0 => case 1 => case 2 => case 3 => case 4 => case 5 => case 6 => case 7 =>
  }

  lemma RorOctet(key: Key, d: nat, j: nat)
    requires 1 <= d <= 7 && j < 8
    ensures Octet(Ror(key, d), j) == Octet(key, (j + d) % 8)
  {
    hide Octet, Ror;
    match d
    case 1 => RorOctet1(key, j);
    case 2 => RorOctet2(key, j);
    case 3 => RorOctet3(key, j);
    case 4 => RorOctet4(key, j);
    case 5 => RorOctet5(key, j);
    case 6 => RorOctet6(key, j);
    case 7 => RorOctet7(key, j);
  }

  lemma RorAdvances(key: Key, d: nat)
    requires 1 <= d <= 7
    ensures IsAdvanced(key, d, Ror(key, d))
  {
    hide Octet, Ror;
    forall k: nat
      ensures KeyAt(Ror(key, d), k) == KeyAt(key, k + d)
    {
      RorOctet(key, d, k % 8);
      OctetIndex(k, d);
    }
  }

  lemma OctetIndex(k: nat, d: nat)
    ensures (k % 8 + d) % 8 == (k + d) % 8
  {
  }

  lemma AdvanceTwice(key: Key, m: nat, key': Key, n: nat, key'': Key)
    requires IsAdvanced(key, m, key') && IsAdvanced(key', n, key'')
    ensures IsAdvanced(key, m + n, key'')
  {
    hide KeyAt;
    forall k: nat
      ensures KeyAt(key'', k) == KeyAt(key, k + (m + n))
    {
      assert KeyAt(key', k + n) == KeyAt(key, (k + n) + m);
    }
  }

  lemma AdvanceByWords(key: Key, n: nat)
    requires n % 8 == 0
    ensures IsAdvanced(key, n, key)
  {
    hide Octet;
    forall k: nat
      ensures KeyAt(key, k) == KeyAt(key, k + n)
    {
      assert (k + n) % 8 == k % 8;
    }
  }

  /** Masking a message in two parts, with the key carried over. */
  lemma MaskedAppend(a: seq<Byte>, b: seq<Byte>, key: Key, key': Key)
    requires IsAdvanced(key, |a|, key')
    ensures Masked(a + b, key) == Masked(a, key) + Masked(b, key')
  {
    hide KeyAt, Mix;
    var all, m, n := Masked(a + b, key), Masked(a, key), Masked(b, key');
    forall k | 0 <= k < |b|
      ensures all[|a| + k] == n[k]
    {
      assert KeyAt(key', k) == KeyAt(key, k + |a|);
      assert (a + b)[|a| + k] == b[k];
    }
    assert all[..|a|] == m;
    assert all[|a|..] == n;
  }

  // ---- the implementation ----

  /** Either switch of mask_inplace_fast: octets d-1, ..., 0 by fall-through. */
  method MaskSome(b: array<Byte>, at: nat, d: nat, key: Key)
    requires d <= 7 && at + d <= b.Length
    modifies b
    ensures b[..] == old(b[..at]) + Masked(old(b[at..at + d]), key) + old(b[at + d..])
  {
    hide Octet, Mix;
    for i := d downto 0
      invariant forall k :: at + i <= k < at + d ==> b[k] == Mix(old(b[k]), Octet(key, k - at))
      invariant forall k :: 0 <= k < b.Length && !(at + i <= k < at + d) ==> b[k] == old(b[k])
    {
      b[at + i] := Mix(b[at + i], Octet(key, i));
    }
    assert b[at..at + d] == Masked(old(b[at..at + d]), key);
    assert b[..] == b[..at] + b[at..at + d] + b[at + d..];
  }

  lemma XorWord(s: seq<Byte>, at: nat, key: Key)
    requires at + 8 <= |s|
    ensures var w := LoadWord(s, at) ^ key;
            && Octet(w, 0) == Mix(s[at], Octet(key, 0))
            && Octet(w, 1) == Mix(s[at + 1], Octet(key, 1))
            && Octet(w, 2) == Mix(s[at + 2], Octet(key, 2))
            && Octet(w, 3) == Mix(s[at + 3], Octet(key, 3))
            && Octet(w, 4) == Mix(s[at + 4], Octet(key, 4))
            && Octet(w, 5) == Mix(s[at + 5], Octet(key, 5))
            && Octet(w, 6) == Mix(s[at + 6], Octet(key, 6))
            && Octet(w, 7) == Mix(s[at + 7], Octet(key, 7))
  {
  }

  lemma XorWordAt(s: seq<Byte>, at: nat, key: Key, j: nat)
    requires at + 8 <= |s| && j < 8
    ensures Octet(LoadWord(s, at) ^ key, j) == Mix(s[at + j], Octet(key, j))
  {
    hide Octet, LoadWord, Mix;
    XorWord(s, at, key);
  }

  /** One word of the middle loop: load, combine, store. */
  method MaskWord(b: array<Byte>, at: nat, key: Key)
    requires at + 8 <= b.Length
    modifies b
    ensures b[..] == old(b[..at]) + Masked(old(b[at..at + 8]), key) + old(b[at + 8..])
  {
    hide Octet, LoadWord, Mix;
    var w := LoadWord(b[..], at) ^ key;
    for j := 0 to 8
      invariant forall k :: at <= k < at + j ==> b[k] == Mix(old(b[k]), Octet(key, k - at))
      invariant forall k :: 0 <= k < b.Length && !(at <= k < at + j) ==> b[k] == old(b[k])
    {
      XorWordAt(old(b[..]), at, key, j);
      b[at + j] := Octet(w, j);
    }
    assert b[at..at + 8] == Masked(old(b[at..at + 8]), key);
    assert b[..] == b[..at] + b[at..at + 8] + b[at + 8..];
  }

  /** The state of mask_inplace_fast with everything before p done. */
  ghost predicate DoneTo(now: seq<Byte>, was: seq<Byte>, at: nat, p: nat, key0: Key, key: Key) {
    && at <= p <= |was| && |now| == |was|
    && now == was[..at] + Masked(was[at..p], key0) + was[p..]
    && IsAdvanced(key0, p - at, key)
  }

  lemma DoneStart(was: seq<Byte>, at: nat, key: Key)
    requires at <= |was|
    ensures DoneTo(was, was, at, at, key, key)
  {
    AdvanceByWords(key, 0);
    assert was == was[..at] + Masked(was[at..at], key) + was[at..];
  }

  lemma DoneMore(now: seq<Byte>, next: seq<Byte>, was: seq<Byte>, at: nat, p: nat, d: nat, key0: Key, key: Key, key': Key)
    requires DoneTo(now, was, at, p, key0, key) && |now| == |was| && p + d <= |was| && IsAdvanced(key, d, key')
    requires next == now[..p] + Masked(now[p..p + d], key) + now[p + d..]
    ensures DoneTo(next, was, at, p + d, key0, key')
  {
    hide IsAdvanced, Masked, KeyAt;
    AdvanceTwice(key0, p - at, key, d, key');
    MaskedAppend(was[at..p], was[p..p + d], key0, key);
    assert was[at..p] + was[p..p + d] == was[at..p + d];
    assert now[..p] == was[..at] + Masked(was[at..p], key0);
    assert now[p..] == was[p..];
    assert now[p..p + d] == was[p..p + d] && now[p + d..] == was[p + d..];
    assert next == was[..at] + (Masked(was[at..p], key0) + Masked(was[p..p + d], key)) + was[p + d..];
  }

  lemma DoneAt(now: seq<Byte>, was: seq<Byte>, at: nat, p: nat, key0: Key, key: Key)
    requires DoneTo(now, was, at, p, key0, key)
    ensures at <= p <= |was| && now == was[..at] + Masked(was[at..p], key0) + was[p..] && IsAdvanced(key0, p - at, key)
  {
  }

  /** One switch with the rotation that follows it. */
  method MaskOctets(b: array<Byte>, p: nat, d: nat, key: Key, ghost was: seq<Byte>, ghost at: nat, ghost key0: Key)
    returns (next: Key)
    requires 1 <= d <= 7 && p + d <= b.Length == |was|
    requires DoneTo(b[..], was, at, p, key0, key)
    modifies b
    ensures DoneTo(b[..], was, at, p + d, key0, next)
  {
    hide *;
    ghost var now := b[..];
    MaskSome(b, p, d, key);
    RorAdvances(key, d);
    next := Ror(key, d);
    DoneMore(now, b[..], was, at, p, d, key0, key, next);
  }

  /** The middle loop. */
  method MaskWords(b: array<Byte>, p0: nat, count: nat, key: Key, ghost was: seq<Byte>, ghost at: nat, ghost key0: Key)
    requires p0 + 8 * count <= b.Length == |was|
    requires DoneTo(b[..], was, at, p0, key0, key)
    modifies b
    ensures DoneTo(b[..], was, at, p0 + 8 * count, key0, key)
  {
    hide *;
    var p, i := p0, count;
    while i > 0
      invariant 0 <= i && p == p0 + 8 * (count - i)
      invariant DoneTo(b[..], was, at, p, key0, key)
    {
      ghost var now := b[..];
      MaskWord(b, p, key);
      AdvanceByWords(key, 8);
      DoneMore(now, b[..], was, at, p, 8, key0, key, key);
      p := p + 8;
      i := i - 1;
    }
  }

  /** mask_inplace_fast on the octets of b from index at on; the first of them
      has the given address. */
  method MaskInplace(b: array<Byte>, at: nat, length: nat, address: nat, key0: Key) returns (key: Key)
    requires at + length <= b.Length
    modifies b
    ensures b[..] == old(b[..at]) + Masked(old(b[at..at + length]), key0) + old(b[at + length..])
    ensures IsAdvanced(key0, length, key)
  {
    hide *;
    ghost var was := b[..];
    key := key0;
    var p, n := at, length;
    DoneStart(was, at, key);
    if n >= 8 && address % 8 != 0 {
      var d := 8 - address % 8;
      key := MaskOctets(b, p, d, key, was, at, key0);
      n := n - d;
      p := p + d;
    }
    MaskWords(b, p, n / 8, key, was, at, key0);
    p := p + 8 * (n / 8);
    n := n % 8;
    if n != 0 {
      key := MaskOctets(b, p, n, key, was, at, key0);
      p := p + n;
    }
    DoneAt(b[..], was, at, p, key0, key);
    assert was == old(b[..]);
  }

  function Contents(bufs: seq<array<Byte>>): (r: seq<seq<Byte>>)
    reads bufs
    ensures |r| == |bufs|
  {
    seq(|bufs|, i requires 0 <= i < |bufs| reads bufs => bufs[i][..])
  }

  /** mask_inplace on a buffer sequence: one message, however it is stored. */
  method MaskBuffers(bufs: seq<array<Byte>>, addresses: seq<nat>, key0: Key) returns (key: Key)
    requires |addresses| == |bufs|
    requires forall i, j :: 0 <= i < j < |bufs| ==> bufs[i] != bufs[j]
    modifies bufs
    ensures Flatten(Contents(bufs)) == Masked(Flatten(old(Contents(bufs))), key0)
    ensures IsAdvanced(key0, |Flatten(old(Contents(bufs)))|, key)
  {
    hide *;
    ghost var was := Contents(bufs);
    ContentsAt(bufs);
    ghost var done: seq<seq<Byte>> := [];
    key := key0;
    MaskedNothing(was, key);
    for i := 0 to |bufs|
      invariant |done| == i && forall j :: 0 <= j < i ==> bufs[j][..] == done[j]
      invariant forall j :: i <= j < |bufs| ==> bufs[j][..] == was[j]
      invariant Flatten(done) == Masked(Flatten(was[..i]), key0)
      invariant IsAdvanced(key0, |Flatten(was[..i])|, key)
    {
      var next := MaskInplace(bufs[i], 0, bufs[i].Length, addresses[i], key);
      assert was[i][0..|was[i]|] == was[i];
      MaskedOneMore(was, done, i, key0, key, next);
      done := done + [bufs[i][..]];
      key := next;
    }
    ContentsAt(bufs);
    assert Contents(bufs) == done;
    assert was[..|bufs|] == was;
  }

  lemma ContentsAt(bufs: seq<array<Byte>>)
    ensures forall j :: 0 <= j < |bufs| ==> Contents(bufs)[j] == bufs[j][..]
  {
  }

  lemma MaskedNothing(was: seq<seq<Byte>>, key: Key)
    ensures Flatten<Byte>([]) == Masked(Flatten(was[..0]), key) == []
    ensures IsAdvanced(key, |Flatten(was[..0])|, key)
  {
    AdvanceByWords(key, 0);
  }

  lemma MaskedOneMore(was: seq<seq<Byte>>, done: seq<seq<Byte>>, i: nat, key0: Key, key: Key, next: Key)
    requires i < |was| && Flatten(done) == Masked(Flatten(was[..i]), key0)
    requires IsAdvanced(key0, |Flatten(was[..i])|, key) && IsAdvanced(key, |was[i]|, next)
    ensures Flatten(done + [[] + Masked(was[i], key) + []]) == Masked(Flatten(was[..i + 1]), key0)
    ensures IsAdvanced(key0, |Flatten(was[..i + 1])|, next)
  {
    hide IsAdvanced, Masked, Flatten;
    FlattenTake(was, i);
    assert [] + Masked(was[i], key) + [] == Masked(was[i], key);
    FlattenSnoc(done, Masked(was[i], key));
    MaskedAppend(Flatten(was[..i]), was[i], key0, key);
    AdvanceTwice(key0, |Flatten(was[..i])|, key, |was[i]|, next);
  }

  /** Masking is undone by masking again with the same starting key. */
  lemma MaskTwice(s: seq<Byte>, key: Key)
    ensures Masked(Masked(s, key), key) == s
  {
    hide Octet, Mix;
    forall k | 0 <= k < |s|
      ensures Mix(Mix(s[k], KeyAt(key, k)), KeyAt(key, k)) == s[k]
    {
      MixTwice(s[k], KeyAt(key, k));
    }
  }

  lemma MixTwice(x: Byte, y: Byte)
    ensures Mix(Mix(x, y), y) == x
  {
  }

  /** prepare_key for a 64-bit prepared key. */
  function PrepareKey(key: bv32): Key { (key as Key << 32) | (key as Key) }

  /** Octet i of a masking key as it arrives in a frame (read little-endian). */
  function MaskingKeyOctet(key: bv32, i: nat): Byte
    requires i < 4
  {
    if i == 0 then (key & 0xff) as Byte
    else if i == 1 then ((key >> 8) & 0xff) as Byte
    else if i == 2 then ((key >> 16) & 0xff) as Byte
    else ((key >> 24) & 0xff) as Byte
  }

  lemma PreparedOctets(key: bv32)
    ensures Octet(PrepareKey(key), 0) == Octet(PrepareKey(key), 4) == MaskingKeyOctet(key, 0)
    ensures Octet(PrepareKey(key), 1) == Octet(PrepareKey(key), 5) == MaskingKeyOctet(key, 1)
    ensures Octet(PrepareKey(key), 2) == Octet(PrepareKey(key), 6) == MaskingKeyOctet(key, 2)
    ensures Octet(PrepareKey(key), 3) == Octet(PrepareKey(key), 7) == MaskingKeyOctet(key, 3)
  {
  }

  /** Section 5.3 of RFC 6455: octet i is combined with key octet i mod 4. */
  lemma MaskedIsRfc6455(s: seq<Byte>, key: bv32, i: nat)
    requires i < |s|
    ensures Masked(s, PrepareKey(key))[i] == s[i] ^ MaskingKeyOctet(key, i % 4)
  {
    hide Octet, MaskingKeyOctet, PrepareKey;
    PreparedOctets(key);
  }

  /** The same for a key read from the four octets of a frame header. */
  lemma MaskedByFrame(s: seq<Byte>, k0: Byte, k1: Byte, k2: Byte, k3: Byte, i: nat)
    requires i < |s|
    ensures var key := k0 as bv32 | (k1 as bv32 << 8) | (k2 as bv32 << 16) | (k3 as bv32 << 24);
            Masked(s, PrepareKey(key))[i] == s[i] ^ [k0, k1, k2, k3][i % 4]
  {
    hide *;
    var key := k0 as bv32 | (k1 as bv32 << 8) | (k2 as bv32 << 16) | (k3 as bv32 << 24);
    MaskedIsRfc6455(s, key, i);
    KeyOctetAt(k0, k1, k2, k3, i % 4);
  }

  lemma KeyOctetAt(k0: Byte, k1: Byte, k2: Byte, k3: Byte, j: nat)
    requires j < 4
    ensures MaskingKeyOctet(k0 as bv32 | (k1 as bv32 << 8) | (k2 as bv32 << 16) | (k3 as bv32 << 24), j) ==
            [k0, k1, k2, k3][j]
  {
    hide MaskingKeyOctet;
    KeyOctets(k0, k1, k2, k3);
  }

  lemma KeyOctets(k0: Byte, k1: Byte, k2: Byte, k3: Byte)
    ensures var key := k0 as bv32 | (k1 as bv32 << 8) | (k2 as bv32 << 16) | (k3 as bv32 << 24);
            && MaskingKeyOctet(key, 0) == k0 && MaskingKeyOctet(key, 1) == k1
            && MaskingKeyOctet(key, 2) == k2 && MaskingKeyOctet(key, 3) == k3
  {
  }
}
