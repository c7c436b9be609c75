/**
 * The SHA-1 compression function: section 6.1.2 of FIPS 180-4 as the reference, the 80-word code of
 * libmincrypt, and the code of digest/sha1.cpp that keeps 16 words in place and rotates the roles of
 * its registers.
 */
module Sha1 {
  type word = bv32

  datatype Regs = Regs(a: word, b: word, c: word, d: word, e: word)

  function Rol1(x: word): (y: word) { (x << 1) | (x >> 31) }

  function Rol5(x: word): (y: word) { (x << 5) | (x >> 27) }

  function Rol8(x: word): (y: word) { (x << 8) | (x >> 24) }

  function Rol24(x: word): (y: word) { (x << 24) | (x >> 8) }

  function Rol30(x: word): (y: word) { (x << 30) | (x >> 2) }

  // ----- the reference

  function Ch(x: word, y: word, z: word): (r: word) { (x & y) ^ (!x & z) }

  function Parity(x: word, y: word, z: word): (r: word) { x ^ y ^ z }

  function Maj(x: word, y: word, z: word): (r: word) { (x & y) ^ (x & z) ^ (y & z) }

  function F(t: nat, x: word, y: word, z: word): (r: word) {
    if t < 20 then Ch(x, y, z) else if 40 <= t < 60 then Maj(x, y, z) else Parity(x, y, z)
  }

  function K(t: nat): (k: word) {
    if t < 20 then 0x5A827999 else if t < 40 then 0x6ED9EBA1 else if t < 60 then 0x8F1BBCDC else 0xCA62C1D6
  }

  /** The message schedule. */
  function W(m: seq<word>, t: nat): (w: word)
    requires |m| == 16
  {
    if t < 16 then m[t] else Rol1(W(m, t - 3) ^ W(m, t - 8) ^ W(m, t - 14) ^ W(m, t - 16))
  }

  function Sum(r: word, f: word, e: word, k: word, w: word): (s: word) { r + f + e + k + w }

  function Round(t: nat, r: Regs, w: word): (r': Regs) {
    Regs(Sum(Rol5(r.a), F(t, r.b, r.c, r.d), r.e, K(t), w), r.a, Rol30(r.b), r.c, r.d)
  }

  function Rounds(m: seq<word>, r: Regs, n: nat): (r': Regs)
    requires |m| == 16
  {
    if n == 0 then r else Round(n - 1, Rounds(m, r, n - 1), W(m, n - 1))
  }

  function Plus(r: Regs, s: Regs): (sum: Regs) {
    Regs(r.a + s.a, r.b + s.b, r.c + s.c, r.d + s.d, r.e + s.e)
  }

  function Compress(state: Regs, m: seq<word>): (state': Regs)
    requires |m| == 16
  {
    Plus(state, Rounds(m, state, 80))
  }

  // ----- words and bytes

  function BigEndian(b0: bv8, b1: bv8, b2: bv8, b3: bv8): (w: word) {
    ((b0 as bv32) << 24) | ((b1 as bv32) << 16) | ((b2 as bv32) << 8) | (b3 as bv32)
  }

  function LittleEndian(b0: bv8, b1: bv8, b2: bv8, b3: bv8): (w: word) {
    ((b3 as bv32) << 24) | ((b2 as bv32) << 16) | ((b1 as bv32) << 8) | (b0 as bv32)
  }

  /** The 16 words of a block. */
  function Words(block: seq<bv8>): (m: seq<word>)
    requires |block| == 64
    ensures |m| == 16
  {
    seq(16, t requires 0 <= t < 16 => BigEndian(block[4 * t], block[4 * t + 1], block[4 * t + 2], block[4 * t + 3]))
  }

  /** The byte swap of blk0. */
  function Swapped(x: word): (y: word) {
    (Rol24(x) & 0xFF00FF00) | (Rol8(x) & 0x00FF00FF)
  }

  lemma SwapIsBigEndian(b0: bv8, b1: bv8, b2: bv8, b3: bv8)
    ensures Swapped(LittleEndian(b0, b1, b2, b3)) == BigEndian(b0, b1, b2, b3)
  {}

  lemma ChooseForms(x: word, y: word, z: word)
    ensures z ^ (x & (y ^ z)) == Ch(x, y, z)
    ensures (x & (y ^ z)) ^ z == Ch(x, y, z)
  {}

  lemma MajorityForms(x: word, y: word, z: word)
    ensures (x & y) | (z & (x | y)) == Maj(x, y, z)
    ensures ((x | y) & z) | (x & y) == Maj(x, y, z)
  {}

  // ----- libmincrypt: 80 words

  method Transform80(state: Regs, buf: seq<bv8>) returns (state': Regs)
    requires |buf| == 64
    ensures state' == Compress(state, Words(buf))
  {
    hide W, Round, F, K, BigEndian;
    ghost var m := Words(buf);
    var w := new word[80];
    for t := 0 to 16
      invariant forall k :: 0 <= k < t ==> w[k] == W(m, k)
    {
      w[t] := BigEndian(buf[4 * t], buf[4 * t + 1], buf[4 * t + 2], buf[4 * t + 3]);
      FirstWords(m, t);
    }
    for t := 16 to 80
      invariant forall k :: 0 <= k < t ==> w[k] == W(m, k)
    {
      w[t] := Rol1(w[t - 3] ^ w[t - 8] ^ w[t - 14] ^ w[t - 16]);
      LaterWords(m, t);
    }
    var r := state;
    for t := 0 to 80
      invariant forall k :: 0 <= k < 80 ==> w[k] == W(m, k)
      invariant r == Rounds(m, state, t)
    {
      r := RoundOfMincrypt(t, r, w[t]);
    }
    return Plus(state, r);
  }

  lemma FirstWords(m: seq<word>, t: nat)
    requires |m| == 16 && t < 16
    ensures W(m, t) == m[t]
  {}

  lemma LaterWords(m: seq<word>, t: nat)
    requires |m| == 16 && t >= 16
    ensures W(m, t) == Rol1(W(m, t - 3) ^ W(m, t - 8) ^ W(m, t - 14) ^ W(m, t - 16))
  {}

  /** The functions of the four branches. */
  function Mix80(t: nat, b: word, c: word, d: word): (r: word) {
    if t < 20 then d ^ (b & (c ^ d))
    else if t < 40 then b ^ c ^ d
    else if t < 60 then (b & c) | (d & (b | c))
    else b ^ c ^ d
  }

  lemma Mix80IsF(t: nat, b: word, c: word, d: word)
    ensures Mix80(t, b, c, d) == F(t, b, c, d)
  {
    ChooseForms(b, c, d);
    MajorityForms(b, c, d);
  }

  /** The order in which the loop adds up. */
  function Sum80(r: word, e: word, w: word, f: word, k: word): (s: word) { r + e + w + (f + k) }

  lemma SumOrder80(r: word, e: word, w: word, f: word, k: word)
    ensures Sum80(r, e, w, f, k) == Sum(r, f, e, k, w)
  {}

  /** One pass of the loop over the registers. */
  method RoundOfMincrypt(t: nat, r: Regs, w: word) returns (r': Regs)
    ensures r' == Round(t, r, w)
  {
    hide Rol5, Rol30, F, K, Mix80, Sum, Sum80;
    Mix80IsF(t, r.b, r.c, r.d);
    SumOrder80(Rol5(r.a), r.e, w, Mix80(t, r.b, r.c, r.d), K(t));
    var tmp := Sum80(Rol5(r.a), r.e, w, Mix80(t, r.b, r.c, r.d), K(t));
    return Regs(tmp, r.a, Rol30(r.b), r.c, r.d);
  }

  // ----- digest/sha1.cpp: 16 words in place

  /**
   * The workspace before round `n`: the last words of the schedule, each at its index modulo 16, and
   * words that are not swapped yet.
   */
  ghost predicate Workspace(l: seq<word>, m: seq<word>, n: nat) {
    && |l| == 16 && |m| == 16
    && (forall j :: n - 16 <= j < n && j >= 0 ==> l[j % 16] == W(m, j))
    && (forall j :: n <= j < 16 ==> Swapped(l[j]) == m[j])
  }

  /** blk0 and blk: the word of round `i`, put into the workspace. */
  method Blk(l: array<word>, ghost m: seq<word>, i: nat) returns (w: word)
    requires Workspace(l[..], m, i)
    modifies l
    ensures w == W(m, i) && Workspace(l[..], m, i + 1)
  {
    hide W, Swapped;
    ghost var before := l[..];
    if i < 16 {
      FirstWords(m, i);
      w := Swapped(l[i]);
      l[i] := w;
      assert i % 16 == i;
      assert l[..] == before[i := w];
    } else {
      LaterWords(m, i);
      Indices(i);
      assert before[(i + 13) % 16] == W(m, i - 3) && before[(i + 8) % 16] == W(m, i - 8);
      assert before[(i + 2) % 16] == W(m, i - 14) && before[i % 16] == W(m, i - 16);
      w := Rol1(l[(i + 13) % 16] ^ l[(i + 8) % 16] ^ l[(i + 2) % 16] ^ l[i % 16]);
      l[i % 16] := w;
      assert l[..] == before[i % 16 := w];
    }
    WorkspaceStep(before, m, i, w);
  }

  lemma Indices(i: nat)
    requires i >= 16
    ensures (i + 13) % 16 == (i - 3) % 16 && (i + 8) % 16 == (i - 8) % 16
    ensures (i + 2) % 16 == (i - 14) % 16 && i % 16 == (i - 16) % 16
  {
    assert (i - 3) + 16 == i + 13 && (i - 8) + 16 == i + 8 && (i - 14) + 16 == i + 2;
    Turn(i - 3); Turn(i - 8); Turn(i - 14); Turn(i - 16);
  }

  lemma Turn(k: nat)
    ensures (k + 16) % 16 == k % 16
  {}

  lemma WorkspaceStep(l: seq<word>, m: seq<word>, i: nat, w: word)
    requires Workspace(l, m, i) && w == W(m, i)
    ensures Workspace(l[i % 16 := w], m, i + 1)
  {
    hide W, Swapped;
    var l' := l[i % 16 := w];
    forall j | i + 1 - 16 <= j < i + 1 && j >= 0 ensures l'[j % 16] == W(m, j) {
      if j < i { assert j % 16 != i % 16; }
    }
  }

  /** The function and the constant of macro R0, R1, R2, R3 or R4. */
  function Mix(i: nat, w: word, x: word, y: word): (r: word) {
    if i < 20 then (w & (x ^ y)) ^ y
    else if 40 <= i < 60 then ((w | x) & y) | (w & x)
    else w ^ x ^ y
  }

  lemma MixIsF(i: nat, w: word, x: word, y: word)
    ensures Mix(i, w, x, y) == F(i, w, x, y)
  {
    ChooseForms(w, x, y);
    MajorityForms(w, x, y);
  }

  /** One macro call: it changes its second and fifth register. */
  method R(l: array<word>, ghost m: seq<word>, i: nat, v: word, w: word, x: word, y: word, z: word)
    returns (w': word, z': word)
    requires Workspace(l[..], m, i)
    modifies l
    ensures Workspace(l[..], m, i + 1)
    ensures Regs(z', v, w', x, y) == Round(i, Regs(v, w, x, y, z), W(m, i))
  {
    hide W, Workspace, F, K, Mix, Rol5, Rol30, Sum, Sum16;
    var word := Blk(l, m, i);
    MixIsF(i, w, x, y);
    z' := Sum16(z, Mix(i, w, x, y), word, K(i), Rol5(v));
    w' := Rol30(w);
    SumOrder(Rol5(v), Mix(i, w, x, y), z, K(i), word);
  }

  /** The order in which the macros add up. */
  function Sum16(z: word, f: word, w: word, k: word, r: word): (s: word) { z + (f + w + k + r) }

  lemma SumOrder(r: word, f: word, z: word, k: word, w: word)
    ensures Sum16(z, f, w, k, r) == Sum(r, f, z, k, w)
  {}

  /** SHA1Transform: five macro calls bring the registers back to their places. */
  method Transform16(state: Regs, buffer: seq<bv8>) returns (state': Regs)
    requires |buffer| == 64
    ensures state' == Compress(state, Words(buffer))
  {
    hide W, Workspace, Round;
    ghost var m := Words(buffer);
    var l := LoadWorkspace(buffer);
    var a, b, c, d, e := state.a, state.b, state.c, state.d, state.e;
    var i := 0;
    while i < 80
      invariant 0 <= i <= 80 && i % 5 == 0 && fresh(l)
      invariant Workspace(l[..], m, i) && Regs(a, b, c, d, e) == Rounds(m, state, i)
    {
      b, e := R(l, m, i, a, b, c, d, e);
      a, d := R(l, m, i + 1, e, a, b, c, d);
      e, c := R(l, m, i + 2, d, e, a, b, c);
      d, b := R(l, m, i + 3, c, d, e, a, b);
      c, a := R(l, m, i + 4, b, c, d, e, a);
      FiveRounds(m, state, i);
      i := i + 5;
    }
    return Plus(state, Regs(a, b, c, d, e));
  }

  lemma FiveRounds(m: seq<word>, r: Regs, i: nat)
    requires |m| == 16
    ensures var r1 := Round(i, Rounds(m, r, i), W(m, i));
            var r2 := Round(i + 1, r1, W(m, i + 1));
            var r3 := Round(i + 2, r2, W(m, i + 2));
            var r4 := Round(i + 3, r3, W(m, i + 3));
            Rounds(m, r, i + 5) == Round(i + 4, r4, W(m, i + 4))
  {
    hide W, Round;
    assert Rounds(m, r, i + 1) == Round(i, Rounds(m, r, i), W(m, i));
    assert Rounds(m, r, i + 2) == Round(i + 1, Rounds(m, r, i + 1), W(m, i + 1));
    assert Rounds(m, r, i + 3) == Round(i + 2, Rounds(m, r, i + 2), W(m, i + 2));
    assert Rounds(m, r, i + 4) == Round(i + 3, Rounds(m, r, i + 3), W(m, i + 3));
  }

  /** memcpy of the block into words of a little-endian machine. */
  method LoadWorkspace(buffer: seq<bv8>) returns (l: array<word>)
    requires |buffer| == 64
    ensures fresh(l) && Workspace(l[..], Words(buffer), 0)
  {
    hide W, Swapped, LittleEndian, BigEndian;
    ghost var m := Words(buffer);
    l := new word[16];
    for t := 0 to 16
      invariant forall k :: 0 <= k < t ==> Swapped(l[k]) == m[k]
    {
      var b0, b1, b2, b3 := buffer[4 * t], buffer[4 * t + 1], buffer[4 * t + 2], buffer[4 * t + 3];
      l[t] := LittleEndian(b0, b1, b2, b3);
      SwapIsBigEndian(b0, b1, b2, b3);
    }
  }

  /** The two implementations compress every state and block alike. */
  method BothTransforms(state: Regs, block: seq<bv8>) returns (wide: Regs, inPlace: Regs)
    requires |block| == 64
    ensures wide == inPlace == Compress(state, Words(block))
  {
    wide := Transform80(state, block);
    inPlace := Transform16(state, block);
  }
}
