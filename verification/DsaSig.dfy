/** Unpacking an ECDSA signature: the two integers of the sequence, and nothing else. */
module DsaSig {
  import opened Bytes
  import opened Asn1

  const P256_NBYTES: nat := 32

  /** 2^256 */
  function Bound(): (n: nat) { Power256(P256_NBYTES) }

  // ----- big-endian values

  lemma {:induction false} ValueOfCons(b: byte, s: seq<byte>)
    ensures BigEndian([b] + s) == (b as int) * Power256(|s|) + BigEndian(s)
  {
    var t := [b] + s;
    if s == [] {
      assert t[..0] == [];
      assert BigEndian(t) == BigEndian([]) * 256 + b;
    } else {
      var init := s[..|s| - 1];
      assert t[..|t| - 1] == [b] + init;
      ValueOfCons(b, init);
      Scaled(b, Power256(|init|), BigEndian(init));
    }
  }

  lemma Scaled(b: int, p: nat, v: nat)
    ensures (b * p + v) * 256 == b * (256 * p) + v * 256
  {
    assert (b * p) * 256 == b * (256 * p);
  }

  /** Without its leading zero bytes. */
  function Stripped(s: seq<byte>): (r: seq<byte>)
    ensures r == [] || r[0] != 0
    ensures |r| <= |s|
  {
    if s != [] && s[0] == 0 then Stripped(s[1..]) else s
  }

  /** Trimming preserves the value. */
  lemma {:induction false} StrippedValue(s: seq<byte>)
    ensures BigEndian(Stripped(s)) == BigEndian(s)
  {
    if s != [] && s[0] == 0 {
      assert s == [0] + s[1..];
      ValueOfCons(0, s[1..]);
      StrippedValue(s[1..]);
    }
  }

  lemma {:induction false} Grows(a: nat, b: nat)
    requires a <= b
    ensures Power256(a) <= Power256(b)
  {
    if a < b { Grows(a, b - 1); }
  }

  /** The size that is left says how large the value is. */
  lemma StrippedSize(s: seq<byte>)
    ensures Stripped(s) == [] <==> BigEndian(s) == 0
    ensures |Stripped(s)| <= P256_NBYTES <==> BigEndian(s) < Bound()
  {
    hide BigEndian, Power256, Bound;
    var t := Stripped(s);
    StrippedValue(s);
    BoundIs();
    if t == [] {
      EmptyValue();
    } else {
      assert t == [t[0]] + t[1..];
      ValueOfCons(t[0], t[1..]);
      AtLeastOnce(t[0], Power256(|t| - 1), BigEndian(t[1..]));
      BigEndianBound(t);
      if |t| <= P256_NBYTES { Grows(|t|, P256_NBYTES); } else { Grows(P256_NBYTES, |t| - 1); }
    }
  }

  lemma BoundIs()
    ensures Bound() == Power256(P256_NBYTES) > 0
  {
    hide Power256;
  }

  lemma EmptyValue()
    ensures BigEndian([]) == 0
  {}

  lemma AtLeastOnce(b: int, p: nat, v: nat)
    requires b > 0
    ensures b * p + v >= p
  {
    assert b * p >= 1 * p;
  }

  lemma {:induction false} LeadingZeros(n: nat, s: seq<byte>)
    ensures BigEndian(Zeros(n) + s) == BigEndian(s)
  {
    if n == 0 {
      assert Zeros(0) + s == s;
    } else {
      assert Zeros(n) + s == [0] + (Zeros(n - 1) + s);
      ValueOfCons(0, Zeros(n - 1) + s);
      LeadingZeros(n - 1, s);
    }
  }

  function Zeros(n: nat): (s: seq<byte>)
    ensures |s| == n && forall k :: 0 <= k < n ==> s[k] == 0
  {
    if n == 0 then [] else [0] + Zeros(n - 1)
  }

  // ----- the code

  /**
   * trim_to_p256_bytes. The loop looks at a byte before it looks at the length, so the byte after a
   * number that is zero must be readable too.
   */
  method TrimToP256Bytes(dst: array<byte>, mem: seq<byte>, at: nat, length: nat) returns (ok: bool)
    requires dst.Length == P256_NBYTES && at + length <= |mem|
    requires BigEndian(mem[at..at + length]) == 0 ==> at + length < |mem|
    modifies dst
    ensures ok <==> 0 < BigEndian(mem[at..at + length]) < Bound()
    ensures ok ==> BigEndian(dst[..]) == BigEndian(mem[at..at + length])
  {
    hide BigEndian, Bound, Stripped;
    ghost var number := mem[at..at + length];
    StrippedSize(number);
    var src, left := SkipZeros(mem, at, length);
    if left > P256_NBYTES || left < 1 { return false; }
    StrippedValue(number);
    AlignToEnd(dst, mem[src..src + left]);
    return true;
  }

  /** The loop of trim_to_p256_bytes. */
  method SkipZeros(mem: seq<byte>, at: nat, length: nat) returns (src: nat, left: nat)
    requires at + length <= |mem| && (Stripped(mem[at..at + length]) == [] ==> at + length < |mem|)
    ensures src + left == at + length && mem[src..src + left] == Stripped(mem[at..at + length])
  {
    src, left := at, length;
    assert left == 0 ==> Stripped(mem[src..src + left]) == [];
    while mem[src] == 0 && left > 0
      invariant at <= src && src + left == at + length && src < |mem|
      invariant Stripped(mem[at..at + length]) == Stripped(mem[src..src + left])
    {
      assert mem[src..src + left][1..] == mem[src + 1..src + left];
      src, left := src + 1, left - 1;
      assert left == 0 ==> Stripped(mem[src..src + left]) == [];
    }
  }

  /** memset and memcpy: the number at the end, zeros before it. */
  method AlignToEnd(dst: array<byte>, number: seq<byte>)
    requires |number| <= dst.Length
    modifies dst
    ensures BigEndian(dst[..]) == BigEndian(number)
  {
    hide BigEndian;
    var offset := dst.Length - |number|;
    for k := 0 to offset
      invariant forall j :: 0 <= j < k ==> dst[j] == 0
    {
      dst[k] := 0;
    }
    for k := 0 to |number|
      invariant forall j :: 0 <= j < offset ==> dst[j] == 0
      invariant forall j :: offset <= j < offset + k ==> dst[j] == number[j - offset]
    {
      dst[offset + k] := number[k];
    }
    assert dst[..] == Zeros(offset) + number;
    LeadingZeros(offset, number);
  }

  /** Two integers that fill the sequence exactly, in the short form of lengths. */
  predicate Framed(sig: seq<byte>, r: seq<byte>, s: seq<byte>) {
    && r != [] && s != [] && 4 + |r| + |s| < 256
    && sig == [0x30, 4 + |r| + |s|] + ([0x02, |r|] + r) + ([0x02, |s|] + s)
  }

  lemma FrameParts(sig: seq<byte>, r: seq<byte>, s: seq<byte>)
    requires Framed(sig, r, s)
    ensures |sig| == 6 + |r| + |s| && sig[0] == 0x30 && sig[1] == |sig| - 2 && sig[2] == 0x02 && sig[3] == |r|
    ensures sig[4..4 + |r|] == r && sig[4 + |r|] == 0x02 && sig[5 + |r|] == |s| && sig[6 + |r|..] == s
  {}

  lemma PartsFrame(sig: seq<byte>, n: nat, m: nat)
    requires n > 0 && m > 0 && |sig| == 6 + n + m && 4 + n + m < 256
    requires sig[0] == 0x30 && sig[1] == 4 + n + m && sig[2] == 0x02 && sig[3] == n
    requires sig[4 + n] == 0x02 && sig[5 + n] == m
    ensures Framed(sig, sig[4..4 + n], sig[6 + n..])
  {
    var r, s := sig[4..4 + n], sig[6 + n..];
    var whole := [0x30, 4 + n + m] + ([0x02, n] + r) + ([0x02, m] + s);
    forall k | 0 <= k < |sig| ensures sig[k] == whole[k] {
      if 4 <= k < 4 + n { assert r[k - 4] == sig[k]; } else if k >= 6 + n { assert s[k - 6 - n] == sig[k]; }
    }
  }

  /** The two integers that the header octets delimit. */
  function Parts(sig: seq<byte>): (r: Option<(seq<byte>, seq<byte>)>) {
    if |sig| < 8 || sig[0] != 0x30 || sig[2] != 0x02 || sig[1] as int + 2 != |sig| then None
    else
      var n: int := sig[3];
      if n < 1 || n > |sig| - 7 || sig[4 + n] != 0x02 then None
      else
        var m: int := sig[5 + n];
        if m < 1 || m != |sig| - 6 - n then None else Some((sig[4..4 + n], sig[6 + n..]))
  }

  /** The header octets delimit exactly the integers of a frame. */
  lemma PartsIff(sig: seq<byte>, r: seq<byte>, s: seq<byte>)
    ensures Parts(sig) == Some((r, s)) <==> Framed(sig, r, s)
  {
    if Framed(sig, r, s) { FrameParts(sig, r, s); }
    if Parts(sig) == Some((r, s)) { PartsFrame(sig, |r|, |s|); }
  }

  predicate InRange(x: seq<byte>) { 0 < BigEndian(x) < Bound() }

  function Unpacked(sig: seq<byte>): (r: Option<(nat, nat)>) {
    match Parts(sig)
    case None => None
    case Some((r, s)) => if InRange(r) && InRange(s) then Some((BigEndian(r), BigEndian(s))) else None
  }

  /** A signature is accepted if and only if it consists of two integers in range, and nothing else. */
  lemma AcceptedIff(sig: seq<byte>, v: nat, w: nat)
    ensures Unpacked(sig) == Some((v, w)) <==>
            exists r, s :: Framed(sig, r, s) && InRange(r) && InRange(s) && BigEndian(r) == v && BigEndian(s) == w
  {
    hide BigEndian, Parts, Framed, InRange, Bound;
    forall r, s ensures Parts(sig) == Some((r, s)) <==> Framed(sig, r, s) { PartsIff(sig, r, s); }
  }

  /** The second integer is zero, and is looked at. */
  predicate EndsInZero(sig: seq<byte>) {
    Parts(sig).Some? && InRange(Parts(sig).value.0) && BigEndian(Parts(sig).value.1) == 0
  }

  /** dsa_sig_unpack; the byte after the signature is read only if the second integer is zero. */
  method DsaSigUnpack(mem: seq<byte>, length: nat) returns (result: Option<(nat, nat)>)
    requires length <= |mem| && (EndsInZero(mem[..length]) ==> length < |mem|)
    ensures result == Unpacked(mem[..length])
  {
    hide BigEndian, Bound;
    ghost var sig := mem[..length];
    if length < 8 || mem[0] != 0x30 || mem[2] != 0x02 { return None; }
    var seqLen: int := mem[1];
    if seqLen <= 0 || seqLen + 2 != length { return None; }
    var rLen: int := mem[3];
    if rLen < 1 || rLen > seqLen - 5 || mem[4 + rLen] != 0x02 { return None; }
    var sLen: int := mem[5 + rLen];
    if sLen < 1 || sLen != seqLen - 4 - rLen { return None; }
    assert Parts(sig) == Some((sig[4..4 + rLen], sig[6 + rLen..]));
    hide Parts;
    var rBytes := new byte[P256_NBYTES];
    var sBytes := new byte[P256_NBYTES];
    WithinPrefix(mem, length, 4, 4 + rLen);
    WithinPrefix(mem, length, 6 + rLen, length);
    assert sig[6 + rLen..] == sig[6 + rLen..length];
    var rOk := TrimToP256Bytes(rBytes, mem, 4, rLen);
    if !rOk { return None; }
    var sOk := TrimToP256Bytes(sBytes, mem, 6 + rLen, sLen);
    if !sOk { return None; }
    return Some((BigEndian(rBytes[..]), BigEndian(sBytes[..])));
  }

  lemma WithinPrefix(mem: seq<byte>, n: nat, i: nat, j: nat)
    requires i <= j <= n <= |mem|
    ensures mem[..n][i..j] == mem[i..j]
  {}

  // ----- the DER encoding (section 2.2.3 of RFC 3279)

  /** The shortest octets whose top bit is zero. */
  function DerInteger(v: nat): (s: seq<byte>)
    requires v > 0
  {
    var octets := MinimalOctets(v);
    if octets != [] && octets[0] >= 0x80 then [0] + octets else octets
  }

  lemma DerIntegerIs(v: nat)
    requires 0 < v < Bound()
    ensures BigEndian(DerInteger(v)) == v && 0 < |DerInteger(v)| <= 33
  {
    hide BigEndian, MinimalOctets, Bound;
    BoundIs();
    var octets := MinimalOctets(v);
    MinimalSize(v, P256_NBYTES);
    MinimalValue(v);
    ValueOfCons(0, octets);
  }

  lemma MinimalValue(v: nat)
    ensures BigEndian(MinimalOctets(v)) == v
  {}

  function Der(r: nat, s: nat): (sig: seq<byte>)
    requires 0 < r < Bound() && 0 < s < Bound()
  {
    DerIntegerIs(r);
    DerIntegerIs(s);
    var x, y := DerInteger(r), DerInteger(s);
    [0x30, 4 + |x| + |y|] + ([0x02, |x|] + x) + ([0x02, |y|] + y)
  }

  /** Unpacking the encoding of r and s yields r and s. */
  lemma UnpacksDer(r: nat, s: nat)
    requires 0 < r < Bound() && 0 < s < Bound()
    ensures Unpacked(Der(r, s)) == Some((r, s))
  {
    hide BigEndian, DerInteger, Bound, Parts;
    DerIntegerIs(r);
    DerIntegerIs(s);
    assert Framed(Der(r, s), DerInteger(r), DerInteger(s));
    PartsIff(Der(r, s), DerInteger(r), DerInteger(s));
  }
}
