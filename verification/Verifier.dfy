/** The asn1_context cursor and read_pkcs7 as they run, and the part of verify_file that feeds them. */
module Verifier {
  import opened Bytes
  import opened Asn1

  /** A pointer into a buffer and a number of bytes. */
  class Asn1Context {
    const buffer: seq<byte>
    var p: nat
    var length: nat
    var appType: nat

    ghost predicate Valid()
      reads this
    {
      p + length <= |buffer|
    }

    ghost function Left(): (s: seq<byte>)
      requires Valid()
      reads this
      ensures |s| == length
    {
      buffer[p..p + length]
    }

    constructor (buffer: seq<byte>, p: nat, length: nat)
      requires p + length <= |buffer|
      ensures Valid() && this.buffer == buffer && this.p == p && this.length == length && appType == 0
    {
      this.buffer, this.p, this.length, this.appType := buffer, p, length, 0;
    }

    method PeekByte() returns (b: int)
      requires Valid()
      ensures b == if Left() == [] then -1 else Left()[0]
    {
      if length == 0 { return -1; }
      return buffer[p];
    }

    method GetByte() returns (b: int)
      requires Valid()
      modifies this`p, this`length
      ensures Valid() && p + length == old(p + length) && old(p) <= p
      ensures b == if old(Left()) == [] then -1 else old(Left())[0]
      ensures Left() == if old(Left()) == [] then [] else old(Left())[1..]
    {
      if length == 0 { return -1; }
      b := buffer[p];
      p, length := p + 1, length - 1;
    }

    method SkipBytes(n: nat) returns (ok: bool)
      requires Valid()
      modifies this`p, this`length
      ensures Valid() && p + length == old(p + length) && old(p) <= p
      ensures ok <==> n <= |old(Left())|
      ensures Left() == if ok then old(Left())[n..] else old(Left())
    {
      if length < n { return false; }
      p, length := p + n, length - n;
      return true;
    }

    method ReadLength() returns (r: Option<nat>)
      requires Valid()
      modifies this`p, this`length
      ensures Valid() && p + length == old(p + length) && old(p) <= p
      ensures match DecodeLength(old(Left()))
              case None => r.None?
              case Some(Sized(n, rest)) => r == Some(n) && Left() == rest
    {
      hide ReadOctets;
      var octets := GetByte();
      if octets == -1 { return None; }
      if octets < 0x80 { return Some(octets); }
      octets := octets % 0x80;
      if octets >= 8 { return None; }
      r := Accumulate(octets);
    }

    /** The loop of decode_length. */
    method Accumulate(count: nat) returns (r: Option<nat>)
      requires Valid()
      modifies this`p, this`length
      ensures Valid() && p + length == old(p + length) && old(p) <= p
      ensures match ReadOctets(old(Left()), count, 0)
              case None => r.None?
              case Some(Sized(n, rest)) => r == Some(n) && Left() == rest
    {
      ghost var start := Left();
      var n: nat := 0;
      for i := 0 to count
        invariant Valid() && p + length == old(p + length) && old(p) <= p
        invariant ReadOctets(Left(), count - i, n) == ReadOctets(start, count, 0)
      {
        var b := GetByte();
        if b == -1 { return None; }
        n := (n * 256) % TWO_64 + b;
      }
      return Some(n);
    }

    /** The contents as a context of their own; the cursor stays in front of them. */
    method Enter(accepts: byte -> bool) returns (r: Asn1Context?)
      requires Valid()
      modifies this`p, this`length
      ensures Valid() && p + length == old(p + length) && old(p) <= p
      ensures r == null <==> Contents(old(Left()), accepts).None?
      ensures r != null ==>
                && fresh(r) && r.Valid() && r.buffer == buffer
                && old(p) <= r.p && r.p + r.length <= old(p + length)
                && Contents(old(Left()), accepts) == Some(r.Left())
    {
      var tag := GetByte();
      if tag == -1 { return null; }
      if !accepts(tag) { return null; }
      var n := ReadLength();
      if n.None? { return null; }
      if n.value > length { return null; }
      assert Left()[..n.value] == buffer[p..p + n.value];
      r := new Asn1Context(buffer, p, n.value);
    }

    method SequenceGet() returns (r: Asn1Context?)
      requires Valid()
      modifies this`p, this`length
      ensures Valid() && p + length == old(p + length) && old(p) <= p
      ensures r == null <==> Contents(old(Left()), IsSequence).None?
      ensures r != null ==>
                && fresh(r) && r.Valid() && r.buffer == buffer
                && old(p) <= r.p && r.p + r.length <= old(p + length)
                && Contents(old(Left()), IsSequence) == Some(r.Left())
    {
      r := Enter(IsSequence);
    }

    method SetGet() returns (r: Asn1Context?)
      requires Valid()
      modifies this`p, this`length
      ensures Valid() && p + length == old(p + length) && old(p) <= p
      ensures r == null <==> Contents(old(Left()), IsSet).None?
      ensures r != null ==>
                && fresh(r) && r.Valid() && r.buffer == buffer
                && old(p) <= r.p && r.p + r.length <= old(p + length)
                && Contents(old(Left()), IsSet) == Some(r.Left())
    {
      r := Enter(IsSet);
    }

    /** Also remembers the application type: A0 -> 0. */
    method ConstructedGet() returns (r: Asn1Context?)
      requires Valid()
      modifies this`p, this`length
      ensures Valid() && p + length == old(p + length) && old(p) <= p
      ensures r == null <==> Contents(old(Left()), IsConstructed).None?
      ensures r != null ==>
                && fresh(r) && r.Valid() && r.buffer == buffer
                && old(p) <= r.p && r.p + r.length <= old(p + length)
                && Contents(old(Left()), IsConstructed) == Some(r.Left())
                && r.appType == old(Left())[0] % 0x20
    {
      var tag := PeekByte();
      r := Enter(IsConstructed);
      if r != null { r.appType := tag % 0x20; }
    }

    method SequenceNext() returns (ok: bool)
      requires Valid()
      modifies this`p, this`length
      ensures Valid() && p + length == old(p + length) && old(p) <= p
      ensures match Skip(old(Left())) case None => !ok case Some(rest) => ok && Left() == rest
    {
      var tag := GetByte();
      if tag == -1 { return false; }
      var n := ReadLength();
      if n.None? { return false; }
      ok := SkipBytes(n.value);
    }

    method ConstructedSkipAll() returns (ok: bool)
      requires Valid()
      modifies this`p, this`length
      ensures Valid() && p + length == old(p + length) && old(p) <= p
      ensures match SkipConstructed(old(Left())) case None => !ok case Some(rest) => ok && Left() == rest
    {
      hide DecodeLength;
      ghost var start := Left();
      var b := PeekByte();
      while b != -1 && IsConstructed(b)
        invariant Valid() && p + length == old(p + length) && old(p) <= p
        invariant b == if Left() == [] then -1 else Left()[0]
        invariant SkipConstructed(Left()) == SkipConstructed(start)
        decreases length
      {
        var more := SequenceNext();
        if !more { return false; }
        b := PeekByte();
      }
      return b != -1;
    }

    method SkipSeveral(count: nat) returns (ok: bool)
      requires Valid()
      modifies this`p, this`length
      ensures Valid() && p + length == old(p + length) && old(p) <= p
      ensures match SkipMany(old(Left()), count) case None => !ok case Some(rest) => ok && Left() == rest
    {
      hide Skip;
      ghost var start := Left();
      for i := 0 to count
        invariant Valid() && p + length == old(p + length) && old(p) <= p
        invariant SkipMany(Left(), count - i) == SkipMany(start, count)
      {
        var more := SequenceNext();
        if !more { return false; }
      }
      return true;
    }

    /** A slice of the buffer: where it starts and how long it is. */
    method OctetStringGet() returns (ok: bool, at: nat, size: nat)
      requires Valid()
      modifies this`p, this`length
      ensures Valid() && p + length == old(p + length) && old(p) <= p
      ensures ok <==> OctetString(old(Left())).Some?
      ensures ok ==>
                old(p) <= at && at + size <= old(p + length) && OctetString(old(Left())) == Some(buffer[at..at + size])
    {
      var tag := GetByte();
      if tag == -1 || !IsOctetString(tag) { return false, 0, 0; }
      var n := ReadLength();
      if n.None? { return false, 0, 0; }
      assert n.value <= length ==> Left()[..n.value] == buffer[p..p + n.value];
      if n.value == 0 || n.value > length { return false, 0, 0; }
      return true, p, n.value;
    }
  }

  /** The slice that the signer infos hold. */
  method SignatureOf(sigSet: Asn1Context) returns (r: Option<seq<byte>>)
    requires sigSet.Valid()
    modifies sigSet
    ensures r == SignatureIn(old(sigSet.Left()))
  {
    hide Contents, SkipMany, OctetString;
    var sigSeq := sigSet.SequenceGet();
    if sigSeq == null { return None; }
    var ok := sigSeq.SkipSeveral(4);
    if !ok { return None; }
    var found, at, size := sigSeq.OctetStringGet();
    if !found { return None; }
    return Some(sigSeq.buffer[at..at + size]);
  }

  method SignerInfosOf(signedData: Asn1Context) returns (r: Asn1Context?)
    requires signedData.Valid()
    modifies signedData
    ensures r == null <==> SignerInfos(old(signedData.Left())).None?
    ensures r != null ==> fresh(r) && r.Valid() && SignerInfos(old(signedData.Left())) == Some(r.Left())
  {
    hide Contents, SkipMany, SkipConstructed;
    var ok := signedData.SkipSeveral(3);
    if !ok { return null; }
    ok := signedData.ConstructedSkipAll();
    if !ok { return null; }
    r := signedData.SetGet();
  }

  /** read_pkcs7 on the bytes from `at`. */
  method ReadSignature(file: seq<byte>, at: nat, size: nat) returns (r: Option<seq<byte>>)
    requires at + size <= |file|
    ensures r == ReadPkcs7(file[at..at + size])
  {
    hide Contents, Skip, SignerInfos, SignatureIn;
    var ctx := new Asn1Context(file, at, size);
    var pkcs7 := ctx.SequenceGet();
    if pkcs7 == null { return None; }
    var ok := pkcs7.SequenceNext();
    if !ok { return None; }
    var app := pkcs7.ConstructedGet();
    if app == null { return None; }
    var signedData := app.SequenceGet();
    if signedData == null { return None; }
    var sigSet := SignerInfosOf(signedData);
    if sigSet == null { return None; }
    r := SignatureOf(sigSet);
  }

  // ----- the whole-file signature

  const FOOTER_SIZE: nat := 6
  const EOCD_HEADER_SIZE: nat := 22

  /** $50 $4b $05 $06 */
  predicate MarkerAt(file: seq<byte>, k: nat) {
    k + 4 <= |file| && file[k] == 0x50 && file[k + 1] == 0x4B && file[k + 2] == 0x05 && file[k + 3] == 0x06
  }

  function Short(lo: byte, hi: byte): (n: nat) { lo as int + 256 * (hi as int) }

  function TwoBytes(n: nat): (s: seq<byte>)
    requires n < 0x1_0000
    ensures |s| == 2
  {
    [n % 256, n / 256]
  }

  /**
   * A signed archive: `archive` up to and including all of the end-of-central-directory record but
   * its comment size, then the comment: a text, the signature and the footer.
   */
  datatype Signed = Signed(archive: seq<byte>, text: seq<byte>, signature: seq<byte>)

  predicate Valid(s: Signed) {
    |s.archive| >= EOCD_HEADER_SIZE - 2 && s.signature != [] && CommentSize(s) < 0x1_0000
  }

  function CommentSize(s: Signed): (n: nat) { |s.text| + |s.signature| + FOOTER_SIZE }

  function Footer(s: Signed): (f: seq<byte>)
    requires Valid(s)
    ensures |f| == FOOTER_SIZE
  {
    TwoBytes(|s.signature| + FOOTER_SIZE) + [0xFF, 0xFF] + TwoBytes(CommentSize(s))
  }

  /** `size` is what the comment size field of the record holds; nothing depends on it. */
  function FileOf(s: Signed, size: seq<byte>): (f: seq<byte>)
    requires Valid(s)
  {
    s.archive + size + s.text + s.signature + Footer(s)
  }

  /** The record starts with the marker, and the marker does not occur again after it. */
  ghost predicate OneMarker(s: Signed, size: seq<byte>)
    requires Valid(s)
  {
    var start := |s.archive| - (EOCD_HEADER_SIZE - 2);
    && MarkerAt(FileOf(s, size), start)
    && forall k :: start + 4 <= k < |FileOf(s, size)| ==> !MarkerAt(FileOf(s, size), k)
  }

  /** What verify_file takes from the file: the length that is signed, and where the signature is. */
  datatype Selection = Refused | Selected(signedLength: nat, at: nat, size: nat)

  /** The marker occurs at `eocd` and not again after it. */
  ghost predicate LastMarker(file: seq<byte>, eocd: nat) {
    MarkerAt(file, eocd) && forall k :: eocd + 4 <= k < |file| ==> !MarkerAt(file, k)
  }

  /** The checks of verify_file before it hashes anything. */
  ghost function Select(file: seq<byte>): (r: Selection) {
    var f := |file| - FOOTER_SIZE;
    if f < 0 || file[f + 2] != 0xFF || file[f + 3] != 0xFF then Refused
    else
      var commentSize, signatureStart := Short(file[f + 4], file[f + 5]), Short(file[f], file[f + 1]);
      if signatureStart > commentSize || signatureStart <= FOOTER_SIZE || |file| < commentSize + EOCD_HEADER_SIZE then
        Refused
      else if !LastMarker(file, |file| - commentSize - EOCD_HEADER_SIZE) then Refused
      else Selected(|file| - commentSize - 2, |file| - signatureStart, signatureStart - FOOTER_SIZE)
  }

  method SelectSignature(file: seq<byte>) returns (r: Selection)
    ensures r == Select(file)
  {
    var length := |file|;
    if length < FOOTER_SIZE { return Refused; }
    var f := length - FOOTER_SIZE;
    if file[f + 2] != 0xFF || file[f + 3] != 0xFF { return Refused; }
    var commentSize := Short(file[f + 4], file[f + 5]);
    var signatureStart := Short(file[f], file[f + 1]);
    if signatureStart > commentSize { return Refused; }
    if signatureStart <= FOOTER_SIZE { return Refused; }
    var eocdSize := commentSize + EOCD_HEADER_SIZE;
    if length < eocdSize { return Refused; }
    var signedLength := length - eocdSize + EOCD_HEADER_SIZE - 2;
    var fine := CheckMarker(file, length - eocdSize, eocdSize);
    if !fine { return Refused; }
    return Selected(signedLength, length - signatureStart, signatureStart - FOOTER_SIZE);
  }

  method CheckMarker(file: seq<byte>, eocd: nat, eocdSize: nat) returns (fine: bool)
    requires eocd + eocdSize == |file| && eocdSize >= EOCD_HEADER_SIZE
    ensures fine <==> LastMarker(file, eocd)
  {
    if !(file[eocd] == 0x50 && file[eocd + 1] == 0x4B && file[eocd + 2] == 0x05 && file[eocd + 3] == 0x06) {
      return false;
    }
    var i := 4;
    while i < eocdSize - 3
      invariant 4 <= i <= eocdSize - 3
      invariant forall k :: eocd + 4 <= k < eocd + i ==> !MarkerAt(file, k)
    {
      if file[eocd + i] == 0x50 && file[eocd + i + 1] == 0x4B && file[eocd + i + 2] == 0x05 &&
         file[eocd + i + 3] == 0x06 {
        assert MarkerAt(file, eocd + i);
        return false;
      }
      i := i + 1;
    }
    return true;
  }

  /** A selection stands for the parts of a signed file. */
  lemma SelectedIsSigned(file: seq<byte>)
    requires Select(file).Selected?
    ensures var r := Select(file);
            && r.signedLength + 2 <= r.at && r.at + r.size + FOOTER_SIZE == |file|
            && IsSelection(file, r, SignedOf(file, r))
  {
    hide IsSelection, LastMarker;
    var f := |file| - FOOTER_SIZE;
    SelectionIs(file, Select(file), Short(file[f + 4], file[f + 5]), Short(file[f], file[f + 1]));
  }

  /** A signed file with one marker is never refused, and its parts are what is selected. */
  lemma SignedIsSelected(file: seq<byte>, s: Signed, size: seq<byte>)
    requires Valid(s) && |size| == 2 && file == FileOf(s, size)
    ensures OneMarker(s, size) <==> Select(file).Selected?
    ensures OneMarker(s, size) ==>
              Select(file) == Selected(|s.archive|, |s.archive| + 2 + |s.text|, |s.signature|)
  {
    hide MarkerAt, FileOf, Footer;
    PartsOf(file, s, size);
  }

  /** The parts of the file that a selection stands for. */
  function SignedOf(file: seq<byte>, r: Selection): (s: Signed)
    requires r.Selected? && r.signedLength + 2 <= r.at && r.at + r.size <= |file|
  {
    Signed(file[..r.signedLength], file[r.signedLength + 2..r.at], file[r.at..r.at + r.size])
  }

  ghost predicate IsSelection(file: seq<byte>, r: Selection, s: Signed)
    requires r.Selected? && r.signedLength + 2 <= |file|
  {
    && Valid(s) && file == FileOf(s, file[r.signedLength..r.signedLength + 2])
    && OneMarker(s, file[r.signedLength..r.signedLength + 2])
  }

  /** What the footer of a signed file says. */
  predicate IsParts(file: seq<byte>, s: Signed) {
    var f := |file| - FOOTER_SIZE;
    && f >= 0 && |file| == |s.archive| + 2 + |s.text| + |s.signature| + FOOTER_SIZE
    && file[f + 2] == 0xFF && file[f + 3] == 0xFF
    && Short(file[f], file[f + 1]) == |s.signature| + FOOTER_SIZE
    && Short(file[f + 4], file[f + 5]) == CommentSize(s)
  }

  lemma PartsOf(file: seq<byte>, s: Signed, size: seq<byte>)
    requires Valid(s) && |size| == 2 && file == FileOf(s, size)
    ensures IsParts(file, s)
  {
    var f := |file| - FOOTER_SIZE;
    assert file[f..] == Footer(s);
    assert file[f] == Footer(s)[0] && file[f + 1] == Footer(s)[1] && file[f + 2] == Footer(s)[2];
    assert file[f + 3] == Footer(s)[3] && file[f + 4] == Footer(s)[4] && file[f + 5] == Footer(s)[5];
  }

  lemma SelectionIs(file: seq<byte>, r: Selection, commentSize: nat, signatureStart: nat)
    requires |file| >= FOOTER_SIZE && r.Selected?
    requires var f := |file| - FOOTER_SIZE;
             && file[f + 2] == 0xFF && file[f + 3] == 0xFF
             && commentSize == Short(file[f + 4], file[f + 5]) && signatureStart == Short(file[f], file[f + 1])
    requires FOOTER_SIZE < signatureStart <= commentSize && commentSize + EOCD_HEADER_SIZE <= |file|
    requires r == Selected(|file| - commentSize - 2, |file| - signatureStart, signatureStart - FOOTER_SIZE)
    requires LastMarker(file, |file| - commentSize - EOCD_HEADER_SIZE)
    ensures IsSelection(file, r, SignedOf(file, r))
  {
    hide MarkerAt, FileOf, Footer;
    var f := |file| - FOOTER_SIZE;
    FooterIs(file[f..], signatureStart, commentSize);
    PartsJoin(file, r.signedLength, r.at, f);
    JoinedFile(file, SignedOf(file, r), file[r.signedLength..r.signedLength + 2], signatureStart, commentSize);
  }

  lemma FooterIs(footer: seq<byte>, signatureStart: nat, commentSize: nat)
    requires |footer| == FOOTER_SIZE && footer[2] == 0xFF && footer[3] == 0xFF
    requires signatureStart == Short(footer[0], footer[1]) && commentSize == Short(footer[4], footer[5])
    ensures signatureStart < 0x1_0000 && commentSize < 0x1_0000
    ensures footer == TwoBytes(signatureStart) + [0xFF, 0xFF] + TwoBytes(commentSize)
  {
    assert TwoBytes(signatureStart) == [footer[0], footer[1]] && TwoBytes(commentSize) == [footer[4], footer[5]];
  }

  lemma PartsJoin(file: seq<byte>, a: nat, b: nat, c: nat)
    requires a + 2 <= b <= c <= |file|
    ensures file == file[..a] + file[a..a + 2] + file[a + 2..b] + file[b..c] + file[c..]
  {}

  lemma JoinedFile(file: seq<byte>, s: Signed, size: seq<byte>, signatureStart: nat, commentSize: nat)
    requires |s.archive| >= EOCD_HEADER_SIZE - 2 && s.signature != [] && |size| == 2
    requires signatureStart == |s.signature| + FOOTER_SIZE && commentSize == CommentSize(s) < 0x1_0000
    requires file == s.archive + size + s.text + s.signature +
                     (TwoBytes(signatureStart) + [0xFF, 0xFF] + TwoBytes(commentSize))
    requires LastMarker(file, |file| - commentSize - EOCD_HEADER_SIZE)
    ensures Valid(s) && file == FileOf(s, size) && OneMarker(s, size)
  {
    hide MarkerAt;
    assert file == FileOf(s, size);
    assert |file| - commentSize - EOCD_HEADER_SIZE == |s.archive| - (EOCD_HEADER_SIZE - 2);
  }

  const PIECE: nat := 0x100_0000

  /** The hashing loop: at most 16 MiB at a time; `absorbed` is what a digest has received. */
  method HashSigned(file: seq<byte>, signedLength: nat) returns (absorbed: seq<byte>)
    requires signedLength <= |file|
    ensures absorbed == file[..signedLength]
  {
    absorbed := [];
    var soFar := 0;
    while soFar < signedLength
      invariant 0 <= soFar <= signedLength && absorbed == file[..soFar]
    {
      var size := signedLength - soFar;
      if size > PIECE { size := PIECE; }
      assert file[..soFar] + file[soFar..soFar + size] == file[..soFar + size];
      absorbed := absorbed + file[soFar..soFar + size];
      soFar := soFar + size;
    }
  }

  /** verify_file up to the keys: what was hashed, and the signature to compare it with. */
  method SignedPart(file: seq<byte>) returns (r: Option<(seq<byte>, seq<byte>)>)
    ensures forall s, size :: Valid(s) && |size| == 2 && file == FileOf(s, size) && OneMarker(s, size) ==>
              match ReadPkcs7(s.signature)
              case None => r.None?
              case Some(octets) => r == Some((s.archive, octets))
    ensures r.Some? ==>
              exists s, size :: Valid(s) && |size| == 2 && file == FileOf(s, size) && OneMarker(s, size) &&
                r.value.0 == s.archive && ReadPkcs7(s.signature) == Some(r.value.1)
  {
    hide ReadPkcs7, OneMarker, FileOf, Select;
    forall s, size | Valid(s) && |size| == 2 && file == FileOf(s, size) && OneMarker(s, size)
      ensures Select(file) == Selected(|s.archive|, |s.archive| + 2 + |s.text|, |s.signature|)
      ensures |s.archive| + 2 + |s.text| + |s.signature| <= |file|
      ensures file[..|s.archive|] == s.archive
      ensures file[|s.archive| + 2 + |s.text|..][..|s.signature|] == s.signature
    {
      SignedIsSelected(file, s, size);
      PartsAre(file, s, size);
    }
    var selection := SelectSignature(file);
    if selection.Refused? { return None; }
    SelectedIsSigned(file);
    var hashed := HashSigned(file, selection.signedLength);
    var octets := ReadSignature(file, selection.at, selection.size);
    assert file[selection.at..selection.at + selection.size] == file[selection.at..][..selection.size];
    if octets.None? { return None; }
    ghost var s := SignedOf(file, selection);
    assert file == FileOf(s, file[selection.signedLength..selection.signedLength + 2]);
    return Some((hashed, octets.value));
  }

  lemma PartsAre(file: seq<byte>, s: Signed, size: seq<byte>)
    requires Valid(s) && |size| == 2 && file == FileOf(s, size)
    ensures |s.archive| + 2 + |s.text| + |s.signature| <= |file| && file[..|s.archive|] == s.archive
    ensures file[|s.archive| + 2 + |s.text|..][..|s.signature|] == s.signature
  {}
}
