/**
 * The ASN.1 cursor and read_pkcs7: on any bytes they stay inside the buffer; on every encoding of
 * the documented SignedData shape they find exactly the signature octets.
 */
module Asn1 {
  import opened Bytes

  // ----- what the cursor does, on the bytes it has left

  datatype Sized = Sized(length: nat, rest: seq<byte>)

  function ReadOctets(s: seq<byte>, count: nat, length: nat): (r: Option<Sized>)
    ensures r.Some? ==> |r.value.rest| + count == |s| && r.value.rest == s[count..]
    decreases count
  {
    if count == 0 then Some(Sized(length, s))
    else if s == [] then None
    else ReadOctets(s[1..], count - 1, (length * 256) % TWO_64 + s[0])
  }

  /** decode_length: fewer than sizeof(size_t) octets. */
  function DecodeLength(s: seq<byte>): (r: Option<Sized>)
    ensures r.Some? ==> |r.value.rest| < |s| && r.value.rest == s[|s| - |r.value.rest|..]
  {
    if s == [] then None
    else if s[0] < 0x80 then Some(Sized(s[0], s[1..]))
    else if s[0] % 0x80 >= 8 then None
    else ReadOctets(s[1..], s[0] % 0x80, 0)
  }

  /** A tag, a length that fits, and the contents; what follows them. */
  function Contents(s: seq<byte>, accepts: byte -> bool): (r: Option<seq<byte>>) {
    if s == [] || !accepts(s[0]) then None
    else match DecodeLength(s[1..])
      case None => None
      case Some(Sized(n, rest)) => if n > |rest| then None else Some(rest[..n])
  }

  function Skip(s: seq<byte>): (r: Option<seq<byte>>)
    ensures r.Some? ==> |r.value| < |s| && r.value == s[|s| - |r.value|..]
  {
    if s == [] then None
    else match DecodeLength(s[1..])
      case None => None
      case Some(Sized(n, rest)) => if n > |rest| then None else Some(rest[n..])
  }

  /** The tags are compared after masking with 0x7F, 0x7F and 0xE0, and not at all. */
  predicate IsSequence(t: byte) { t % 0x80 == 0x30 }

  predicate IsSet(t: byte) { t % 0x80 == 0x31 }

  predicate IsConstructed(t: byte) { t / 0x20 == 5 }

  predicate IsOctetString(t: byte) { t == 0x04 }

  /** asn1_constructed_skip_all. */
  function SkipConstructed(s: seq<byte>): (r: Option<seq<byte>>)
    ensures r.Some? ==> r.value != [] && |r.value| <= |s| && r.value == s[|s| - |r.value|..]
    decreases |s|
  {
    if s == [] then None
    else if !IsConstructed(s[0]) then Some(s)
    else match Skip(s)
      case None => None
      case Some(rest) => SkipConstructed(rest)
  }

  function SkipMany(s: seq<byte>, count: nat): (r: Option<seq<byte>>) {
    if count == 0 then Some(s)
    else match Skip(s) case None => None case Some(rest) => SkipMany(rest, count - 1)
  }

  /** The octet string must not be empty. */
  function OctetString(s: seq<byte>): (r: Option<seq<byte>>) {
    match Contents(s, IsOctetString)
    case None => None
    case Some(octets) => if octets == [] then None else Some(octets)
  }

  /** The SET of SignerInfos, from the contents of SignedData. */
  function SignerInfos(signedData: seq<byte>): (r: Option<seq<byte>>) {
    match SkipMany(signedData, 3)
    case None => None
    case Some(rest) =>
      match SkipConstructed(rest)
      case None => None
      case Some(rest') => Contents(rest', IsSet)
  }

  /** The signature, from the contents of the SET of SignerInfos. */
  function SignatureIn(signerInfos: seq<byte>): (r: Option<seq<byte>>) {
    match Contents(signerInfos, IsSequence)
    case None => None
    case Some(info) =>
      match SkipMany(info, 4)
      case None => None
      case Some(rest) => OctetString(rest)
  }

  /** read_pkcs7. */
  function ReadPkcs7(der: seq<byte>): (r: Option<seq<byte>>) {
    match Contents(der, IsSequence)
    case None => None
    case Some(contentInfo) =>
      match Skip(contentInfo)
      case None => None
      case Some(content) =>
        match Contents(content, IsConstructed)
        case None => None
        case Some(app) =>
          match Contents(app, IsSequence)
          case None => None
          case Some(signedData) =>
            match SignerInfos(signedData)
            case None => None
            case Some(infos) => SignatureIn(infos)
  }

  // ----- encodings (section 8.1.3 of X.690)

  function BigEndian(octets: seq<byte>): (n: nat) {
    if octets == [] then 0 else BigEndian(octets[..|octets| - 1]) * 256 + octets[|octets| - 1]
  }

  /** The short form, the long form with up to seven octets, or a lone 0x80, which stands for zero here. */
  predicate IsLength(l: seq<byte>, n: nat) {
    || (l == [n as int] && n < 0x80)
    || (l == [0x80] && n == 0)
    || (1 < |l| <= 8 && l[0] == 0x80 + (|l| - 1) && BigEndian(l[1..]) == n)
  }

  /** Any element: a tag octet, a length in any of its forms, contents. */
  datatype Element = Element(tag: byte, lengthOctets: seq<byte>, contents: seq<byte>)

  predicate WellFormed(e: Element) { IsLength(e.lengthOctets, |e.contents|) }

  function Encoded(e: Element): (s: seq<byte>) { [e.tag] + e.lengthOctets + e.contents }

  function EncodedAll(es: seq<Element>): (s: seq<byte>) {
    if es == [] then [] else Encoded(es[0]) + EncodedAll(es[1..])
  }

  predicate AllWellFormed(es: seq<Element>) { forall k :: 0 <= k < |es| ==> WellFormed(es[k]) }

  lemma {:induction false} BigEndianBound(octets: seq<byte>)
    ensures BigEndian(octets) < Power256(|octets|)
  {
    if octets != [] {
      BigEndianBound(octets[..|octets| - 1]);
      assert Power256(|octets|) == 256 * Power256(|octets| - 1);
    }
  }

  function Power256(k: nat): (n: nat)
    ensures n > 0
  {
    if k == 0 then 1 else 256 * Power256(k - 1)
  }

  lemma {:induction false} ReadsBigEndian(done: seq<byte>, octets: seq<byte>, after: seq<byte>)
    requires |done| + |octets| <= 7
    ensures ReadOctets(octets + after, |octets|, BigEndian(done)) == Some(Sized(BigEndian(done + octets), after))
    decreases |octets|
  {
    hide Power256;
    if octets == [] {
      assert octets + after == after && done + octets == done;
    } else {
      var s := octets + after;
      assert s[0] == octets[0] && s[1..] == octets[1..] + after;
      var done' := done + [octets[0]];
      assert BigEndian(done') == (BigEndian(done) * 256) % TWO_64 + octets[0] by { NextOctet(done, octets[0]); }
      ReadsBigEndian(done', octets[1..], after);
      assert done' + octets[1..] == done + octets;
    }
  }

  lemma NextOctet(done: seq<byte>, b: byte)
    requires |done| <= 6
    ensures BigEndian(done + [b]) == (BigEndian(done) * 256) % TWO_64 + b
  {
    assert (done + [b])[..|done|] == done;
    assert BigEndian(done + [b]) == BigEndian(done) * 256 + b;
    hide BigEndian, Power256;
    BigEndianBound(done);
    SmallPower(|done|);
    NoWrap(BigEndian(done));
  }

  lemma NoWrap(v: nat)
    requires v < 0x1_0000_0000_0000
    ensures (v * 256) % TWO_64 == v * 256
  {}

  lemma SmallPower(k: nat)
    requires k <= 6
    ensures Power256(k) <= Power256(6) == 0x1_0000_0000_0000
  {
    assert Power256(1) == 256 && Power256(2) == 0x1_0000 && Power256(3) == 0x100_0000;
    assert Power256(4) == 0x1_0000_0000 && Power256(5) == 0x100_0000_0000 && Power256(6) == 0x1_0000_0000_0000;
  }

  lemma DecodesLength(l: seq<byte>, n: nat, after: seq<byte>)
    requires IsLength(l, n)
    ensures DecodeLength(l + after) == Some(Sized(n, after))
  {
    var s := l + after;
    assert s[0] == l[0];
    if l[0] < 0x80 {
      assert s[1..] == after;
    } else {
      assert s[1..] == l[1..] + after;
      assert l[0] % 0x80 == |l| - 1;
      ReadsBigEndian([], l[1..], after);
      assert [] + l[1..] == l[1..];
    }
  }

  lemma ElementParts(e: Element, after: seq<byte>)
    requires WellFormed(e)
    ensures var s := Encoded(e) + after;
            && s != [] && s[0] == e.tag
            && DecodeLength(s[1..]) == Some(Sized(|e.contents|, e.contents + after))
            && |e.contents| <= |e.contents + after|
  {
    var s := Encoded(e) + after;
    assert s[1..] == e.lengthOctets + (e.contents + after);
    DecodesLength(e.lengthOctets, |e.contents|, e.contents + after);
  }

  lemma SkipsElement(e: Element, after: seq<byte>)
    requires WellFormed(e)
    ensures Skip(Encoded(e) + after) == Some(after)
  {
    hide DecodeLength, Encoded;
    ElementParts(e, after);
    assert (e.contents + after)[|e.contents|..] == after;
  }

  lemma EntersElement(e: Element, after: seq<byte>, accepts: byte -> bool)
    requires WellFormed(e) && accepts(e.tag)
    ensures Contents(Encoded(e) + after, accepts) == Some(e.contents)
  {
    hide DecodeLength, Encoded;
    ElementParts(e, after);
    assert (e.contents + after)[..|e.contents|] == e.contents;
  }

  lemma {:induction false} SkipsAll(es: seq<Element>, after: seq<byte>)
    requires AllWellFormed(es)
    ensures SkipMany(EncodedAll(es) + after, |es|) == Some(after)
  {
    hide Skip, Encoded;
    if es == [] {
      assert EncodedAll(es) + after == after;
    } else {
      ConcatAssoc(Encoded(es[0]), EncodedAll(es[1..]), after);
      SkipsElement(es[0], EncodedAll(es[1..]) + after);
      SkipsAll(es[1..], after);
    }
  }

  lemma {:induction false} SkipsConstructed(es: seq<Element>, after: seq<byte>)
    requires AllWellFormed(es) && forall k :: 0 <= k < |es| ==> IsConstructed(es[k].tag)
    requires after != [] && !IsConstructed(after[0])
    ensures SkipConstructed(EncodedAll(es) + after) == Some(after)
  {
    hide Skip, Encoded;
    if es == [] {
      assert EncodedAll(es) + after == after;
    } else {
      var s := Encoded(es[0]) + (EncodedAll(es[1..]) + after);
      ConcatAssoc(Encoded(es[0]), EncodedAll(es[1..]), after);
      assert s != [] && s[0] == es[0].tag by { ElementParts(es[0], EncodedAll(es[1..]) + after); }
      SkipsElement(es[0], EncodedAll(es[1..]) + after);
      SkipsConstructed(es[1..], after);
    }
  }

  // ----- what is decoded

  /** Whatever is decoded was written in one of these forms; all else is refused. */
  lemma {:induction false} DecodedIsLength(s: seq<byte>)
    requires DecodeLength(s).Some?
    ensures var Sized(n, rest) := DecodeLength(s).value;
            var l := s[..|s| - |rest|];
            s == l + rest && IsLength(l, n)
  {
    hide BigEndian, ReadOctets;
    var Sized(n, rest) := DecodeLength(s).value;
    var l := s[..|s| - |rest|];
    if s[0] < 0x80 {
      assert l == [s[0]];
    } else {
      LongForm(s[1..], s[0] % 0x80);
      assert l == [s[0]] + l[1..] && l[1..] == s[1..][..s[0] % 0x80];
      assert |l| == 1 ==> l == [s[0]];
    }
  }

  lemma {:induction false} LongForm(s: seq<byte>, count: nat)
    requires count < 8 && ReadOctets(s, count, 0).Some?
    ensures count <= |s| && ReadOctets(s, count, 0).value == Sized(BigEndian(s[..count]), s[count..])
    ensures count == 0 ==> BigEndian(s[..count]) == 0
  {
    assert s == s[..count] + s[count..];
    ReadsBigEndian([], s[..count], s[count..]);
    assert [] + s[..count] == s[..count];
  }

  /** What is skipped is an element. */
  lemma {:induction false} IsElement(s: seq<byte>) returns (e: Element, after: seq<byte>)
    requires Skip(s).Some?
    ensures WellFormed(e) && s != [] && e.tag == s[0] && s == Encoded(e) + after && Skip(s) == Some(after)
    ensures DecodeLength(s[1..]).Some? && DecodeLength(s[1..]).value == Sized(|e.contents|, e.contents + after)
  {
    hide IsLength, DecodeLength;
    DecodedIsLength(s[1..]);
    var Sized(n, rest) := DecodeLength(s[1..]).value;
    var l := s[1..][..|s[1..]| - |rest|];
    e, after := Element(s[0], l, rest[..n]), rest[n..];
    assert rest == e.contents + after;
    EncodedJoins(s, e, after);
  }

  lemma EncodedJoins(s: seq<byte>, e: Element, after: seq<byte>)
    requires s != [] && e.tag == s[0] && s[1..] == e.lengthOctets + (e.contents + after)
    ensures s == Encoded(e) + after
  {
    assert s == [s[0]] + s[1..];
  }

  /** What is entered is an element with an accepted tag and the contents that are returned. */
  lemma {:induction false} IsEntered(s: seq<byte>, accepts: byte -> bool) returns (e: Element, after: seq<byte>)
    requires Contents(s, accepts).Some?
    ensures WellFormed(e) && s == Encoded(e) + after && accepts(e.tag) && Contents(s, accepts) == Some(e.contents)
    ensures s != [] && e.tag == s[0]
  {
    hide WellFormed, DecodeLength;
    e, after := IsElement(s);
    assert (e.contents + after)[..|e.contents|] == e.contents;
  }

  lemma {:induction false} AreElements(s: seq<byte>, count: nat) returns (es: seq<Element>)
    requires SkipMany(s, count).Some?
    ensures |es| == count && AllWellFormed(es) && s == EncodedAll(es) + SkipMany(s, count).value
    decreases count
  {
    hide WellFormed, AllWellFormed, Encoded, Skip;
    if count == 0 {
      es := [];
      NoElements();
    } else {
      var e, after := IsElement(s);
      var rest := AreElements(after, count - 1);
      es := [e] + rest;
      OneMore(e, rest);
      assert es[1..] == rest;
      ConcatAssoc(Encoded(e), EncodedAll(rest), SkipMany(s, count).value);
    }
  }

  lemma {:induction false} AreConstructed(s: seq<byte>) returns (es: seq<Element>)
    requires SkipConstructed(s).Some?
    ensures AllWellFormed(es) && AllConstructed(es)
    ensures s == EncodedAll(es) + SkipConstructed(s).value
    ensures SkipConstructed(s).value != [] && SkipConstructed(s).value[0] / 0x20 != 5
    decreases |s|
  {
    hide WellFormed, AllWellFormed, AllConstructed, Encoded, Skip, SkipConstructed;
    NextConstructed(s);
    if s[0] / 0x20 != 5 {
      es := [];
      NoElements();
    } else {
      var e, after := IsElement(s);
      var rest := AreConstructed(after);
      es := [e] + rest;
      OneMore(e, rest);
      assert es[1..] == rest;
      ConcatAssoc(Encoded(e), EncodedAll(rest), SkipConstructed(s).value);
    }
  }

  predicate AllConstructed(es: seq<Element>) { forall k :: 0 <= k < |es| ==> es[k].tag / 0x20 == 5 }

  lemma NoElements()
    ensures AllWellFormed([]) && AllConstructed([])
  {}

  lemma OneMore(e: Element, es: seq<Element>)
    requires WellFormed(e) && AllWellFormed(es)
    ensures AllWellFormed([e] + es)
    ensures e.tag / 0x20 == 5 && AllConstructed(es) ==> AllConstructed([e] + es)
  {
    hide WellFormed;
  }

  lemma NextConstructed(s: seq<byte>)
    requires SkipConstructed(s).Some?
    ensures s != []
    ensures if s[0] / 0x20 != 5 then SkipConstructed(s) == Some(s)
            else Skip(s).Some? && |Skip(s).value| < |s| && SkipConstructed(s) == SkipConstructed(Skip(s).value)
  {
    hide Skip;
  }

  // ----- SignedData (sections 3, 5.1 and 5.3 of RFC 3852)

  /** version, sid, digestAlgorithm, signatureAlgorithm; signature; whatever follows. */
  datatype SignerInfo = SignerInfo(fields: seq<Element>, signature: Element, after: seq<byte>)

  predicate IsSignerInfo(i: SignerInfo, s: seq<byte>) {
    && |i.fields| == 4 && AllWellFormed(i.fields) && WellFormed(i.signature)
    && s == SignerInfoBytes(i)
  }

  function SignerInfoBytes(i: SignerInfo): (s: seq<byte>) {
    EncodedAll(i.fields) + (Encoded(i.signature) + i.after)
  }

  /** version, digestAlgorithms, encapContentInfo; certificates and crls; the set of signer infos. */
  datatype SignedData = SignedData(fields: seq<Element>, optional: seq<Element>, infos: Element, after: seq<byte>)

  predicate IsSignedData(d: SignedData, s: seq<byte>) {
    && |d.fields| == 3 && AllWellFormed(d.fields) && AllWellFormed(d.optional)
    && AllConstructed(d.optional)
    && WellFormed(d.infos) && d.infos.tag % 0x80 == 0x31 && d.infos.tag / 0x20 != 5
    && s == SignedDataBytes(d)
  }

  function SignedDataBytes(d: SignedData): (s: seq<byte>) {
    EncodedAll(d.fields) + (EncodedAll(d.optional) + (Encoded(d.infos) + d.after))
  }

  /** The elements around the SignedData and its first SignerInfo, and what follows each of them. */
  datatype Document = Document(outer: Element, contentType: Element, content: Element, signedData: Element,
                               data: SignedData, info: Element, signer: SignerInfo,
                               ends: (seq<byte>, seq<byte>, seq<byte>, seq<byte>))

  /** The documented shape, up to the tag bits that are not looked at; nothing is said of the fifth signer field. */
  predicate IsDocument(m: Document, der: seq<byte>) {
    && WellFormed(m.outer) && m.outer.tag % 0x80 == 0x30 && der == Encoded(m.outer) + m.ends.0
    && WellFormed(m.contentType) && WellFormed(m.content) && m.content.tag / 0x20 == 5
    && m.outer.contents == Encoded(m.contentType) + (Encoded(m.content) + m.ends.1)
    && WellFormed(m.signedData) && m.signedData.tag % 0x80 == 0x30
    && m.content.contents == Encoded(m.signedData) + m.ends.2
    && IsSignedData(m.data, m.signedData.contents)
    && WellFormed(m.info) && m.info.tag % 0x80 == 0x30 && m.data.infos.contents == Encoded(m.info) + m.ends.3
    && IsSignerInfo(m.signer, m.info.contents)
  }

  lemma FindsSignature(infos: seq<byte>, info: Element, i: SignerInfo, after: seq<byte>)
    requires WellFormed(info) && info.tag % 0x80 == 0x30 && infos == Encoded(info) + after
    requires IsSignerInfo(i, info.contents)
    ensures SignatureIn(infos) ==
            if i.signature.tag == 0x04 && i.signature.contents != [] then Some(i.signature.contents) else None
  {
    hide Encoded, EncodedAll, SkipMany, WellFormed;
    EntersElement(info, after, IsSequence);
    SkipsAll(i.fields, Encoded(i.signature) + i.after);
    ElementParts(i.signature, i.after);
    if i.signature.tag == 0x04 { EntersElement(i.signature, i.after, IsOctetString); }
  }

  lemma FindsSignerInfos(d: SignedData, s: seq<byte>)
    requires IsSignedData(d, s)
    ensures SignerInfos(s) == Some(d.infos.contents)
  {
    hide Encoded, EncodedAll, Contents, SkipMany, SkipConstructed, WellFormed;
    var set_ := Encoded(d.infos) + d.after;
    assert set_ != [] && set_[0] == d.infos.tag by { ElementParts(d.infos, d.after); }
    SkipsAll(d.fields, EncodedAll(d.optional) + set_);
    SkipsConstructed(d.optional, set_);
    EntersElement(d.infos, d.after, IsSet);
  }

  /**
   * For every document of the shape, in any of the length forms and with anything after the parts that
   * matter, read_pkcs7 returns the contents of the fifth signer field if that is an octet string and
   * not empty, and nothing if it is anything else.
   */
  lemma FindsSignatureOctets(m: Document, der: seq<byte>)
    requires IsDocument(m, der)
    ensures var fifth := m.signer.signature;
            ReadPkcs7(der) == if fifth.tag == 0x04 && fifth.contents != [] then Some(fifth.contents) else None
  {
    hide Encoded, Contents, Skip, SignerInfos, SignatureIn, IsSignedData, IsSignerInfo, WellFormed;
    EntersElement(m.outer, m.ends.0, IsSequence);
    SkipsElement(m.contentType, Encoded(m.content) + m.ends.1);
    EntersElement(m.content, m.ends.1, IsConstructed);
    EntersElement(m.signedData, m.ends.2, IsSequence);
    FindsSignerInfos(m.data, m.signedData.contents);
    FindsSignature(m.data.infos.contents, m.info, m.signer, m.ends.3);
  }

  lemma SignerInfosAre(s: seq<byte>) returns (d: SignedData)
    requires SignerInfos(s).Some?
    ensures IsSignedData(d, s) && SignerInfos(s) == Some(d.infos.contents)
  {
    hide WellFormed, Encoded, EncodedAll, Skip, SkipMany, SkipConstructed, Contents;
    var rest := SkipMany(s, 3).value;
    var fields := AreElements(s, 3);
    var optional := AreConstructed(rest);
    var rest' := SkipConstructed(rest).value;
    var infos, after := IsEntered(rest', IsSet);
    d := SignedData(fields, optional, infos, after);
  }

  lemma SignatureIs(s: seq<byte>) returns (info: Element, i: SignerInfo, after: seq<byte>)
    requires SignatureIn(s).Some?
    ensures WellFormed(info) && info.tag % 0x80 == 0x30 && s == Encoded(info) + after && IsSignerInfo(i, info.contents)
  {
    hide WellFormed, Encoded, EncodedAll, Skip, SkipMany, Contents;
    info, after := IsEntered(s, IsSequence);
    var fields := AreElements(info.contents, 4);
    var rest := SkipMany(info.contents, 4).value;
    var signature, last := IsEntered(rest, IsOctetString);
    i := SignerInfo(fields, signature, last);
  }

  lemma IsADocument(der: seq<byte>) returns (m: Document)
    requires ReadPkcs7(der).Some?
    ensures IsDocument(m, der)
  {
    hide WellFormed, Encoded, Skip, Contents, SignerInfos, SignatureIn, IsSignedData, IsSignerInfo;
    var outer, end0 := IsEntered(der, IsSequence);
    var contentType, rest := IsElement(outer.contents);
    var content, end1 := IsEntered(rest, IsConstructed);
    var signedData, end2 := IsEntered(content.contents, IsSequence);
    var d := SignerInfosAre(signedData.contents);
    var info, i, end3 := SignatureIs(d.infos.contents);
    m := Document(outer, contentType, content, signedData, d, info, i, (end0, end1, end2, end3));
  }

  /** A signature is returned if and only if it is the fifth signer field of such a document. */
  lemma SignatureIff(der: seq<byte>, sig: seq<byte>)
    ensures ReadPkcs7(der) == Some(sig) <==>
            sig != [] && exists m ::
              IsDocument(m, der) && m.signer.signature.tag == 0x04 && m.signer.signature.contents == sig
  {
    hide ReadPkcs7, IsDocument;
    if ReadPkcs7(der) == Some(sig) {
      var m := IsADocument(der);
      FindsSignatureOctets(m, der);
    }
    if m :| IsDocument(m, der) && m.signer.signature.tag == 0x04 && m.signer.signature.contents == sig {
      FindsSignatureOctets(m, der);
    }
  }

  // ----- DER

  function MinimalOctets(n: nat): (s: seq<byte>)
    ensures BigEndian(s) == n
  {
    if n == 0 then [] else MinimalOctets(n / 256) + [n % 256]
  }

  const LENGTH_LIMIT: nat := 0x100_0000_0000_0000

  /** The DER form of a length. */
  function DerLength(n: nat): (l: seq<byte>)
    requires n < LENGTH_LIMIT
    ensures IsLength(l, n) && |l| <= 8
  {
    if n < 0x80 then [n]
    else
      SevenOctets();
      MinimalSize(n, 7);
      var octets := MinimalOctets(n);
      var l := [0x80 + |octets|] + octets;
      assert l[1..] == octets;
      l
  }

  lemma SevenOctets()
    ensures Power256(7) == LENGTH_LIMIT
  {
    SmallPower(6);
    assert Power256(7) == 256 * Power256(6);
  }

  lemma {:induction false} MinimalSize(n: nat, k: nat)
    requires n < Power256(k)
    ensures |MinimalOctets(n)| <= k && (n > 0 ==> |MinimalOctets(n)| > 0)
    decreases k
  {
    if n > 0 { MinimalSize(n / 256, k - 1); }
  }

  function Der(tag: byte, contents: seq<byte>): (e: Element)
    requires |contents| < LENGTH_LIMIT
    ensures WellFormed(e) && |Encoded(e)| <= |contents| + 9
  {
    Element(tag, DerLength(|contents|), contents)
  }

  /** The parts of a signed message that a signer is free to choose. */
  datatype Message = Message(contentType: Element, fields: seq<Element>, optional: seq<Element>,
                             infoFields: seq<Element>, signature: seq<byte>)

  predicate IsMessage(m: Message) {
    && WellFormed(m.contentType) && |m.fields| == 3 && AllWellFormed(m.fields) && |m.infoFields| == 4
    && AllWellFormed(m.infoFields) && AllWellFormed(m.optional)
    && (forall k :: 0 <= k < |m.optional| ==> IsConstructed(m.optional[k].tag))
    && |Encoded(m.contentType)| + |EncodedAll(m.fields)| + |EncodedAll(m.optional)| + |EncodedAll(m.infoFields)| +
       |m.signature| + 64 < LENGTH_LIMIT
  }

  function InfoOf(m: Message): (i: SignerInfo)
    requires IsMessage(m)
    ensures IsSignerInfo(i, SignerInfoBytes(i))
    ensures |SignerInfoBytes(i)| <= |EncodedAll(m.infoFields)| + |m.signature| + 9
  {
    SignerInfo(m.infoFields, Der(0x04, m.signature), [])
  }

  function DataOf(m: Message): (d: SignedData)
    requires IsMessage(m)
    ensures IsSignedData(d, SignedDataBytes(d))
    ensures d.infos.contents == Encoded(Der(0x30, SignerInfoBytes(InfoOf(m)))) + []
    ensures |SignedDataBytes(d)| <= |EncodedAll(m.fields)| + |EncodedAll(m.optional)| + |EncodedAll(m.infoFields)| +
                                    |m.signature| + 27
  {
    hide EncodedAll;
    var infos := Encoded(Der(0x30, SignerInfoBytes(InfoOf(m)))) + [];
    SignedData(m.fields, m.optional, Der(0x31, infos), [])
  }

  /** The DER encoding of the message. */
  function EncodePkcs7(m: Message): (s: seq<byte>)
    requires IsMessage(m)
  {
    var signedData := Der(0x30, SignedDataBytes(DataOf(m)));
    var content := Der(0xA0, Encoded(signedData) + []);
    Encoded(Der(0x30, Encoded(m.contentType) + (Encoded(content) + [])))
  }

  /** read_pkcs7 undoes the DER encoding. */
  lemma Pkcs7RoundTrip(m: Message)
    requires IsMessage(m)
    ensures ReadPkcs7(EncodePkcs7(m)) == if m.signature == [] then None else Some(m.signature)
  {
    hide ReadPkcs7, IsMessage, EncodedAll, SignedDataBytes, SignerInfoBytes;
    assert |Encoded(m.contentType)| + |SignedDataBytes(DataOf(m))| + 30 < LENGTH_LIMIT by { MessageFits(m); }
    var signedData := Der(0x30, SignedDataBytes(DataOf(m)));
    var content := Der(0xA0, Encoded(signedData) + []);
    var outer := Der(0x30, Encoded(m.contentType) + (Encoded(content) + []));
    assert |SignerInfoBytes(InfoOf(m))| < LENGTH_LIMIT && WellFormed(m.contentType) by { MessageFits(m); }
    var info := Der(0x30, SignerInfoBytes(InfoOf(m)));
    var ends: (seq<byte>, seq<byte>, seq<byte>, seq<byte>) := ([], [], [], []);
    var document := Document(outer, m.contentType, content, signedData, DataOf(m), info, InfoOf(m), ends);
    assert Encoded(outer) + [] == Encoded(outer);
    FindsSignatureOctets(document, EncodePkcs7(m));
  }

  lemma MessageFits(m: Message)
    requires IsMessage(m)
    ensures |Encoded(m.contentType)| + |SignedDataBytes(DataOf(m))| + 30 < LENGTH_LIMIT && WellFormed(m.contentType)
    ensures |SignerInfoBytes(InfoOf(m))| < LENGTH_LIMIT
  {}
}
