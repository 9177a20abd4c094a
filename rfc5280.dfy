/** The subset of the X.509 structures of section 4.1 of RFC 5280 that the
    certificate schema declares, with a DER encoder and a decoder for exactly
    that schema. The decoder refuses the non-minimal and non-canonical forms
    that would make decode-then-encode differ from the identity; it does not
    check the order of SET OF elements or look inside ANY values and
    extension values.

    Extension values stay opaque OCTET STRINGs and the ANY fields
    (AlgorithmIdentifier parameters, AttributeValue) stay the exact TLV octets
    they were read from, so that a decoded TBSCertificate re-encodes to the
    octets it was decoded from: every `ParseX` below promises that its input
    starts with `EncodeX` of what it returns, and every `ParseEncodedX` lemma
    proves the converse. */
module Rfc5280 {
  import opened Wrappers
  import opened Der
  import opened Calendar
  import opened Asn1Time

  // ---------------------------------------------------------------------------
  // AlgorithmIdentifier ::= SEQUENCE { algorithm OBJECT IDENTIFIER,
  //                                    parameters ANY OPTIONAL }

  datatype AlgorithmIdentifier = AlgorithmIdentifier(algorithm: seq<nat>, parameters: Option<seq<byte>>)

  predicate WfAlgorithmIdentifier(a: AlgorithmIdentifier)
  {
    ValidOid(a.algorithm) && (a.parameters.Some? ==> IsTlv(a.parameters.value))
  }

  function OptionalRaw(o: Option<seq<byte>>): seq<byte>
  {
    if o.Some? then o.value else []
  }

  function AlgorithmIdentifierContent(a: AlgorithmIdentifier): Result<seq<byte>, DerError>
    requires WfAlgorithmIdentifier(a)
  {
    var algorithm :- EncodeOid(a.algorithm);
    Ok(algorithm + OptionalRaw(a.parameters))
  }

  function EncodeAlgorithmIdentifier(a: AlgorithmIdentifier): Result<seq<byte>, DerError>
    requires WfAlgorithmIdentifier(a)
  {
    var content :- AlgorithmIdentifierContent(a);
    EncodeTlv(TagSequence, content)
  }

  /** The parameters are present exactly when octets follow the algorithm, and
      are then kept as the raw TLV found there. */
  function ParseAlgorithmIdentifierContent(c: seq<byte>): (r: Result<AlgorithmIdentifier, DerError>)
    ensures r.Ok? ==> WfAlgorithmIdentifier(r.value) && AlgorithmIdentifierContent(r.value) == Ok(c)
    ensures r.Ok? ==> (r.value.parameters.Some? <==> c != EncodeOid(r.value.algorithm).value)
  {
    var (algorithm, afterAlgorithm) :- ParseOid(c);
    if afterAlgorithm == [] then Ok(AlgorithmIdentifier(algorithm, None))
    else
      var (parameters, rest) :- ParseAny(afterAlgorithm);
      if rest != [] then Err(TrailingContent)
      else
        ParsedAnyIsTlv(afterAlgorithm);
        Ok(AlgorithmIdentifier(algorithm, Some(parameters)))
  }

  lemma ParseEncodedAlgorithmIdentifierContent(a: AlgorithmIdentifier)
    requires WfAlgorithmIdentifier(a) && AlgorithmIdentifierContent(a).Ok?
    ensures ParseAlgorithmIdentifierContent(AlgorithmIdentifierContent(a).value) == Ok(a)
  {
    ParseEncodedOid(a.algorithm, OptionalRaw(a.parameters));
    if a.parameters.Some? {
      ParseEncodedAny(a.parameters.value, []);
      assert a.parameters.value + [] == a.parameters.value;
    }
  }

  function ParseAlgorithmIdentifier(s: seq<byte>): (r: Parsed<AlgorithmIdentifier>)
    ensures r.Ok? ==> WfAlgorithmIdentifier(r.value.0)
    ensures r.Ok? ==> Splits(s, EncodeAlgorithmIdentifier(r.value.0), r.value.1) && |r.value.1| < |s|
  {
    var (content, rest) :- ParseTlv(TagSequence, s);
    var a :- ParseAlgorithmIdentifierContent(content);
    Ok((a, rest))
  }

  lemma ParseEncodedAlgorithmIdentifier(a: AlgorithmIdentifier, rest: seq<byte>)
    requires WfAlgorithmIdentifier(a) && EncodeAlgorithmIdentifier(a).Ok?
    ensures ParseAlgorithmIdentifier(EncodeAlgorithmIdentifier(a).value + rest) == Ok((a, rest))
  {
    ParseEncodedTlv(TagSequence, AlgorithmIdentifierContent(a).value, rest);
    ParseEncodedAlgorithmIdentifierContent(a);
  }

  // ---------------------------------------------------------------------------
  // Time ::= CHOICE { utcTime UTCTime, generalTime GeneralizedTime }
  // Both alternatives carry the instant in milliseconds since the epoch.

  datatype Time = UtcTime(value: int) | GenTime(value: int)

  predicate WfTime(t: Time)
  {
    match t
    case UtcTime(v) => InYears(v, 1950, 2049)
    case GenTime(v) => InYears(v, 0, 9999)
  }

  function EncodeTime(t: Time): Result<seq<byte>, DerError>
    requires WfTime(t)
  {
    match t
    case UtcTime(v) => EncodeTlv(TagUtcTime, UtcTimeContent(v))
    case GenTime(v) => EncodeTlv(TagGeneralizedTime, GeneralizedTimeContent(v))
  }

  /** The leading identifier octet selects the alternative. */
  function ParseTime(s: seq<byte>): (r: Parsed<Time>)
    ensures r.Ok? ==> WfTime(r.value.0)
    ensures r.Ok? ==> Splits(s, EncodeTime(r.value.0), r.value.1) && |r.value.1| < |s|
    ensures r.Ok? ==> (r.value.0.UtcTime? <==> s[0] == TagUtcTime)
    ensures r.Ok? ==> (r.value.0.GenTime? <==> s[0] == TagGeneralizedTime)
    ensures s != [] && s[0] != TagUtcTime && s[0] != TagGeneralizedTime ==> r == Err(UnexpectedTag)
  {
    if s != [] && s[0] == TagUtcTime then
      var (content, rest) :- ParseTlv(TagUtcTime, s);
      var v :- ParseUtcTimeContent(content);
      Ok((UtcTime(v), rest))
    else
      var (content, rest) :- ParseTlv(TagGeneralizedTime, s);
      var v :- ParseGeneralizedTimeContent(content);
      Ok((GenTime(v), rest))
  }

  lemma ParseEncodedTime(t: Time, rest: seq<byte>)
    requires WfTime(t) && EncodeTime(t).Ok?
    ensures ParseTime(EncodeTime(t).value + rest) == Ok((t, rest))
  {
    match t
    case UtcTime(v) =>
      ParseEncodedTlv(TagUtcTime, UtcTimeContent(v), rest);
      ParseUtcTimeContentInverse(v);
    case GenTime(v) =>
      ParseEncodedTlv(TagGeneralizedTime, GeneralizedTimeContent(v), rest);
      ParseGeneralizedTimeContentInverse(v);
  }

  // ---------------------------------------------------------------------------
  // Validity ::= SEQUENCE { notBefore Time, notAfter Time }

  datatype Validity = Validity(notBefore: Time, notAfter: Time)

  predicate WfValidity(v: Validity)
  {
    WfTime(v.notBefore) && WfTime(v.notAfter)
  }

  function ValidityContent(v: Validity): Result<seq<byte>, DerError>
    requires WfValidity(v)
  {
    var notBefore :- EncodeTime(v.notBefore);
    var notAfter :- EncodeTime(v.notAfter);
    Ok(notBefore + notAfter)
  }

  function EncodeValidity(v: Validity): Result<seq<byte>, DerError>
    requires WfValidity(v)
  {
    var content :- ValidityContent(v);
    EncodeTlv(TagSequence, content)
  }

  function ParseValidityContent(c: seq<byte>): (r: Result<Validity, DerError>)
    ensures r.Ok? ==> WfValidity(r.value) && ValidityContent(r.value) == Ok(c)
  {
    var (notBefore, afterNotBefore) :- ParseTime(c);
    var (notAfter, rest) :- ParseTime(afterNotBefore);
    if rest != [] then Err(TrailingContent)
    else
      assert afterNotBefore == EncodeTime(notAfter).value + [];
      assert afterNotBefore == EncodeTime(notAfter).value;
      Ok(Validity(notBefore, notAfter))
  }

  function ParseValidity(s: seq<byte>): (r: Parsed<Validity>)
    ensures r.Ok? ==> WfValidity(r.value.0)
    ensures r.Ok? ==> Splits(s, EncodeValidity(r.value.0), r.value.1) && |r.value.1| < |s|
  {
    var (content, rest) :- ParseTlv(TagSequence, s);
    var v :- ParseValidityContent(content);
    Ok((v, rest))
  }

  lemma ParseEncodedValidity(v: Validity, rest: seq<byte>)
    requires WfValidity(v) && EncodeValidity(v).Ok?
    ensures ParseValidity(EncodeValidity(v).value + rest) == Ok((v, rest))
  {
    var notBefore := EncodeTime(v.notBefore).value;
    var notAfter := EncodeTime(v.notAfter).value;
    ParseEncodedTlv(TagSequence, notBefore + notAfter, rest);
    ParseEncodedTime(v.notBefore, notAfter);
    ParseEncodedTime(v.notAfter, []);
    assert notAfter + [] == notAfter;
  }

  // ---------------------------------------------------------------------------
  // SubjectPublicKeyInfo ::= SEQUENCE { algorithm AlgorithmIdentifier,
  //                                     subjectPublicKey BIT STRING }

  datatype SubjectPublicKeyInfo = SubjectPublicKeyInfo(algorithm: AlgorithmIdentifier, subjectPublicKey: BitString)

  predicate WfSubjectPublicKeyInfo(k: SubjectPublicKeyInfo)
  {
    WfAlgorithmIdentifier(k.algorithm) && ValidBitString(k.subjectPublicKey)
  }

  function SubjectPublicKeyInfoContent(k: SubjectPublicKeyInfo): Result<seq<byte>, DerError>
    requires WfSubjectPublicKeyInfo(k)
  {
    var algorithm :- EncodeAlgorithmIdentifier(k.algorithm);
    var key :- EncodeBitString(k.subjectPublicKey);
    Ok(algorithm + key)
  }

  function EncodeSubjectPublicKeyInfo(k: SubjectPublicKeyInfo): Result<seq<byte>, DerError>
    requires WfSubjectPublicKeyInfo(k)
  {
    var content :- SubjectPublicKeyInfoContent(k);
    EncodeTlv(TagSequence, content)
  }

  function ParseSubjectPublicKeyInfoContent(c: seq<byte>): (r: Result<SubjectPublicKeyInfo, DerError>)
    ensures r.Ok? ==> WfSubjectPublicKeyInfo(r.value) && SubjectPublicKeyInfoContent(r.value) == Ok(c)
  {
    var (algorithm, afterAlgorithm) :- ParseAlgorithmIdentifier(c);
    var (key, rest) :- ParseBitString(afterAlgorithm);
    if rest != [] then Err(TrailingContent)
    else
      assert afterAlgorithm == EncodeBitString(key).value + [];
      assert afterAlgorithm == EncodeBitString(key).value;
      Ok(SubjectPublicKeyInfo(algorithm, key))
  }

  function ParseSubjectPublicKeyInfo(s: seq<byte>): (r: Parsed<SubjectPublicKeyInfo>)
    ensures r.Ok? ==> WfSubjectPublicKeyInfo(r.value.0)
    ensures r.Ok? ==> Splits(s, EncodeSubjectPublicKeyInfo(r.value.0), r.value.1) && |r.value.1| < |s|
  {
    var (content, rest) :- ParseTlv(TagSequence, s);
    var k :- ParseSubjectPublicKeyInfoContent(content);
    Ok((k, rest))
  }

  lemma ParseEncodedSubjectPublicKeyInfo(k: SubjectPublicKeyInfo, rest: seq<byte>)
    requires WfSubjectPublicKeyInfo(k) && EncodeSubjectPublicKeyInfo(k).Ok?
    ensures ParseSubjectPublicKeyInfo(EncodeSubjectPublicKeyInfo(k).value + rest) == Ok((k, rest))
  {
    var algorithm := EncodeAlgorithmIdentifier(k.algorithm).value;
    var key := EncodeBitString(k.subjectPublicKey).value;
    ParseEncodedTlv(TagSequence, algorithm + key, rest);
    ParseEncodedAlgorithmIdentifier(k.algorithm, key);
    ParseEncodedBitString(k.subjectPublicKey, []);
    assert key + [] == key;
  }

  // ---------------------------------------------------------------------------
  // Extension ::= SEQUENCE { extnID OBJECT IDENTIFIER,
  //                          critical BOOLEAN DEFAULT FALSE,
  //                          extnValue OCTET STRING }

  datatype Extension = Extension(extnId: seq<nat>, critical: bool, extnValue: seq<byte>)

  /** Only the identifier is checked; the value is never interpreted. */
  predicate WfExtension(e: Extension)
  {
    ValidOid(e.extnId)
  }

  /** The DEFAULT FALSE is omitted (X.690 11.5); TRUE is written out. */
  function EncodeCritical(critical: bool): Result<seq<byte>, DerError>
  {
    if critical then EncodeBoolean(true) else Ok([])
  }

  /** An absent BOOLEAN means the default, FALSE; a BOOLEAN that is present
      must be TRUE, since DER never writes a DEFAULT value out. */
  function ParseCritical(s: seq<byte>): (r: Parsed<bool>)
    ensures r.Ok? ==> Splits(s, EncodeCritical(r.value.0), r.value.1)
    ensures s == [] || s[0] != TagBoolean ==> r == Ok((false, s))
    ensures s != [] && s[0] == TagBoolean ==> r.Err? || r.value.0
  {
    if s == [] || s[0] != TagBoolean then Ok((false, s))
    else
      var (critical, rest) :- ParseBoolean(s);
      if !critical then Err(BadContent) else Ok((true, rest))
  }

  lemma ParseEncodedCritical(critical: bool, rest: seq<byte>)
    requires critical || rest == [] || rest[0] != TagBoolean
    ensures EncodeCritical(critical).Ok?
    ensures ParseCritical(EncodeCritical(critical).value + rest) == Ok((critical, rest))
  {
    ParseEncodedBoolean(true, rest);
    if !critical {
      assert [] + rest == rest;
    }
  }

  /** An explicitly encoded FALSE is not DER and is refused. */
  lemma ExplicitCriticalFalseRejected(rest: seq<byte>)
    ensures EncodeBoolean(false).Ok?
    ensures ParseCritical(EncodeBoolean(false).value + rest) == Err(BadContent)
  {
    ParseEncodedBoolean(false, rest);
  }

  function ExtensionContent(e: Extension): Result<seq<byte>, DerError>
    requires WfExtension(e)
  {
    var id :- EncodeOid(e.extnId);
    var critical :- EncodeCritical(e.critical);
    var value :- EncodeOctetString(e.extnValue);
    Ok(id + (critical + value))
  }

  function EncodeExtension(e: Extension): Result<seq<byte>, DerError>
    requires WfExtension(e)
  {
    var content :- ExtensionContent(e);
    EncodeTlv(TagSequence, content)
  }

  function ParseExtensionContent(c: seq<byte>): (r: Result<Extension, DerError>)
    ensures r.Ok? ==> WfExtension(r.value) && ExtensionContent(r.value) == Ok(c)
  {
    var (id, afterId) :- ParseOid(c);
    var (critical, afterCritical) :- ParseCritical(afterId);
    var (value, rest) :- ParseOctetString(afterCritical);
    if rest != [] then Err(TrailingContent)
    else
      assert afterCritical == EncodeOctetString(value).value + [];
      assert afterCritical == EncodeOctetString(value).value;
      Ok(Extension(id, critical, value))
  }

  function ParseExtension(s: seq<byte>): (r: Parsed<Extension>)
    ensures r.Ok? ==> WfExtension(r.value.0)
    ensures r.Ok? ==> Splits(s, EncodeExtension(r.value.0), r.value.1) && |r.value.1| < |s|
  {
    var (content, rest) :- ParseTlv(TagSequence, s);
    var e :- ParseExtensionContent(content);
    Ok((e, rest))
  }

  lemma ParseEncodedExtension(e: Extension, rest: seq<byte>)
    requires WfExtension(e) && EncodeExtension(e).Ok?
    ensures ParseExtension(EncodeExtension(e).value + rest) == Ok((e, rest))
  {
    var id := EncodeOid(e.extnId).value;
    var critical := EncodeCritical(e.critical).value;
    var value := EncodeOctetString(e.extnValue).value;
    ParseEncodedTlv(TagSequence, id + (critical + value), rest);
    ParseEncodedOid(e.extnId, critical + value);
    ParseEncodedCritical(e.critical, value);
    ParseEncodedOctetString(e.extnValue, []);
    assert value + [] == value;
  }

  /** Whatever octets an extension value holds, it is accepted and comes back
      unchanged: the decoder never looks inside extnValue. */
  lemma ExtnValueOpaque(extnId: seq<nat>, critical: bool, extnValue: seq<byte>, rest: seq<byte>)
    requires ValidOid(extnId) && EncodeExtension(Extension(extnId, critical, extnValue)).Ok?
    ensures var e := Extension(extnId, critical, extnValue);
      ParseExtension(EncodeExtension(e).value + rest) == Ok((e, rest))
  {
    ParseEncodedExtension(Extension(extnId, critical, extnValue), rest);
  }

  // Extensions ::= SEQUENCE OF Extension: the content octets of the list.

  function ExtensionListContent(es: seq<Extension>): Result<seq<byte>, DerError>
    requires forall i | 0 <= i < |es| :: WfExtension(es[i])
  {
    if es == [] then Ok([])
    else
      var head :- EncodeExtension(es[0]);
      var tail :- ExtensionListContent(es[1..]);
      Ok(head + tail)
  }

  function ParseExtensionList(c: seq<byte>): (r: Result<seq<Extension>, DerError>)
    ensures r.Ok? ==> (forall i | 0 <= i < |r.value| :: WfExtension(r.value[i]))
    ensures r.Ok? ==> ExtensionListContent(r.value) == Ok(c)
    decreases |c|
  {
    if c == [] then Ok([])
    else
      var (head, rest) :- ParseExtension(c);
      var tail :- ParseExtensionList(rest);
      assert ([head] + tail)[1..] == tail;
      Ok([head] + tail)
  }

  lemma {:induction false} ParseEncodedExtensionList(es: seq<Extension>)
    requires forall i | 0 <= i < |es| :: WfExtension(es[i])
    requires ExtensionListContent(es).Ok?
    ensures ParseExtensionList(ExtensionListContent(es).value) == Ok(es)
  {
    if es != [] {
      var head := EncodeExtension(es[0]).value;
      var tail := ExtensionListContent(es[1..]).value;
      ParseEncodedExtension(es[0], tail);
      ParseEncodedExtensionList(es[1..]);
      assert head != [];
      assert [es[0]] + es[1..] == es;
    }
  }

  // ---------------------------------------------------------------------------
  // Name ::= CHOICE { rdnSequence RDNSequence }   (the only alternative)
  // RDNSequence ::= SEQUENCE OF RelativeDistinguishedName
  // RelativeDistinguishedName ::= SET OF AttributeTypeAndValue
  // AttributeTypeAndValue ::= SEQUENCE { type OBJECT IDENTIFIER, value ANY }

  datatype AttributeTypeAndValue = AttributeTypeAndValue(attrType: seq<nat>, value: seq<byte>)

  /** A relative distinguished name, its elements in the order they were read. */
  type RelativeDistinguishedName = seq<AttributeTypeAndValue>

  datatype Name = RdnSequence(rdns: seq<RelativeDistinguishedName>)

  predicate WfAttributeTypeAndValue(a: AttributeTypeAndValue)
  {
    ValidOid(a.attrType) && IsTlv(a.value)
  }

  predicate WfRdn(rdn: RelativeDistinguishedName)
  {
    forall i | 0 <= i < |rdn| :: WfAttributeTypeAndValue(rdn[i])
  }

  predicate WfName(n: Name)
  {
    forall i | 0 <= i < |n.rdns| :: WfRdn(n.rdns[i])
  }

  function AttributeTypeAndValueContent(a: AttributeTypeAndValue): Result<seq<byte>, DerError>
    requires WfAttributeTypeAndValue(a)
  {
    var attrType :- EncodeOid(a.attrType);
    Ok(attrType + a.value)
  }

  function EncodeAttributeTypeAndValue(a: AttributeTypeAndValue): Result<seq<byte>, DerError>
    requires WfAttributeTypeAndValue(a)
  {
    var content :- AttributeTypeAndValueContent(a);
    EncodeTlv(TagSequence, content)
  }

  /** The value is kept as the exact TLV octets that follow the type. */
  function ParseAttributeTypeAndValueContent(c: seq<byte>): (r: Result<AttributeTypeAndValue, DerError>)
    ensures r.Ok? ==> WfAttributeTypeAndValue(r.value) && AttributeTypeAndValueContent(r.value) == Ok(c)
  {
    var (attrType, afterType) :- ParseOid(c);
    var (value, rest) :- ParseAny(afterType);
    if rest != [] then Err(TrailingContent)
    else
      ParsedAnyIsTlv(afterType);
      Ok(AttributeTypeAndValue(attrType, value))
  }

  function ParseAttributeTypeAndValue(s: seq<byte>): (r: Parsed<AttributeTypeAndValue>)
    ensures r.Ok? ==> WfAttributeTypeAndValue(r.value.0)
    ensures r.Ok? ==> Splits(s, EncodeAttributeTypeAndValue(r.value.0), r.value.1) && |r.value.1| < |s|
  {
    var (content, rest) :- ParseTlv(TagSequence, s);
    var a :- ParseAttributeTypeAndValueContent(content);
    Ok((a, rest))
  }

  lemma ParseEncodedAttributeTypeAndValue(a: AttributeTypeAndValue, rest: seq<byte>)
    requires WfAttributeTypeAndValue(a) && EncodeAttributeTypeAndValue(a).Ok?
    ensures ParseAttributeTypeAndValue(EncodeAttributeTypeAndValue(a).value + rest) == Ok((a, rest))
  {
    var attrType := EncodeOid(a.attrType).value;
    ParseEncodedTlv(TagSequence, attrType + a.value, rest);
    ParseEncodedOid(a.attrType, a.value);
    ParseEncodedAny(a.value, []);
    assert a.value + [] == a.value;
  }

  /** The content octets of a SET OF AttributeTypeAndValue, in element order. */
  function RdnContent(rdn: RelativeDistinguishedName): Result<seq<byte>, DerError>
    requires WfRdn(rdn)
  {
    if rdn == [] then Ok([])
    else
      var head :- EncodeAttributeTypeAndValue(rdn[0]);
      var tail :- RdnContent(rdn[1..]);
      Ok(head + tail)
  }

  function ParseRdnContent(c: seq<byte>): (r: Result<RelativeDistinguishedName, DerError>)
    ensures r.Ok? ==> WfRdn(r.value) && RdnContent(r.value) == Ok(c)
    decreases |c|
  {
    if c == [] then Ok([])
    else
      var (head, rest) :- ParseAttributeTypeAndValue(c);
      var tail :- ParseRdnContent(rest);
      assert ([head] + tail)[1..] == tail;
      Ok([head] + tail)
  }

  lemma {:induction false} ParseEncodedRdnContent(rdn: RelativeDistinguishedName)
    requires WfRdn(rdn) && RdnContent(rdn).Ok?
    ensures ParseRdnContent(RdnContent(rdn).value) == Ok(rdn)
  {
    if rdn != [] {
      var head := EncodeAttributeTypeAndValue(rdn[0]).value;
      var tail := RdnContent(rdn[1..]).value;
      ParseEncodedAttributeTypeAndValue(rdn[0], tail);
      ParseEncodedRdnContent(rdn[1..]);
      assert head != [];
      assert [rdn[0]] + rdn[1..] == rdn;
    }
  }

  function EncodeRdn(rdn: RelativeDistinguishedName): Result<seq<byte>, DerError>
    requires WfRdn(rdn)
  {
    var content :- RdnContent(rdn);
    EncodeTlv(TagSet, content)
  }

  function ParseRdn(s: seq<byte>): (r: Parsed<RelativeDistinguishedName>)
    ensures r.Ok? ==> WfRdn(r.value.0)
    ensures r.Ok? ==> Splits(s, EncodeRdn(r.value.0), r.value.1) && |r.value.1| < |s|
  {
    var (content, rest) :- ParseTlv(TagSet, s);
    var rdn :- ParseRdnContent(content);
    Ok((rdn, rest))
  }

  lemma ParseEncodedRdn(rdn: RelativeDistinguishedName, rest: seq<byte>)
    requires WfRdn(rdn) && EncodeRdn(rdn).Ok?
    ensures ParseRdn(EncodeRdn(rdn).value + rest) == Ok((rdn, rest))
  {
    ParseEncodedTlv(TagSet, RdnContent(rdn).value, rest);
    ParseEncodedRdnContent(rdn);
  }

  /** The content octets of the RDNSequence, in element order. */
  function RdnSequenceContent(rdns: seq<RelativeDistinguishedName>): Result<seq<byte>, DerError>
    requires forall i | 0 <= i < |rdns| :: WfRdn(rdns[i])
  {
    if rdns == [] then Ok([])
    else
      var head :- EncodeRdn(rdns[0]);
      var tail :- RdnSequenceContent(rdns[1..]);
      Ok(head + tail)
  }

  function ParseRdnSequenceContent(c: seq<byte>): (r: Result<seq<RelativeDistinguishedName>, DerError>)
    ensures r.Ok? ==> (forall i | 0 <= i < |r.value| :: WfRdn(r.value[i]))
    ensures r.Ok? ==> RdnSequenceContent(r.value) == Ok(c)
    decreases |c|
  {
    if c == [] then Ok([])
    else
      var (head, rest) :- ParseRdn(c);
      var tail :- ParseRdnSequenceContent(rest);
      assert ([head] + tail)[1..] == tail;
      Ok([head] + tail)
  }

  lemma {:induction false} ParseEncodedRdnSequenceContent(rdns: seq<RelativeDistinguishedName>)
    requires forall i | 0 <= i < |rdns| :: WfRdn(rdns[i])
    requires RdnSequenceContent(rdns).Ok?
    ensures ParseRdnSequenceContent(RdnSequenceContent(rdns).value) == Ok(rdns)
  {
    if rdns != [] {
      var head := EncodeRdn(rdns[0]).value;
      var tail := RdnSequenceContent(rdns[1..]).value;
      var c := RdnSequenceContent(rdns).value;
      assert c == head + tail;
      ParseEncodedRdn(rdns[0], tail);
      assert ParseRdn(c) == Ok((rdns[0], tail));
      ParseEncodedRdnSequenceContent(rdns[1..]);
      assert c != [];
      assert [rdns[0]] + rdns[1..] == rdns;
    }
  }

  function EncodeName(n: Name): Result<seq<byte>, DerError>
    requires WfName(n)
  {
    var content :- RdnSequenceContent(n.rdns);
    EncodeTlv(TagSequence, content)
  }

  /** A Name can only be an RDNSequence, so it must start with a SEQUENCE. */
  function ParseName(s: seq<byte>): (r: Parsed<Name>)
    ensures r.Ok? ==> WfName(r.value.0)
    ensures r.Ok? ==> Splits(s, EncodeName(r.value.0), r.value.1) && |r.value.1| < |s|
    ensures s != [] && s[0] != TagSequence ==> r == Err(UnexpectedTag)
  {
    var (content, rest) :- ParseTlv(TagSequence, s);
    var rdns :- ParseRdnSequenceContent(content);
    Ok((RdnSequence(rdns), rest))
  }

  lemma ParseEncodedName(n: Name, rest: seq<byte>)
    requires WfName(n) && EncodeName(n).Ok?
    ensures ParseName(EncodeName(n).value + rest) == Ok((n, rest))
  {
    ParseEncodedTlv(TagSequence, RdnSequenceContent(n.rdns).value, rest);
    ParseEncodedRdnSequenceContent(n.rdns);
  }

  // ---------------------------------------------------------------------------
  // Version ::= INTEGER { v1(0), v2(1), v3(2) }, in TBSCertificate as
  // [0] EXPLICIT Version DEFAULT v1

  datatype Version = V1 | V2 | V3

  function VersionNumber(v: Version): (n: nat)
    ensures n <= 2
  {
    match v
    case V1 => 0
    case V2 => 1
    case V3 => 2
  }

  function VersionOfNumber(n: int): (r: Option<Version>)
    ensures r.Some? <==> 0 <= n <= 2
    ensures r.Some? ==> VersionNumber(r.value) == n
  {
    if n == 0 then Some(V1)
    else if n == 1 then Some(V2)
    else if n == 2 then Some(V3)
    else None
  }

  /** The two mappings are inverse bijections between {v1, v2, v3} and 0..2. */
  lemma VersionBijection(v: Version, n: int)
    ensures VersionOfNumber(VersionNumber(v)) == Some(v)
    ensures VersionOfNumber(n) == Some(v) <==> VersionNumber(v) == n
  {
  }

  /** v1 is the DEFAULT and is omitted; v2 and v3 are written as [0] holding
      an INTEGER. */
  function EncodeVersion(v: Version): (r: Result<seq<byte>, DerError>)
  {
    if v == V1 then Ok([])
    else
      var number :- EncodeInteger(VersionNumber(v));
      EncodeTlv(ContextTag(0), number)
  }

  /** Without a [0] the version is the default, v1. With one, its INTEGER must
      be 1 or 2: 0 is the DEFAULT, which DER omits, and other numbers name no
      version. */
  function ParseVersion(s: seq<byte>): (r: Parsed<Version>)
    ensures r.Ok? ==> Splits(s, EncodeVersion(r.value.0), r.value.1)
    ensures s == [] || s[0] != ContextTag(0) ==> r == Ok((V1, s))
    ensures s != [] && s[0] == ContextTag(0) ==> r.Err? || r.value.0 != V1
  {
    if s == [] || s[0] != ContextTag(0) then Ok((V1, s))
    else
      var (explicit, rest) :- ParseTlv(ContextTag(0), s);
      var (number, afterNumber) :- ParseInteger(explicit);
      if afterNumber != [] then Err(TrailingContent)
      else
        assert explicit == EncodeInteger(number).value + [];
        assert explicit == EncodeInteger(number).value;
        match VersionOfNumber(number)
        case None => Err(BadContent)
        case Some(v) => if v == V1 then Err(BadContent) else Ok((v, rest))
  }

  lemma ParseEncodedVersion(v: Version, rest: seq<byte>)
    requires v != V1 || rest == [] || rest[0] != ContextTag(0)
    ensures EncodeVersion(v).Ok?
    ensures ParseVersion(EncodeVersion(v).value + rest) == Ok((v, rest))
  {
    if v == V1 {
      assert [] + rest == rest;
    } else {
      var number := EncodeInteger(VersionNumber(v)).value;
      assert |number| == 3;
      ParseEncodedTlv(ContextTag(0), number, rest);
      ParseEncodedInteger(VersionNumber(v), []);
      assert number + [] == number;
    }
  }

  /** An explicitly encoded v1 is not DER and is refused. */
  lemma ExplicitVersionV1Rejected(rest: seq<byte>)
    ensures EncodeInteger(0).Ok? && EncodeTlv(ContextTag(0), EncodeInteger(0).value).Ok?
    ensures ParseVersion(EncodeTlv(ContextTag(0), EncodeInteger(0).value).value + rest) == Err(BadContent)
  {
    var number := EncodeInteger(0).value;
    ParseEncodedTlv(ContextTag(0), number, rest);
    ParseEncodedInteger(0, []);
    assert number + [] == number;
  }

  // ---------------------------------------------------------------------------
  // issuerUniqueID [1] and subjectUniqueID [2]: OPTIONAL BIT STRINGs. They
  // are written EXPLICIT: the context tag wraps a whole BIT STRING TLV.

  function EncodeUniqueId(n: nat, id: Option<BitString>): (r: Result<seq<byte>, DerError>)
    requires n < 31 && (id.Some? ==> ValidBitString(id.value))
    ensures r.Ok? && id.Some? ==> r.value != [] && r.value[0] == ContextTag(n)
    ensures id.None? ==> r == Ok([])
  {
    if id.None? then Ok([])
    else
      var bits :- EncodeBitString(id.value);
      EncodeTlv(ContextTag(n), bits)
  }

  /** Present exactly when the next identifier octet is [n]. */
  function ParseUniqueId(n: nat, s: seq<byte>): (r: Parsed<Option<BitString>>)
    requires n < 31
    ensures r.Ok? ==> (r.value.0.Some? ==> ValidBitString(r.value.0.value))
    ensures r.Ok? ==> Splits(s, EncodeUniqueId(n, r.value.0), r.value.1)
    ensures s == [] || s[0] != ContextTag(n) ==> r == Ok((None, s))
    ensures r.Ok? ==> (r.value.0.Some? <==> s != [] && s[0] == ContextTag(n))
  {
    if s == [] || s[0] != ContextTag(n) then Ok((None, s))
    else
      var (explicit, rest) :- ParseTlv(ContextTag(n), s);
      var (bits, afterBits) :- ParseBitString(explicit);
      if afterBits != [] then Err(TrailingContent)
      else
        assert explicit == EncodeBitString(bits).value + [];
        assert explicit == EncodeBitString(bits).value;
        Ok((Some(bits), rest))
  }

  lemma ParseEncodedUniqueId(n: nat, id: Option<BitString>, rest: seq<byte>)
    requires n < 31 && (id.Some? ==> ValidBitString(id.value)) && EncodeUniqueId(n, id).Ok?
    requires id.Some? || rest == [] || rest[0] != ContextTag(n)
    ensures ParseUniqueId(n, EncodeUniqueId(n, id).value + rest) == Ok((id, rest))
  {
    if id.None? {
      assert [] + rest == rest;
    } else {
      var bits := EncodeBitString(id.value).value;
      ParseEncodedTlv(ContextTag(n), bits, rest);
      ParseEncodedBitString(id.value, []);
      assert bits + [] == bits;
    }
  }

  // ---------------------------------------------------------------------------
  // extensions [3] EXPLICIT Extensions OPTIONAL

  function EncodeExtensions(es: Option<seq<Extension>>): (r: Result<seq<byte>, DerError>)
    requires es.Some? ==> forall i | 0 <= i < |es.value| :: WfExtension(es.value[i])
    ensures r.Ok? && es.Some? ==> r.value != [] && r.value[0] == ContextTag(3)
    ensures es.None? ==> r == Ok([])
  {
    if es.None? then Ok([])
    else
      var content :- ExtensionListContent(es.value);
      var list :- EncodeTlv(TagSequence, content);
      EncodeTlv(ContextTag(3), list)
  }

  /** Present exactly when the next identifier octet is [3]. */
  function ParseExtensions(s: seq<byte>): (r: Parsed<Option<seq<Extension>>>)
    ensures r.Ok? ==> (r.value.0.Some? ==> forall i | 0 <= i < |r.value.0.value| :: WfExtension(r.value.0.value[i]))
    ensures r.Ok? ==> Splits(s, EncodeExtensions(r.value.0), r.value.1)
    ensures s == [] || s[0] != ContextTag(3) ==> r == Ok((None, s))
    ensures r.Ok? ==> (r.value.0.Some? <==> s != [] && s[0] == ContextTag(3))
  {
    if s == [] || s[0] != ContextTag(3) then Ok((None, s))
    else
      var (explicit, rest) :- ParseTlv(ContextTag(3), s);
      var (content, afterList) :- ParseTlv(TagSequence, explicit);
      if afterList != [] then Err(TrailingContent)
      else
        assert explicit == EncodeTlv(TagSequence, content).value + [];
        assert explicit == EncodeTlv(TagSequence, content).value;
        var es :- ParseExtensionList(content);
        Ok((Some(es), rest))
  }

  lemma ParseEncodedExtensions(es: Option<seq<Extension>>, rest: seq<byte>)
    requires es.Some? ==> forall i | 0 <= i < |es.value| :: WfExtension(es.value[i])
    requires EncodeExtensions(es).Ok?
    requires es.Some? || rest == [] || rest[0] != ContextTag(3)
    ensures ParseExtensions(EncodeExtensions(es).value + rest) == Ok((es, rest))
  {
    if es.None? {
      assert [] + rest == rest;
    } else {
      var content := ExtensionListContent(es.value).value;
      var list := EncodeTlv(TagSequence, content).value;
      ParseEncodedTlv(ContextTag(3), list, rest);
      ParseEncodedTlv(TagSequence, content, []);
      assert list + [] == list;
      ParseEncodedExtensionList(es.value);
    }
  }

  // ---------------------------------------------------------------------------
  // TBSCertificate ::= SEQUENCE {
  //   version [0] Version DEFAULT v1, serialNumber INTEGER,
  //   signature AlgorithmIdentifier, issuer Name, validity Validity,
  //   subject Name, subjectPublicKeyInfo SubjectPublicKeyInfo,
  //   issuerUniqueID [1] OPTIONAL, subjectUniqueID [2] OPTIONAL,
  //   extensions [3] OPTIONAL }

  datatype TbsCertificate = TbsCertificate(
    version: Version,
    serialNumber: int,
    signature: AlgorithmIdentifier,
    issuer: Name,
    validity: Validity,
    subject: Name,
    subjectPublicKeyInfo: SubjectPublicKeyInfo,
    issuerUniqueId: Option<BitString>,
    subjectUniqueId: Option<BitString>,
    extensions: Option<seq<Extension>>)

  predicate WfTbsCertificate(t: TbsCertificate)
  {
    && WfAlgorithmIdentifier(t.signature)
    && WfName(t.issuer)
    && WfValidity(t.validity)
    && WfName(t.subject)
    && WfSubjectPublicKeyInfo(t.subjectPublicKeyInfo)
    && (t.issuerUniqueId.Some? ==> ValidBitString(t.issuerUniqueId.value))
    && (t.subjectUniqueId.Some? ==> ValidBitString(t.subjectUniqueId.value))
    && (t.extensions.Some? ==> forall i | 0 <= i < |t.extensions.value| :: WfExtension(t.extensions.value[i]))
  }

  /** The optional trailer: the unique identifiers and the extensions, in
      that order. */
  function TbsTrailer(t: TbsCertificate): (r: Result<seq<byte>, DerError>)
    requires WfTbsCertificate(t)
    ensures r.Ok? ==> r.value == [] || r.value[0] == ContextTag(1) || r.value[0] == ContextTag(2) || r.value[0] == ContextTag(3)
  {
    var issuerUniqueId :- EncodeUniqueId(1, t.issuerUniqueId);
    var subjectUniqueId :- EncodeUniqueId(2, t.subjectUniqueId);
    var extensions :- EncodeExtensions(t.extensions);
    Ok(issuerUniqueId + (subjectUniqueId + extensions))
  }

  /** The fields in their declared order. */
  function TbsCertificateContent(t: TbsCertificate): Result<seq<byte>, DerError>
    requires WfTbsCertificate(t)
  {
    var version :- EncodeVersion(t.version);
    var serialNumber :- EncodeInteger(t.serialNumber);
    var signature :- EncodeAlgorithmIdentifier(t.signature);
    var issuer :- EncodeName(t.issuer);
    var validity :- EncodeValidity(t.validity);
    var subject :- EncodeName(t.subject);
    var subjectPublicKeyInfo :- EncodeSubjectPublicKeyInfo(t.subjectPublicKeyInfo);
    var trailer :- TbsTrailer(t);
    Ok(version + (serialNumber + (signature + (issuer + (validity + (subject + (subjectPublicKeyInfo + trailer)))))))
  }

  /** The TBSCertificate SEQUENCE; what it writes reads back as one TLV
      whose content decodes to `t`. */
  function EncodeTbsCertificate(t: TbsCertificate): (r: Result<seq<byte>, DerError>)
    requires WfTbsCertificate(t)
    ensures r.Ok? ==> TbsCertificateContent(t).Ok?
    ensures r.Ok? ==> ParseTlv(TagSequence, r.value) == Ok((TbsCertificateContent(t).value, []))
    ensures r.Ok? ==> ParseTbsCertificateContent(TbsCertificateContent(t).value) == Ok(t)
  {
    var content :- TbsCertificateContent(t);
    var r := EncodeTlv(TagSequence, content);
    if r.Ok? then
      ParseEncodedTlv(TagSequence, content, []);
      ParseEncodedTbsCertificateContent(t);
      assert r.value + [] == r.value;
      r
    else r
  }

  /** The three optional fields, each recognised by its context tag, in order;
      nothing may follow them. */
  function ParseTbsTrailer(c: seq<byte>): (r: Result<(Option<BitString>, Option<BitString>, Option<seq<Extension>>), DerError>)
    ensures r.Ok? ==> (r.value.0.Some? ==> ValidBitString(r.value.0.value))
    ensures r.Ok? ==> (r.value.1.Some? ==> ValidBitString(r.value.1.value))
    ensures r.Ok? ==> (r.value.2.Some? ==> forall i | 0 <= i < |r.value.2.value| :: WfExtension(r.value.2.value[i]))
    ensures r.Ok? ==> EncodeUniqueId(1, r.value.0).Ok? && EncodeUniqueId(2, r.value.1).Ok? && EncodeExtensions(r.value.2).Ok?
    ensures r.Ok? ==> c == EncodeUniqueId(1, r.value.0).value + (EncodeUniqueId(2, r.value.1).value + EncodeExtensions(r.value.2).value)
  {
    var (issuerUniqueId, c1) :- ParseUniqueId(1, c);
    var (subjectUniqueId, c2) :- ParseUniqueId(2, c1);
    var (extensions, c3) :- ParseExtensions(c2);
    if c3 != [] then Err(TrailingContent)
    else
      assert c2 == EncodeExtensions(extensions).value;
      Ok((issuerUniqueId, subjectUniqueId, extensions))
  }

  lemma ParseEncodedTbsTrailer(t: TbsCertificate)
    requires WfTbsCertificate(t) && TbsTrailer(t).Ok?
    ensures ParseTbsTrailer(TbsTrailer(t).value) == Ok((t.issuerUniqueId, t.subjectUniqueId, t.extensions))
  {
    var extensions := EncodeExtensions(t.extensions).value;
    var subjectUniqueId := EncodeUniqueId(2, t.subjectUniqueId).value;
    ParseEncodedUniqueId(1, t.issuerUniqueId, subjectUniqueId + extensions);
    ParseEncodedUniqueId(2, t.subjectUniqueId, extensions);
    ParseEncodedExtensions(t.extensions, []);
    assert extensions + [] == extensions;
  }

  function ParseTbsCertificateContent(c: seq<byte>): (r: Result<TbsCertificate, DerError>)
    ensures r.Ok? ==> WfTbsCertificate(r.value) && TbsCertificateContent(r.value) == Ok(c)
  {
    var (version, c1) :- ParseVersion(c);
    var (serialNumber, c2) :- ParseInteger(c1);
    var (signature, c3) :- ParseAlgorithmIdentifier(c2);
    var (issuer, c4) :- ParseName(c3);
    var (validity, c5) :- ParseValidity(c4);
    var (subject, c6) :- ParseName(c5);
    var (subjectPublicKeyInfo, c7) :- ParseSubjectPublicKeyInfo(c6);
    var (issuerUniqueId, subjectUniqueId, extensions) :- ParseTbsTrailer(c7);
    Ok(TbsCertificate(version, serialNumber, signature, issuer, validity, subject,
                      subjectPublicKeyInfo, issuerUniqueId, subjectUniqueId, extensions))
  }

  lemma ParseEncodedTbsCertificateContent(t: TbsCertificate)
    requires WfTbsCertificate(t) && TbsCertificateContent(t).Ok?
    ensures ParseTbsCertificateContent(TbsCertificateContent(t).value) == Ok(t)
  {
    var serialNumber := EncodeInteger(t.serialNumber).value;
    var signature := EncodeAlgorithmIdentifier(t.signature).value;
    var issuer := EncodeName(t.issuer).value;
    var validity := EncodeValidity(t.validity).value;
    var subject := EncodeName(t.subject).value;
    var subjectPublicKeyInfo := EncodeSubjectPublicKeyInfo(t.subjectPublicKeyInfo).value;
    var trailer := TbsTrailer(t).value;
    var c6 := subjectPublicKeyInfo + trailer;
    var c5 := subject + c6;
    var c4 := validity + c5;
    var c3 := issuer + c4;
    var c2 := signature + c3;
    var c1 := serialNumber + c2;
    assert c1[0] == TagInteger;
    ParseEncodedVersion(t.version, c1);
    ParseEncodedInteger(t.serialNumber, c2);
    ParseEncodedAlgorithmIdentifier(t.signature, c3);
    ParseEncodedName(t.issuer, c4);
    ParseEncodedValidity(t.validity, c5);
    ParseEncodedName(t.subject, c6);
    ParseEncodedSubjectPublicKeyInfo(t.subjectPublicKeyInfo, trailer);
    ParseEncodedTbsTrailer(t);
  }

  lemma ConcatAssociative(a: seq<byte>, b: seq<byte>, c: seq<byte>)
    ensures (a + b) + c == a + (b + c)
  {
  }

  /** Octets after the last optional field, other than the start of a
      further optional field, are trailing content and are refused. */
  lemma TbsTrailerTrailingRejected(t: TbsCertificate, extra: seq<byte>)
    requires WfTbsCertificate(t) && TbsTrailer(t).Ok?
    requires extra != [] && extra[0] != ContextTag(1) && extra[0] != ContextTag(2) && extra[0] != ContextTag(3)
    ensures ParseTbsTrailer(TbsTrailer(t).value + extra) == Err(TrailingContent)
  {
    var issuerUniqueId := EncodeUniqueId(1, t.issuerUniqueId).value;
    var subjectUniqueId := EncodeUniqueId(2, t.subjectUniqueId).value;
    var extensions := EncodeExtensions(t.extensions).value;
    var c2 := extensions + extra;
    var c1 := subjectUniqueId + c2;
    ConcatAssociative(subjectUniqueId, extensions, extra);
    ConcatAssociative(issuerUniqueId, subjectUniqueId + extensions, extra);
    ParseEncodedUniqueId(1, t.issuerUniqueId, c1);
    ParseEncodedUniqueId(2, t.subjectUniqueId, c2);
    ParseEncodedExtensions(t.extensions, extra);
  }

  lemma TbsCertificateContentWithExtra(t: TbsCertificate, extra: seq<byte>)
    requires WfTbsCertificate(t) && TbsCertificateContent(t).Ok?
    ensures TbsTrailer(t).Ok?
    ensures TbsCertificateContent(t).value + extra ==
      EncodeVersion(t.version).value + (EncodeInteger(t.serialNumber).value +
      (EncodeAlgorithmIdentifier(t.signature).value + (EncodeName(t.issuer).value +
      (EncodeValidity(t.validity).value + (EncodeName(t.subject).value +
      (EncodeSubjectPublicKeyInfo(t.subjectPublicKeyInfo).value + (TbsTrailer(t).value + extra)))))))
  {
    var d6 := EncodeSubjectPublicKeyInfo(t.subjectPublicKeyInfo).value + TbsTrailer(t).value;
    var d5 := EncodeName(t.subject).value + d6;
    var d4 := EncodeValidity(t.validity).value + d5;
    var d3 := EncodeName(t.issuer).value + d4;
    var d2 := EncodeAlgorithmIdentifier(t.signature).value + d3;
    var d1 := EncodeInteger(t.serialNumber).value + d2;
    assert TbsCertificateContent(t).value == EncodeVersion(t.version).value + d1;
    ConcatAssociative(EncodeSubjectPublicKeyInfo(t.subjectPublicKeyInfo).value, TbsTrailer(t).value, extra);
    ConcatAssociative(EncodeName(t.subject).value, d6, extra);
    ConcatAssociative(EncodeValidity(t.validity).value, d5, extra);
    ConcatAssociative(EncodeName(t.issuer).value, d4, extra);
    ConcatAssociative(EncodeAlgorithmIdentifier(t.signature).value, d3, extra);
    ConcatAssociative(EncodeInteger(t.serialNumber).value, d2, extra);
    ConcatAssociative(EncodeVersion(t.version).value, d1, extra);
  }

  /** Trailing content inside the TBSCertificate SEQUENCE makes decoding fail. */
  lemma TbsCertificateTrailingRejected(t: TbsCertificate, extra: seq<byte>)
    requires WfTbsCertificate(t) && TbsCertificateContent(t).Ok?
    requires extra != [] && extra[0] != ContextTag(1) && extra[0] != ContextTag(2) && extra[0] != ContextTag(3)
    ensures ParseTbsCertificateContent(TbsCertificateContent(t).value + extra) == Err(TrailingContent)
  {
    var version := EncodeVersion(t.version).value;
    var serialNumber := EncodeInteger(t.serialNumber).value;
    var signature := EncodeAlgorithmIdentifier(t.signature).value;
    var issuer := EncodeName(t.issuer).value;
    var validity := EncodeValidity(t.validity).value;
    var subject := EncodeName(t.subject).value;
    var subjectPublicKeyInfo := EncodeSubjectPublicKeyInfo(t.subjectPublicKeyInfo).value;
    var trailer := TbsTrailer(t).value + extra;
    var c6 := subjectPublicKeyInfo + trailer;
    var c5 := subject + c6;
    var c4 := validity + c5;
    var c3 := issuer + c4;
    var c2 := signature + c3;
    var c1 := serialNumber + c2;
    TbsCertificateContentWithExtra(t, extra);
    assert c1[0] == TagInteger;
    ParseEncodedVersion(t.version, c1);
    ParseEncodedInteger(t.serialNumber, c2);
    ParseEncodedAlgorithmIdentifier(t.signature, c3);
    ParseEncodedName(t.issuer, c4);
    ParseEncodedValidity(t.validity, c5);
    ParseEncodedName(t.subject, c6);
    ParseEncodedSubjectPublicKeyInfo(t.subjectPublicKeyInfo, trailer);
    TbsTrailerTrailingRejected(t, extra);
  }

  function ParseTbsCertificate(s: seq<byte>): (r: Parsed<TbsCertificate>)
    ensures r.Ok? ==> WfTbsCertificate(r.value.0)
    ensures r.Ok? ==> Splits(s, EncodeTbsCertificate(r.value.0), r.value.1) && |r.value.1| < |s|
  {
    var (content, rest) :- ParseTlv(TagSequence, s);
    var t :- ParseTbsCertificateContent(content);
    Ok((t, rest))
  }

  lemma ParseEncodedTbsCertificate(t: TbsCertificate, rest: seq<byte>)
    requires WfTbsCertificate(t) && EncodeTbsCertificate(t).Ok?
    ensures ParseTbsCertificate(EncodeTbsCertificate(t).value + rest) == Ok((t, rest))
  {
    ParseEncodedTlv(TagSequence, TbsCertificateContent(t).value, rest);
    ParseEncodedTbsCertificateContent(t);
  }

  /** A TBSCertificate that is exactly the given octets. */
  function DecodeTbsCertificate(raw: seq<byte>): (r: Result<TbsCertificate, DerError>)
    ensures r.Ok? ==> WfTbsCertificate(r.value) && EncodeTbsCertificate(r.value) == Ok(raw)
  {
    var (t, rest) :- ParseTbsCertificate(raw);
    if rest != [] then Err(TrailingContent)
    else
      assert raw == EncodeTbsCertificate(t).value + [];
      assert raw == EncodeTbsCertificate(t).value;
      Ok(t)
  }

  /** Encoding a well-formed TBSCertificate and decoding the octets gives it back. */
  lemma DecodeEncodedTbsCertificate(t: TbsCertificate)
    requires WfTbsCertificate(t) && EncodeTbsCertificate(t).Ok?
    ensures DecodeTbsCertificate(EncodeTbsCertificate(t).value) == Ok(t)
  {
    ParseEncodedTbsCertificate(t, []);
    assert EncodeTbsCertificate(t).value + [] == EncodeTbsCertificate(t).value;
  }

  // ---------------------------------------------------------------------------
  // Certificate ::= SEQUENCE { tbsCertificate TBSCertificate,
  //                            signatureAlgorithm AlgorithmIdentifier,
  //                            signature BIT STRING }

  datatype Certificate = Certificate(
    tbsCertificate: TbsCertificate,
    signatureAlgorithm: AlgorithmIdentifier,
    signature: BitString)

  predicate WfCertificate(c: Certificate)
  {
    WfTbsCertificate(c.tbsCertificate) && WfAlgorithmIdentifier(c.signatureAlgorithm) && ValidBitString(c.signature)
  }

  function CertificateContent(c: Certificate): Result<seq<byte>, DerError>
    requires WfCertificate(c)
  {
    var tbsCertificate :- EncodeTbsCertificate(c.tbsCertificate);
    var signatureAlgorithm :- EncodeAlgorithmIdentifier(c.signatureAlgorithm);
    var signature :- EncodeBitString(c.signature);
    Ok(tbsCertificate + (signatureAlgorithm + signature))
  }

  function EncodeCertificate(c: Certificate): Result<seq<byte>, DerError>
    requires WfCertificate(c)
  {
    var content :- CertificateContent(c);
    EncodeTlv(TagSequence, content)
  }

  function ParseCertificateContent(c: seq<byte>): (r: Result<Certificate, DerError>)
    ensures r.Ok? ==> WfCertificate(r.value) && CertificateContent(r.value) == Ok(c)
  {
    var (tbsCertificate, c1) :- ParseTbsCertificate(c);
    var (signatureAlgorithm, c2) :- ParseAlgorithmIdentifier(c1);
    var (signature, c3) :- ParseBitString(c2);
    if c3 != [] then Err(TrailingContent)
    else
      assert c2 == EncodeBitString(signature).value + [];
      assert c2 == EncodeBitString(signature).value;
      Ok(Certificate(tbsCertificate, signatureAlgorithm, signature))
  }

  lemma ParseEncodedCertificateContent(c: Certificate)
    requires WfCertificate(c) && CertificateContent(c).Ok?
    ensures ParseCertificateContent(CertificateContent(c).value) == Ok(c)
  {
    var signatureAlgorithm := EncodeAlgorithmIdentifier(c.signatureAlgorithm).value;
    var signature := EncodeBitString(c.signature).value;
    ParseEncodedTbsCertificate(c.tbsCertificate, signatureAlgorithm + signature);
    ParseEncodedAlgorithmIdentifier(c.signatureAlgorithm, signature);
    ParseEncodedBitString(c.signature, []);
    assert signature + [] == signature;
  }

  /** A Certificate that is exactly the given octets (one DER TLV). */
  function DecodeCertificate(raw: seq<byte>): (r: Result<Certificate, DerError>)
    ensures r.Ok? ==> WfCertificate(r.value) && EncodeCertificate(r.value) == Ok(raw)
  {
    var (content, rest) :- ParseTlv(TagSequence, raw);
    if rest != [] then Err(TrailingContent)
    else
      assert raw == EncodeTlv(TagSequence, content).value + [];
      assert raw == EncodeTlv(TagSequence, content).value;
      var c :- ParseCertificateContent(content);
      Ok(c)
  }

  lemma DecodeEncodedCertificate(c: Certificate)
    requires WfCertificate(c) && EncodeCertificate(c).Ok?
    ensures DecodeCertificate(EncodeCertificate(c).value) == Ok(c)
  {
    ParseEncodedTlv(TagSequence, CertificateContent(c).value, []);
    assert EncodeCertificate(c).value + [] == EncodeCertificate(c).value;
    ParseEncodedCertificateContent(c);
  }

  /** Octets after the certificate's outer SEQUENCE are refused. */
  lemma CertificateTrailingRejected(c: Certificate, extra: seq<byte>)
    requires WfCertificate(c) && EncodeCertificate(c).Ok? && extra != []
    ensures DecodeCertificate(EncodeCertificate(c).value + extra) == Err(TrailingContent)
  {
    ParseEncodedTlv(TagSequence, CertificateContent(c).value, extra);
  }

  /** DER leaves no choice of encoding: two octet strings that decode to the
      same certificate are the same octets. */
  lemma DecodeCertificateInjective(a: seq<byte>, b: seq<byte>)
    requires DecodeCertificate(a).Ok? && DecodeCertificate(a) == DecodeCertificate(b)
    ensures a == b
  {
  }

  /** The octets that were signed: the first TLV inside the certificate's
      outer SEQUENCE, taken as it stands. */
  function SignedPortion(raw: seq<byte>): Result<seq<byte>, DerError>
  {
    var (content, _) :- ParseTlv(TagSequence, raw);
    var (tbs, _) :- ParseAny(content);
    Ok(tbs)
  }

  /** In a SEQUENCE whose content starts with a SEQUENCE TLV, that TLV is
      the signed portion. */
  lemma SignedPortionOfParts(first: seq<byte>, firstContent: seq<byte>, tail: seq<byte>)
    requires EncodeTlv(TagSequence, firstContent) == Ok(first)
    requires EncodeTlv(TagSequence, first + tail).Ok?
    ensures SignedPortion(EncodeTlv(TagSequence, first + tail).value) == Ok(first)
  {
    var raw := EncodeTlv(TagSequence, first + tail).value;
    ParseEncodedTlv(TagSequence, first + tail, []);
    assert raw + [] == raw;
    ParseAnyEncodedTlv(TagSequence, firstContent, tail);
  }

  /** In an encoded certificate, the signed octets are the TBSCertificate's
      encoding. */
  lemma SignedPortionOfEncoded(c: Certificate)
    requires WfCertificate(c) && EncodeCertificate(c).Ok?
    ensures EncodeTbsCertificate(c.tbsCertificate).Ok?
    ensures SignedPortion(EncodeCertificate(c).value) == EncodeTbsCertificate(c.tbsCertificate)
  {
    var tbs := EncodeTbsCertificate(c.tbsCertificate).value;
    var tail := EncodeAlgorithmIdentifier(c.signatureAlgorithm).value + EncodeBitString(c.signature).value;
    assert CertificateContent(c) == Ok(tbs + tail);
    SignedPortionOfParts(tbs, TbsCertificateContent(c.tbsCertificate).value, tail);
  }

  /** Re-encoding a decoded certificate's TBSCertificate loses nothing: it
      gives back exactly the octets of the TBSCertificate as received. */
  lemma ReencodedTbsIsSignedPortion(raw: seq<byte>)
    requires DecodeCertificate(raw).Ok?
    ensures EncodeTbsCertificate(DecodeCertificate(raw).value.tbsCertificate) == SignedPortion(raw)
  {
    SignedPortionOfEncoded(DecodeCertificate(raw).value);
  }

}
