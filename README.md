# Cloudflare origin-pull certificate check, modelled in Dafny

The repository decides whether a TLS client certificate was issued by Cloudflare's
origin-pull certificate authority. It has two parts.

- `src/lib/rfc5280-simplified.js` declares a small part of the X.509 schema of RFC 5280
  (Certificate, TBSCertificate, AlgorithmIdentifier, Name, Validity, Time,
  SubjectPublicKeyInfo, Extension) for a DER codec. Extension values are left as
  opaque OCTET STRINGs, so a decoded TBSCertificate re-encodes to the octets it came from.
- `src/index.js` exports `verify(certificate)`. It decodes the certificate's raw octets.
  It then requires sha512WithRSAEncryption as the signature algorithm, then checks that
  now lies inside the validity window. Last, it checks the RSA-SHA512 signature of the
  re-encoded TBSCertificate against the pinned CA. Any failure or thrown error gives `false`.

The model has five modules.

- `Wrappers` (`wrappers.dfy`) holds Option and Result.
- `Der` (`der.dfy`) holds the X.690 DER primitives the schema uses: definite lengths,
  single-octet-tag TLVs, ANY as raw TLV octets, BOOLEAN, INTEGER, BIT STRING,
  OCTET STRING and OBJECT IDENTIFIER. Each has an encoder and a decoder that
  enforces the DER rules listed under "## Left out".
- `Calendar` (`calendar.dfy`) converts between proleptic Gregorian UTC date-times and
  milliseconds since the epoch. Those milliseconds are the values the times decode to.
- `Asn1Time` (`asn1_time.dfy`) holds the UTCTime and GeneralizedTime content forms.
- `Rfc5280` (`rfc5280.dfy`) holds the schema as datatypes with its encoder and decoder.
- `OriginPull` (`origin_pull.dfy`) holds `verify` and `tryVerify` as a pure decision.

Every parser `ParseX` promises, in its own contract, two things: what it returns is
well-formed, and its input starts with the encoding of that value (decode then encode
is the identity). Every lemma `ParseEncodedX` proves the converse (encode then decode
is the identity). Together they give the round trip the repository relies on:
`ReencodedTbsIsSignedPortion` shows that re-encoding a decoded TBSCertificate gives
exactly the TBSCertificate octets that were received and signed.

The decision is `OriginPull.Verify(certificate, now, signedByCa)`.
- The clock is the parameter `now`, in milliseconds since the epoch.
- The RSA check against the pinned authority is the predicate parameter `signedByCa`,
  applied to the signed octets and the signature's bits.
- An event trace (`DecodeAttempted`, `ClockRead`, `SignatureChecked`) records which steps ran,
  so the order of the checks and the points where they stop can be stated and proved.

## Model

| member | source | states |
|---|---|---|
| Der.ParseLength | src/index.js:71 | the input is the shortest DER length octets of the decoded definite length, followed by the rest; the rest is shorter than the input |
| Der.ParseEncodedLength | src/index.js:86 | the DER length octets of any length below 2^32 decode back to that length and leave the rest untouched |
| Der.ParseTlv | src/index.js:71 | a TLV with the expected identifier octet is exactly identifier, DER length and content; another leading identifier octet fails with UnexpectedTag |
| Der.ParseEncodedTlv | src/index.js:86 | an encoded TLV reads back as its content, followed by the rest |
| Der.ParseAny | src/lib/rfc5280-simplified.js:15 | an ANY value is returned as a prefix of the input, of at least two octets, with the rest after it |
| Der.ParsedAnyIsTlv | src/lib/rfc5280-simplified.js:15 | the prefix ParseAny returns is exactly one TLV: read on its own, it is taken whole and nothing is left |
| Der.LowTagNumberInHighFormRejected | src/lib/rfc5280-simplified.js:15 | inside an ANY value, a tag number below 31 written in the high-tag-number form is refused |
| Der.ParseAnyPrefix | src/lib/rfc5280-simplified.js:15 | what ParseAny takes depends only on those octets, whatever follows them |
| Der.ParseEncodedAny | src/lib/rfc5280-simplified.js:143-146 | raw TLV octets kept from an ANY field read back unchanged |
| Der.ParseAnyEncodedTlv | src/lib/rfc5280-simplified.js:25 | a TLV the encoder wrote reads back whole as an ANY value |
| Der.ParseBoolean | src/lib/rfc5280-simplified.js:103 | a decoded BOOLEAN is the single octet 00 or FF, followed by the rest |
| Der.ParseEncodedBoolean | src/lib/rfc5280-simplified.js:103 | an encoded BOOLEAN reads back as the same truth value |
| Der.IntegerContentInverse | src/lib/rfc5280-simplified.js:45 | the minimal two's-complement octets of any integer are minimal and have that value |
| Der.TwosComplementInverse | src/lib/rfc5280-simplified.js:45 | minimal two's-complement octets are exactly the encoding of the value they denote |
| Der.ParseInteger | src/lib/rfc5280-simplified.js:45 | a decoded INTEGER is exactly the DER encoding of its value; empty and non-minimal contents are refused |
| Der.ParseEncodedInteger | src/lib/rfc5280-simplified.js:45 | the DER encoding of any integer reads back as that integer |
| Der.ParseBitString | src/lib/rfc5280-simplified.js:27 | a decoded BIT STRING has at most seven unused bits, none when it is empty, zero unused bits in its last octet, and re-encodes to the octets read |
| Der.NonzeroUnusedBitsRejected | src/lib/rfc5280-simplified.js:27 | a BIT STRING whose last octet has a set unused bit is refused |
| Der.ParseEncodedBitString | src/lib/rfc5280-simplified.js:27 | an encoded BIT STRING reads back with the same unused count and data |
| Der.ParseOctetString | src/lib/rfc5280-simplified.js:104 | a decoded OCTET STRING re-encodes to the octets read |
| Der.ParseEncodedOctetString | src/lib/rfc5280-simplified.js:104 | any octets written as an OCTET STRING read back unchanged |
| Der.Base128Inverse | src/lib/rfc5280-simplified.js:14 | the base-128 form of any arc is a minimal subidentifier whose value is that arc |
| Der.Base128ValueInverse | src/lib/rfc5280-simplified.js:14 | a minimal subidentifier is exactly the base-128 form of its value |
| Der.ParseSubidentifier | src/lib/rfc5280-simplified.js:14 | a decoded subidentifier is the base-128 form of the returned arc, followed by the rest |
| Der.ParseEncodedSubidentifier | src/lib/rfc5280-simplified.js:14 | the base-128 form of any arc reads back as that arc |
| Der.ParseSubidentifiers | src/lib/rfc5280-simplified.js:14 | decoded subidentifiers re-encode to the content read |
| Der.ParseEncodedSubidentifiers | src/lib/rfc5280-simplified.js:14 | any sequence of arcs, encoded, reads back unchanged |
| Der.FirstSubidentifierSplit | src/lib/rfc5280-simplified.js:14 | the first subidentifier 40x+y splits back into the first two arcs x and y |
| Der.ParseOidContent | src/lib/rfc5280-simplified.js:14 | decoded OBJECT IDENTIFIER content gives a valid arc list whose content encoding is the input |
| Der.ParseEncodedOidContent | src/lib/rfc5280-simplified.js:14 | the content encoding of any valid arc list reads back as that list |
| Der.ParseOid | src/lib/rfc5280-simplified.js:14 | a decoded OBJECT IDENTIFIER is valid and is exactly its DER encoding, followed by the rest |
| Der.ParseEncodedOid | src/lib/rfc5280-simplified.js:14 | the DER encoding of any valid arc list reads back as that list |
| Calendar.DaysBeforeYearClosedForm | src/index.js:64-67 | the day count before a year equals the closed Gregorian leap-day formula |
| Calendar.FromInstantOfToInstant | src/index.js:64-67 | every valid date-time is an instant of its own year, and converting that instant back gives the date-time |
| Calendar.ToInstantOfFromInstant | src/index.js:64-67 | every whole-second instant of the years lo..hi is a valid date-time of those years that converts back to the instant |
| Asn1Time.UtcYear | src/lib/rfc5280-simplified.js:81 | a two-digit UTCTime year names the one year of 1950 to 2049 ending in those digits (section 4.1.2.5.1 of RFC 5280) |
| Asn1Time.ParseUtcTimeText | src/lib/rfc5280-simplified.js:81 | accepted YYMMDDHHMMSSZ text is a valid date-time of 1950..2049 whose text is the input |
| Asn1Time.ParseUtcTimeTextInverse | src/lib/rfc5280-simplified.js:81 | the UTCTime text of any valid date-time of 1950..2049 reads back as that date-time |
| Asn1Time.ParseUtcTimeContent | src/lib/rfc5280-simplified.js:81 | an accepted UTCTime is an instant of 1950..2049 whose content is the input |
| Asn1Time.ParseUtcTimeContentInverse | src/lib/rfc5280-simplified.js:81 | every whole-second instant of 1950..2049, written as UTCTime, reads back as that instant |
| Asn1Time.ParseGeneralizedTimeText | src/lib/rfc5280-simplified.js:82 | accepted YYYYMMDDHHMMSSZ text is a valid date-time whose text is the input |
| Asn1Time.ParseGeneralizedTimeTextInverse | src/lib/rfc5280-simplified.js:82 | the GeneralizedTime text of any valid date-time reads back as that date-time |
| Asn1Time.ParseGeneralizedTimeContent | src/lib/rfc5280-simplified.js:82 | an accepted GeneralizedTime is an instant of 0..9999 whose content is the input |
| Asn1Time.ParseGeneralizedTimeContentInverse | src/lib/rfc5280-simplified.js:82 | every whole-second instant of 0..9999, written as GeneralizedTime, reads back as that instant |
| Rfc5280.ParseAlgorithmIdentifierContent | src/lib/rfc5280-simplified.js:12-17 | a decoded AlgorithmIdentifier re-encodes to its content; parameters are present exactly when octets follow the algorithm, and are then kept raw |
| Rfc5280.ParseEncodedAlgorithmIdentifierContent | src/lib/rfc5280-simplified.js:12-17 | any well-formed AlgorithmIdentifier's content reads back as it, with or without parameters |
| Rfc5280.ParseAlgorithmIdentifier | src/lib/rfc5280-simplified.js:12-17 | a decoded AlgorithmIdentifier SEQUENCE is well-formed and is exactly its encoding, followed by the rest |
| Rfc5280.ParseEncodedAlgorithmIdentifier | src/lib/rfc5280-simplified.js:12-17 | an encoded AlgorithmIdentifier reads back unchanged |
| Rfc5280.ParseTime | src/lib/rfc5280-simplified.js:79-84 | Time is a CHOICE: identifier 0x17 gives the UTCTime alternative, 0x18 the GeneralizedTime one, any other identifier UnexpectedTag; the value re-encodes to the octets read |
| Rfc5280.ParseEncodedTime | src/lib/rfc5280-simplified.js:79-84 | either alternative, encoded, reads back as the same alternative and instant |
| Rfc5280.ParseValidityContent | src/lib/rfc5280-simplified.js:69-74 | decoded notBefore and notAfter, in that order, re-encode to the content; nothing may follow them |
| Rfc5280.ParseValidity | src/lib/rfc5280-simplified.js:69-74 | a decoded Validity is exactly its encoding, followed by the rest |
| Rfc5280.ParseEncodedValidity | src/lib/rfc5280-simplified.js:69-74 | an encoded Validity reads back unchanged |
| Rfc5280.ParseSubjectPublicKeyInfoContent | src/lib/rfc5280-simplified.js:89-94 | decoded algorithm and key bits, in that order, re-encode to the content |
| Rfc5280.ParseSubjectPublicKeyInfo | src/lib/rfc5280-simplified.js:89-94 | a decoded SubjectPublicKeyInfo is exactly its encoding, followed by the rest |
| Rfc5280.ParseEncodedSubjectPublicKeyInfo | src/lib/rfc5280-simplified.js:89-94 | an encoded SubjectPublicKeyInfo reads back unchanged |
| Rfc5280.ParseCritical | src/lib/rfc5280-simplified.js:103 | an absent BOOLEAN means the DEFAULT false and consumes nothing; a present one must be TRUE |
| Rfc5280.ParseEncodedCritical | src/lib/rfc5280-simplified.js:103 | critical true is written and read back; false is omitted and read back as the default |
| Rfc5280.ExplicitCriticalFalseRejected | src/lib/rfc5280-simplified.js:103 | an explicitly written FALSE, which DER forbids for a DEFAULT, is refused |
| Rfc5280.ParseExtensionContent | src/lib/rfc5280-simplified.js:100-106 | decoded extnID, critical and extnValue, in that order, re-encode to the content |
| Rfc5280.ParseExtension | src/lib/rfc5280-simplified.js:100-106 | a decoded Extension is exactly its encoding, followed by the rest |
| Rfc5280.ParseEncodedExtension | src/lib/rfc5280-simplified.js:100-106 | an encoded Extension reads back unchanged |
| Rfc5280.ExtnValueOpaque | src/lib/rfc5280-simplified.js:3-7 | any octets at all as extnValue are accepted and come back unchanged: the value is never interpreted |
| Rfc5280.ParseExtensionList | src/lib/rfc5280-simplified.js:53 | decoded extensions, in order, re-encode to the SEQUENCE OF content |
| Rfc5280.ParseEncodedExtensionList | src/lib/rfc5280-simplified.js:53 | any list of well-formed extensions, encoded, reads back in the same order |
| Rfc5280.ParseAttributeTypeAndValueContent | src/lib/rfc5280-simplified.js:131-146 | a decoded type OID and raw value TLV re-encode to the content |
| Rfc5280.ParseAttributeTypeAndValue | src/lib/rfc5280-simplified.js:131-136 | a decoded AttributeTypeAndValue is exactly its encoding, followed by the rest |
| Rfc5280.ParseEncodedAttributeTypeAndValue | src/lib/rfc5280-simplified.js:131-146 | an encoded AttributeTypeAndValue reads back with its raw value unchanged |
| Rfc5280.ParseRdnContent | src/lib/rfc5280-simplified.js:123-126 | decoded SET OF elements, in the order read, re-encode to the content |
| Rfc5280.ParseEncodedRdnContent | src/lib/rfc5280-simplified.js:123-126 | any list of elements, encoded in its order, reads back unchanged |
| Rfc5280.ParseRdn | src/lib/rfc5280-simplified.js:123-126 | a decoded SET is exactly its encoding, followed by the rest |
| Rfc5280.ParseEncodedRdn | src/lib/rfc5280-simplified.js:123-126 | an encoded RelativeDistinguishedName reads back unchanged |
| Rfc5280.ParseRdnSequenceContent | src/lib/rfc5280-simplified.js:117-119 | decoded RDNs, in order, re-encode to the SEQUENCE OF content |
| Rfc5280.ParseEncodedRdnSequenceContent | src/lib/rfc5280-simplified.js:117-119 | any list of well-formed RDNs, encoded, reads back in the same order |
| Rfc5280.ParseName | src/lib/rfc5280-simplified.js:110-114 | a Name has only the rdnSequence alternative: a non-SEQUENCE identifier is UnexpectedTag; a decoded Name is exactly its encoding |
| Rfc5280.ParseEncodedName | src/lib/rfc5280-simplified.js:110-114 | an encoded Name reads back unchanged |
| Rfc5280.VersionNumber | src/lib/rfc5280-simplified.js:57-64 | each version has a number of at most 2 |
| Rfc5280.VersionOfNumber | src/lib/rfc5280-simplified.js:57-64 | a number names a version exactly when it is 0, 1 or 2, and the version has that number |
| Rfc5280.VersionBijection | src/lib/rfc5280-simplified.js:57-64 | v1, v2, v3 and 0, 1, 2 are in one-to-one correspondence, both ways |
| Rfc5280.ParseVersion | src/lib/rfc5280-simplified.js:44 | no [0] means the DEFAULT v1 and consumes nothing; a present [0] must hold v2 or v3 |
| Rfc5280.ParseEncodedVersion | src/lib/rfc5280-simplified.js:44 | v1 is omitted, v2 and v3 are written in [0] EXPLICIT, and each reads back |
| Rfc5280.ExplicitVersionV1Rejected | src/lib/rfc5280-simplified.js:44 | an explicitly written v1, which DER forbids for a DEFAULT, is refused |
| Rfc5280.EncodeUniqueId | src/lib/rfc5280-simplified.js:51-52 | an absent unique identifier writes nothing; a present one starts with the constructed context tag [n] |
| Rfc5280.ParseUniqueId | src/lib/rfc5280-simplified.js:51-52 | the identifier is present exactly when the next octet is [n] (EXPLICIT, wrapping a BIT STRING), and re-encodes to the octets read |
| Rfc5280.ParseEncodedUniqueId | src/lib/rfc5280-simplified.js:51-52 | a present or absent unique identifier, encoded, reads back unchanged |
| Rfc5280.EncodeExtensions | src/lib/rfc5280-simplified.js:53 | absent extensions write nothing; present ones start with [3] |
| Rfc5280.ParseExtensions | src/lib/rfc5280-simplified.js:53 | the extensions are present exactly when the next octet is [3], wrapping one SEQUENCE OF Extension, and re-encode to the octets read |
| Rfc5280.ParseEncodedExtensions | src/lib/rfc5280-simplified.js:53 | present or absent extensions, encoded, read back unchanged |
| Rfc5280.TbsTrailer | src/lib/rfc5280-simplified.js:51-53 | the optional tail of a TBSCertificate is empty or starts with [1], [2] or [3] |
| Rfc5280.ParseTbsTrailer | src/lib/rfc5280-simplified.js:51-53 | the optional fields come in the order [1], [2], [3]; decoding them gives back their encodings and nothing follows |
| Rfc5280.ParseEncodedTbsTrailer | src/lib/rfc5280-simplified.js:51-53 | any combination of the three optional fields, encoded, reads back unchanged |
| Rfc5280.ParseTbsCertificateContent | src/lib/rfc5280-simplified.js:42-55 | the ten fields decode in their declared order, and the decoded TBSCertificate re-encodes to exactly the content read |
| Rfc5280.ParseEncodedTbsCertificateContent | src/lib/rfc5280-simplified.js:42-55 | any well-formed TBSCertificate's content reads back as it |
| Rfc5280.TbsTrailerTrailingRejected | src/lib/rfc5280-simplified.js:51-53 | octets after the optional fields that do not start another optional field fail with trailing content |
| Rfc5280.TbsCertificateTrailingRejected | src/lib/rfc5280-simplified.js:42-55 | a well-formed TBSCertificate's content followed by stray octets that do not start an optional field fails to decode with trailing content |
| Rfc5280.ParseTbsCertificate | src/lib/rfc5280-simplified.js:42-55 | a decoded TBSCertificate SEQUENCE is exactly its encoding, followed by the rest |
| Rfc5280.EncodeTbsCertificate | src/index.js:86 | `TBSCertificate.encode`: a SEQUENCE TLV and nothing after it, whose content is the fields in declared order and decodes back to the same TBSCertificate |
| Rfc5280.ParseEncodedTbsCertificate | src/lib/rfc5280-simplified.js:42-55 | an encoded TBSCertificate reads back unchanged |
| Rfc5280.DecodeTbsCertificate | src/lib/rfc5280-simplified.js:42-55 | decoding then encoding a TBSCertificate gives back exactly the octets decoded |
| Rfc5280.DecodeEncodedTbsCertificate | src/lib/rfc5280-simplified.js:42-55 | encoding then decoding a well-formed TBSCertificate gives it back |
| Rfc5280.ParseCertificateContent | src/lib/rfc5280-simplified.js:23-29 | tbsCertificate, signatureAlgorithm and signature, in that order, re-encode to the content; nothing may follow them |
| Rfc5280.ParseEncodedCertificateContent | src/lib/rfc5280-simplified.js:23-29 | any well-formed Certificate's content reads back as it |
| Rfc5280.DecodeCertificate | src/lib/rfc5280-simplified.js:23-29 | a decoded Certificate is well-formed and encodes back to exactly the octets decoded |
| Rfc5280.CertificateTrailingRejected | src/lib/rfc5280-simplified.js:23-29 | any octets after a complete Certificate make decoding fail with trailing content |
| Rfc5280.DecodeEncodedCertificate | src/lib/rfc5280-simplified.js:23-29 | encoding then decoding a well-formed Certificate gives it back |
| Rfc5280.DecodeCertificateInjective | src/lib/rfc5280-simplified.js:23-29 | two octet strings that decode to the same Certificate are equal |
| Rfc5280.SignedPortionOfEncoded | src/lib/rfc5280-simplified.js:3-7 | in an encoded Certificate, the first TLV of the outer SEQUENCE is the TBSCertificate's encoding |
| Rfc5280.ReencodedTbsIsSignedPortion | src/index.js:86 | re-encoding a decoded certificate's TBSCertificate gives exactly the TBSCertificate octets received |
| OriginPull.DecimalInverse | src/index.js:74 | the decimal numeral of an arc is digits only and denotes that arc |
| OriginPull.DecimalInjective | src/index.js:74 | distinct arcs have distinct numerals |
| OriginPull.JoinDotted | src/index.js:74 | `algorithm.join('.')`: empty exactly for no arcs, and begins with the numeral of the first arc |
| OriginPull.JoinDottedInjective | src/index.js:74 | `join('.')` of arc lists is injective |
| OriginPull.Sha512WithRsaEncryptionJoined | src/index.js:74 | the arcs 1.2.840.113549.1.1.13 join to the string the code compares against |
| OriginPull.AlgorithmCheckIsArcEquality | src/index.js:74 | the string comparison holds exactly when the arcs equal those of sha512WithRSAEncryption |
| OriginPull.TryVerify | src/index.js:60-88 | `tryVerify` throws exactly when the octets do not decode; it always decodes first and does at most three steps; true only when the last step was the signature check and that check accepted |
| OriginPull.Verify | src/index.js:43-55 | `verify` does nothing exactly when there is no certificate or no raw octets; true only when the signature check ran third and accepted |
| OriginPull.MissingCertificateRejected | src/index.js:48 | no certificate, or one without raw octets, is rejected before anything else is done |
| OriginPull.UndecodableRejected | src/index.js:50-54 | octets that do not decode make tryVerify throw and verify return false, with neither the clock nor the signature consulted |
| OriginPull.WrongAlgorithmRejected | src/index.js:74-76 | any other signature algorithm is rejected before the clock is read |
| OriginPull.OutsideWindowRejected | src/index.js:78-82 | strictly before notBefore or strictly after notAfter, the certificate is rejected without the signature being checked |
| OriginPull.InsideWindowSignatureDecides | src/index.js:83-87 | inside the window, both ends included, the answer is the CA check of the signed TBSCertificate octets and the signature's bits |
| OriginPull.AcceptedIffAllChecksPass | src/index.js:43-88 | verify is true exactly when the octets decode, the algorithm is sha512WithRSAEncryption, now is in the window and the CA signed the TBSCertificate |
| OriginPull.EventsFollowCheckOrder | src/index.js:60-88 | the steps always run as a prefix of: decode, read the clock, check the signature |
| OriginPull.AcceptedAfterAllSteps | src/index.js:60-88 | an accepted certificate went through all three steps |
| OriginPull.ClockReadAfterAlgorithmCheck | src/index.js:73-79 | the clock is read only after the certificate decoded with the expected algorithm |
| OriginPull.SignatureCheckedAfterWindowCheck | src/index.js:78-87 | the signature is checked only after the algorithm and window checks passed, and only on the signed octets and the signature's bits |

## Left out

- The RSA-SHA512 primitive and the pinned CA certificate (PEM text, src/index.js:6-41) are
  not modelled. They are the parameter `signedByCa`.
- `Date.now()` is the parameter `now`.
- The TLS layer that produces the peer certificate object is reduced to `PeerCertificate`.
- asn1.js itself is not part of this model. The decoder enforces these DER rules:
  - It refuses non-minimal lengths, INTEGERs and subidentifiers.
  - It refuses explicitly written DEFAULT values (v1, critical FALSE).
  - It refuses BOOLEAN octets other than 00 and FF, and BIT STRINGs with a set unused
    bit (X.690 11.2.1).
  - It refuses a tag number below 31 written in the high-tag-number form (X.690 8.1.2.2).
  - It refuses trailing octets inside constructed values and after the certificate.
  - Where asn1.js is more lenient, the model rejects more inputs than the code.
  - These rules are what make decode-then-encode the identity.
- The decoder does not enforce these DER rules:
  - the sorted order of SET OF elements (X.690 11.6); the order read is kept;
  - the content of ANY values (AlgorithmIdentifier parameters, AttributeValue) and of
    extnValue, which are carried as octets and not decoded.
- Rfc5280.ParseVersion: rejects version numbers other than 0, 1 and 2, which asn1.js
  passes through as plain numbers, because the schema maps only those three.
- Rfc5280.ParseRdnContent: does not enforce SIZE (1..MAX), because asn1.js's `setof` does
  not enforce it either.
- Rfc5280.EncodeRdn: writes the elements of a SET OF in the order given, without DER's
  sorting (X.690 11.6). The order read is kept, which re-encoding needs.
- Rfc5280.ParseUniqueId: modelled EXPLICIT [1]/[2], wrapping a BIT STRING, as the code
  does (`explicit(1)`, `explicit(2)`). The code's comment, following RFC 5280, says IMPLICIT.
- Der.EncodeLength: content lengths need at most four length octets (below 2^32). Longer
  ones are an error both ways.
- Tags are single identifier octets in the schema's fields. The high-tag-number form is
  read only inside ANY values.
- Rfc5280.ParseTime: times are whole seconds, of the years 1950 to 2049 for UTCTime and
  0 to 9999 for GeneralizedTime. Only the forms ending in Z are accepted, as section
  4.1.2.5 of RFC 5280 requires. Fractional seconds and local-time offsets are not modelled.
- Asn1Time.UtcYear: uses the pivot of section 4.1.2.5.1 of RFC 5280 (50 and above is 19YY).
  The pivot asn1.js uses is not part of this model.
- Object identifier arcs are unbounded naturals, and `Decimal` prints every natural as
  its plain digits. Neither asn1.js's arc arithmetic nor JavaScript's number formatting
  is modelled.
