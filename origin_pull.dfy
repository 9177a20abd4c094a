/** The trust gate for client certificates presented to an origin: `verify`
    and `tryVerify`. A certificate is accepted exactly when it decodes, is
    signed with sha512WithRSAEncryption, is within its validity window at the
    current instant, and its TBSCertificate, re-encoded, carries a signature
    of the pinned origin-pull certificate authority.

    The clock is the parameter `now` (milliseconds since the epoch) and the
    RSA-SHA512 check against the pinned authority's key is the parameter
    `signedByCa`, a predicate over (signed octets, signature octets). The
    events of an outcome record, in order, what was done beyond computing. */
module OriginPull {
  import opened Wrappers
  import opened Der
  import opened Rfc5280

  // ---------------------------------------------------------------------------
  // The algorithm check compares `algorithm.join('.')` with a dotted string.

  predicate IsDecimalDigit(c: char)
  {
    '0' <= c <= '9'
  }

  /** The decimal numeral of `n`: the digits of a natural number, most
      significant first, with no leading zero. */
  function Decimal(n: nat): (s: string)
    ensures |s| >= 1
  {
    if n < 10 then [('0' as int + n) as char]
    else Decimal(n / 10) + [('0' as int + n % 10) as char]
  }

  predicate IsNumeral(s: string)
  {
    forall i | 0 <= i < |s| :: IsDecimalDigit(s[i])
  }

  lemma {:induction false} DecimalDigits(n: nat)
    ensures IsNumeral(Decimal(n))
  {
    if n >= 10 {
      DecimalDigits(n / 10);
    }
  }

  function DecimalValue(s: string): nat
    requires IsNumeral(s)
  {
    if s == [] then 0
    else
      var last := s[|s| - 1];
      assert IsDecimalDigit(last);
      DecimalValue(s[..|s| - 1]) * 10 + (last as int - '0' as int)
  }

  lemma {:induction false} DecimalInverse(n: nat)
    ensures IsNumeral(Decimal(n)) && DecimalValue(Decimal(n)) == n
  {
    if n >= 10 {
      var s := Decimal(n);
      DecimalDigits(n / 10);
      assert s[..|s| - 1] == Decimal(n / 10);
      DecimalInverse(n / 10);
    }
  }

  lemma DecimalInjective(n: nat, m: nat)
    requires Decimal(n) == Decimal(m)
    ensures n == m
  {
    DecimalInverse(n);
    DecimalInverse(m);
  }

  /** `arcs.join('.')`: the numerals of the arcs separated by dots; the empty
      string for no arcs. */
  function JoinDotted(arcs: seq<nat>): (s: string)
    ensures s == [] <==> arcs == []
    ensures arcs != [] ==> Decimal(arcs[0]) <= s
  {
    if arcs == [] then ""
    else if |arcs| == 1 then Decimal(arcs[0])
    else Decimal(arcs[0]) + "." + JoinDotted(arcs[1..])
  }

  predicate NoDot(s: string)
  {
    forall i | 0 <= i < |s| :: s[i] != '.'
  }

  /** The position of the first dot, or the length when there is none. */
  function DotIndex(s: string): (i: nat)
    ensures i <= |s|
  {
    if s == [] || s[0] == '.' then 0 else 1 + DotIndex(s[1..])
  }

  lemma {:induction false} DotIndexOfNoDot(s: string)
    requires NoDot(s)
    ensures DotIndex(s) == |s|
  {
    if s != [] {
      DotIndexOfNoDot(s[1..]);
    }
  }

  lemma {:induction false} DotIndexAfter(x: string, y: string)
    requires NoDot(x)
    ensures DotIndex(x + "." + y) == |x|
  {
    if x != [] {
      assert (x + "." + y)[1..] == x[1..] + "." + y;
      DotIndexAfter(x[1..], y);
    }
  }

  lemma SplitAtFirstDot(x: string, y: string, x': string, y': string)
    requires NoDot(x) && NoDot(x') && x + "." + y == x' + "." + y'
    ensures x == x' && y == y'
  {
    var s := x + "." + y;
    DotIndexAfter(x, y);
    DotIndexAfter(x', y');
    assert x == s[..|x|] && x' == s[..|x'|];
    assert y == s[|x| + 1..] && y' == s[|x'| + 1..];
  }

  lemma DecimalNoDot(n: nat)
    ensures NoDot(Decimal(n))
  {
    DecimalDigits(n);
  }

  /** The shape of a joined string: empty for no arcs, without a dot for one
      arc, and with the first arc's numeral before the first dot otherwise. */
  lemma JoinDottedShape(arcs: seq<nat>)
    ensures arcs == [] <==> JoinDotted(arcs) == ""
    ensures arcs != [] ==> (|arcs| == 1 <==> DotIndex(JoinDotted(arcs)) == |JoinDotted(arcs)|)
  {
    if |arcs| == 1 {
      DecimalNoDot(arcs[0]);
      DotIndexOfNoDot(Decimal(arcs[0]));
    } else if |arcs| > 1 {
      DecimalNoDot(arcs[0]);
      DotIndexAfter(Decimal(arcs[0]), JoinDotted(arcs[1..]));
    }
  }

  /** Joining with dots loses nothing: equal strings come from equal arcs. */
  lemma {:induction false} JoinDottedInjective(a: seq<nat>, b: seq<nat>)
    requires JoinDotted(a) == JoinDotted(b)
    ensures a == b
  {
    JoinDottedShape(a);
    JoinDottedShape(b);
    if a != [] {
      if |a| == 1 {
        DecimalInjective(a[0], b[0]);
      } else {
        DecimalNoDot(a[0]);
        DecimalNoDot(b[0]);
        SplitAtFirstDot(Decimal(a[0]), JoinDotted(a[1..]), Decimal(b[0]), JoinDotted(b[1..]));
        DecimalInjective(a[0], b[0]);
        JoinDottedInjective(a[1..], b[1..]);
        assert a == [a[0]] + a[1..] && b == [b[0]] + b[1..];
      }
    }
  }

  /** sha512WithRSAEncryption, section 5 of RFC 4055 and PKCS #1. */
  const Sha512WithRsaEncryption: seq<nat> := [1, 2, 840, 113549, 1, 1, 13]

  const Sha512WithRsaEncryptionDotted: string := "1.2.840.113549.1.1.13"

  lemma JoinDottedCons(head: nat, tail: seq<nat>, headText: string, tailText: string)
    requires tail != [] && Decimal(head) == headText && JoinDotted(tail) == tailText
    ensures JoinDotted([head] + tail) == headText + "." + tailText
  {
    assert ([head] + tail)[1..] == tail;
  }

  // The numerals of the arcs, each fact stated of a variable so that it is
  // evaluated once, here.

  lemma DecimalOfSmall(n: nat)
    requires n == 1 || n == 2 || n == 13
    ensures n == 1 ==> Decimal(n) == "1"
    ensures n == 2 ==> Decimal(n) == "2"
    ensures n == 13 ==> Decimal(n) == "13"
  {
    assert Decimal(1) == "1" && Decimal(2) == "2";
    assert Decimal(13) == "13";
  }

  lemma DecimalOf840(n: nat)
    requires n == 840
    ensures Decimal(n) == "840"
  {
    assert Decimal(840) == "840";
  }

  lemma DecimalOf113549(n: nat)
    requires n == 113549
    ensures Decimal(n) == "113549"
  {
    assert Decimal(113549) == "113549";
  }

  lemma DottedPieces(d: string)
    requires d == Sha512WithRsaEncryptionDotted
    ensures d == "1" + "." + ("2" + "." + ("840" + "." + ("113549" + "." + ("1" + "." + ("1" + "." + "13")))))
  {
  }

  /** The arcs are joined one at a time, from the last. */
  lemma Sha512WithRsaEncryptionJoined(arcs: seq<nat>, dotted: string)
    requires arcs == Sha512WithRsaEncryption && dotted == Sha512WithRsaEncryptionDotted
    ensures JoinDotted(arcs) == dotted
  {
    DottedPieces(dotted);
    DecimalOfSmall(arcs[6]);
    assert JoinDotted(arcs[6..]) == "13";
    DecimalOfSmall(arcs[5]);
    assert [arcs[5]] + arcs[6..] == arcs[5..];
    JoinDottedCons(arcs[5], arcs[6..], "1", "13");
    DecimalOfSmall(arcs[4]);
    assert [arcs[4]] + arcs[5..] == arcs[4..];
    JoinDottedCons(arcs[4], arcs[5..], "1", "1" + "." + "13");
    DecimalOf113549(arcs[3]);
    assert [arcs[3]] + arcs[4..] == arcs[3..];
    JoinDottedCons(arcs[3], arcs[4..], "113549", "1" + "." + ("1" + "." + "13"));
    DecimalOf840(arcs[2]);
    assert [arcs[2]] + arcs[3..] == arcs[2..];
    JoinDottedCons(arcs[2], arcs[3..], "840", "113549" + "." + ("1" + "." + ("1" + "." + "13")));
    DecimalOfSmall(arcs[1]);
    assert [arcs[1]] + arcs[2..] == arcs[1..];
    JoinDottedCons(arcs[1], arcs[2..], "2", "840" + "." + ("113549" + "." + ("1" + "." + ("1" + "." + "13"))));
    DecimalOfSmall(arcs[0]);
    assert [arcs[0]] + arcs[1..] == arcs;
    JoinDottedCons(arcs[0], arcs[1..], "1", "2" + "." + ("840" + "." + ("113549" + "." + ("1" + "." + ("1" + "." + "13")))));
  }

  /** The string comparison is exactly a comparison of the arcs. */
  lemma AlgorithmCheckIsArcEquality(arcs: seq<nat>)
    ensures JoinDotted(arcs) == Sha512WithRsaEncryptionDotted <==> arcs == Sha512WithRsaEncryption
  {
    var expected := Sha512WithRsaEncryption;
    Sha512WithRsaEncryptionJoined(expected, Sha512WithRsaEncryptionDotted);
    if JoinDotted(arcs) == Sha512WithRsaEncryptionDotted {
      JoinDottedInjective(arcs, expected);
    }
  }

  // ---------------------------------------------------------------------------
  // The decision

  /** What the TLS layer hands over: no certificate, or one whose `raw`
      octets may be missing. */
  datatype PeerCertificate = NoCertificate | PeerCertificate(raw: Option<seq<byte>>)

  datatype Event =
    | DecodeAttempted                                          // decoding was tried, whether or not it succeeded
    | ClockRead                                                // the current instant was taken
    | SignatureChecked(message: seq<byte>, signature: seq<byte>)  // the signature primitive was consulted

  /** The value `tryVerify` returns, or the error it throws, and what it did. */
  datatype Outcome = Outcome(result: Result<bool, DerError>, events: seq<Event>)

  /** The value `verify` returns, and what it did. */
  datatype Verdict = Verdict(accepted: bool, events: seq<Event>)

  /** `tryVerify` throws exactly when the octets do not decode, always
      decodes first, and answers true only when the signature primitive
      accepted the octets it was given. */
  function TryVerify(raw: seq<byte>, now: int, signedByCa: (seq<byte>, seq<byte>) -> bool): (o: Outcome)
    ensures o.result.Err? <==> DecodeCertificate(raw).Err?
    ensures 1 <= |o.events| <= 3 && o.events[0] == DecodeAttempted
    ensures o.result == Ok(true) ==>
      |o.events| == 3 && o.events[2].SignatureChecked? && signedByCa(o.events[2].message, o.events[2].signature)
  {
    match DecodeCertificate(raw)
    case Err(e) => Outcome(Err(e), [DecodeAttempted])
    case Ok(certificate) =>
      if JoinDotted(certificate.signatureAlgorithm.algorithm) != Sha512WithRsaEncryptionDotted then
        Outcome(Ok(false), [DecodeAttempted])
      else
        var validity := certificate.tbsCertificate.validity;
        if now < validity.notBefore.value || now > validity.notAfter.value then
          Outcome(Ok(false), [DecodeAttempted, ClockRead])
        else
          match EncodeTbsCertificate(certificate.tbsCertificate)
          case Err(e) => Outcome(Err(e), [DecodeAttempted, ClockRead])
          case Ok(message) =>
            var signature := certificate.signature.data;
            Outcome(Ok(signedByCa(message, signature)), [DecodeAttempted, ClockRead, SignatureChecked(message, signature)])
  }

  /** A thrown error becomes false; the function is total, so `verify` never
      throws. */
  function Verify(certificate: PeerCertificate, now: int, signedByCa: (seq<byte>, seq<byte>) -> bool): (v: Verdict)
    ensures v.events == [] <==> certificate.NoCertificate? || certificate.raw.None?
    ensures v.accepted ==>
      |v.events| == 3 && v.events[2].SignatureChecked? && signedByCa(v.events[2].message, v.events[2].signature)
  {
    match certificate
    case NoCertificate => Verdict(false, [])
    case PeerCertificate(None) => Verdict(false, [])
    case PeerCertificate(Some(raw)) =>
      var outcome := TryVerify(raw, now, signedByCa);
      Verdict(outcome.result == Ok(true), outcome.events)
  }

  // ---------------------------------------------------------------------------
  // What the decision promises

  /** No certificate, or no raw octets: rejected before anything is decoded. */
  lemma MissingCertificateRejected(certificate: PeerCertificate, now: int, signedByCa: (seq<byte>, seq<byte>) -> bool)
    requires certificate.NoCertificate? || certificate.raw.None?
    ensures Verify(certificate, now, signedByCa) == Verdict(false, [])
  {
  }

  /** Octets that do not decode are rejected, and then neither the clock nor
      the signature is consulted. */
  lemma UndecodableRejected(raw: seq<byte>, now: int, signedByCa: (seq<byte>, seq<byte>) -> bool)
    requires DecodeCertificate(raw).Err?
    ensures TryVerify(raw, now, signedByCa).result.Err?
    ensures Verify(PeerCertificate(Some(raw)), now, signedByCa) == Verdict(false, [DecodeAttempted])
  {
  }

  /** Another signature algorithm is rejected whatever the clock says and
      whatever the signature is: the clock is not read, the signature is not
      checked. */
  lemma WrongAlgorithmRejected(raw: seq<byte>, now: int, signedByCa: (seq<byte>, seq<byte>) -> bool)
    requires DecodeCertificate(raw).Ok?
    requires DecodeCertificate(raw).value.signatureAlgorithm.algorithm != Sha512WithRsaEncryption
    ensures Verify(PeerCertificate(Some(raw)), now, signedByCa) == Verdict(false, [DecodeAttempted])
  {
    AlgorithmCheckIsArcEquality(DecodeCertificate(raw).value.signatureAlgorithm.algorithm);
  }

  /** Outside the validity window the certificate is rejected without the
      signature being checked. */
  lemma OutsideWindowRejected(raw: seq<byte>, now: int, signedByCa: (seq<byte>, seq<byte>) -> bool)
    requires DecodeCertificate(raw).Ok?
    requires DecodeCertificate(raw).value.signatureAlgorithm.algorithm == Sha512WithRsaEncryption
    requires var validity := DecodeCertificate(raw).value.tbsCertificate.validity;
      now < validity.notBefore.value || now > validity.notAfter.value
    ensures Verify(PeerCertificate(Some(raw)), now, signedByCa) == Verdict(false, [DecodeAttempted, ClockRead])
  {
    AlgorithmCheckIsArcEquality(Sha512WithRsaEncryption);
  }

  /** Inside the window, both ends included, the answer is the signature
      primitive's, applied to the re-encoded TBSCertificate (which is exactly
      the signed portion of the octets received) and to the signature's bits
      without their unused-bit count. */
  lemma InsideWindowSignatureDecides(raw: seq<byte>, now: int, signedByCa: (seq<byte>, seq<byte>) -> bool)
    requires DecodeCertificate(raw).Ok?
    requires DecodeCertificate(raw).value.signatureAlgorithm.algorithm == Sha512WithRsaEncryption
    requires var validity := DecodeCertificate(raw).value.tbsCertificate.validity;
      validity.notBefore.value <= now <= validity.notAfter.value
    ensures SignedPortion(raw).Ok?
    ensures var certificate := DecodeCertificate(raw).value;
      var message := SignedPortion(raw).value;
      Verify(PeerCertificate(Some(raw)), now, signedByCa)
        == Verdict(signedByCa(message, certificate.signature.data),
                   [DecodeAttempted, ClockRead, SignatureChecked(message, certificate.signature.data)])
  {
    AlgorithmCheckIsArcEquality(Sha512WithRsaEncryption);
    ReencodedTbsIsSignedPortion(raw);
  }

  /** Accepted exactly when all checks pass: the octets are a certificate,
      its algorithm is sha512WithRSAEncryption, `now` lies in its validity
      window and the pinned authority signed its TBSCertificate. */
  lemma AcceptedIffAllChecksPass(certificate: PeerCertificate, now: int, signedByCa: (seq<byte>, seq<byte>) -> bool)
    ensures Verify(certificate, now, signedByCa).accepted <==>
      && certificate.PeerCertificate? && certificate.raw.Some?
      && var raw := certificate.raw.value;
         && DecodeCertificate(raw).Ok?
         && var c := DecodeCertificate(raw).value;
            && c.signatureAlgorithm.algorithm == Sha512WithRsaEncryption
            && c.tbsCertificate.validity.notBefore.value <= now <= c.tbsCertificate.validity.notAfter.value
            && SignedPortion(raw).Ok?
            && signedByCa(SignedPortion(raw).value, c.signature.data)
  {
    if certificate.PeerCertificate? && certificate.raw.Some? {
      var raw := certificate.raw.value;
      if DecodeCertificate(raw).Ok? {
        var c := DecodeCertificate(raw).value;
        AlgorithmCheckIsArcEquality(c.signatureAlgorithm.algorithm);
        ReencodedTbsIsSignedPortion(raw);
      }
    }
  }

  /** The checks run in a fixed order and stop at the first failure: the
      events are always a prefix of decoding, reading the clock, checking
      the signature. */
  lemma EventsFollowCheckOrder(certificate: PeerCertificate, now: int, signedByCa: (seq<byte>, seq<byte>) -> bool)
    ensures var events := Verify(certificate, now, signedByCa).events;
      && |events| <= 3
      && (|events| >= 1 ==> events[0] == DecodeAttempted)
      && (|events| >= 2 ==> events[1] == ClockRead)
      && (|events| == 3 ==> events[2].SignatureChecked?)
  {
    if certificate.PeerCertificate? && certificate.raw.Some? {
      var events := TryVerify(certificate.raw.value, now, signedByCa).events;
      assert events == [DecodeAttempted] || events == [DecodeAttempted, ClockRead] || exists message, signature :: events == [DecodeAttempted, ClockRead, SignatureChecked(message, signature)];
    }
  }

  /** An accepted certificate went through all three steps. */
  lemma AcceptedAfterAllSteps(certificate: PeerCertificate, now: int, signedByCa: (seq<byte>, seq<byte>) -> bool)
    requires Verify(certificate, now, signedByCa).accepted
    ensures |Verify(certificate, now, signedByCa).events| == 3
  {
  }

  /** The clock is read only once the algorithm check has passed. */
  lemma ClockReadAfterAlgorithmCheck(certificate: PeerCertificate, now: int, signedByCa: (seq<byte>, seq<byte>) -> bool)
    requires |Verify(certificate, now, signedByCa).events| >= 2
    ensures certificate.PeerCertificate? && certificate.raw.Some?
    ensures DecodeCertificate(certificate.raw.value).Ok?
    ensures DecodeCertificate(certificate.raw.value).value.signatureAlgorithm.algorithm == Sha512WithRsaEncryption
  {
    AlgorithmCheckIsArcEquality(DecodeCertificate(certificate.raw.value).value.signatureAlgorithm.algorithm);
  }

  /** The signature primitive is consulted only once the algorithm and the
      window have passed, and only on the signed portion of the octets
      received and the signature's bits. */
  lemma SignatureCheckedAfterWindowCheck(certificate: PeerCertificate, now: int, signedByCa: (seq<byte>, seq<byte>) -> bool)
    requires |Verify(certificate, now, signedByCa).events| == 3
    ensures certificate.PeerCertificate? && certificate.raw.Some?
    ensures DecodeCertificate(certificate.raw.value).Ok? && SignedPortion(certificate.raw.value).Ok?
    ensures var c := DecodeCertificate(certificate.raw.value).value;
      && c.signatureAlgorithm.algorithm == Sha512WithRsaEncryption
      && c.tbsCertificate.validity.notBefore.value <= now <= c.tbsCertificate.validity.notAfter.value
      && Verify(certificate, now, signedByCa).events[2]
           == SignatureChecked(SignedPortion(certificate.raw.value).value, c.signature.data)
  {
    var raw := certificate.raw.value;
    AlgorithmCheckIsArcEquality(DecodeCertificate(raw).value.signatureAlgorithm.algorithm);
    ReencodedTbsIsSignedPortion(raw);
  }

}
