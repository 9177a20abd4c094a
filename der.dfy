/** The part of ITU-T X.690 (Distinguished Encoding Rules) that the
    certificate schema needs: identifier and length octets, the universal
    types BOOLEAN, INTEGER, BIT STRING, OCTET STRING and OBJECT IDENTIFIER,
    and ANY, a complete TLV that is carried as its exact octets.

    Every parser returns the value it read and the octets that follow it, and
    promises that those input octets are exactly the encoding of the value
    followed by the rest: decoding followed by encoding is the identity. The
    lemmas named ParseEncodedX give the other direction. */
module Der {
  import opened Wrappers

  type byte = b: int | 0 <= b < 256

  datatype DerError =
    | Truncated        // the input ends inside identifier, length or content octets
    | UnexpectedTag    // the identifier octet is not the one the schema expects here
    | BadLength        // indefinite, non-minimal or over-long length octets
    | BadContent       // content octets that break the type's encoding rules
    | TrailingContent  // octets left over inside a constructed value
    | TooLong          // a content length that does not fit four length octets

  /** A successful parse gives the value and the octets that follow it. */
  type Parsed<T> = Result<(T, seq<byte>), DerError>

  /** `s` is exactly the successful encoding `enc` followed by `rest`. */
  predicate Splits(s: seq<byte>, enc: Result<seq<byte>, DerError>, rest: seq<byte>)
  {
    enc.Ok? && s == enc.value + rest
  }

  // Identifier octets of the universal types used (X.690 8.1.2, 8.1.2.5).
  const TagBoolean: byte := 0x01
  const TagInteger: byte := 0x02
  const TagBitString: byte := 0x03
  const TagOctetString: byte := 0x04
  const TagObjectIdentifier: byte := 0x06
  const TagUtcTime: byte := 0x17
  const TagGeneralizedTime: byte := 0x18
  const TagSequence: byte := 0x30
  const TagSet: byte := 0x31

  /** The identifier octet of a constructed, context-specific [n]
      (class bits 10, constructed bit 1, X.690 8.1.2.2 to 8.1.2.5). */
  function ContextTag(n: nat): (t: byte)
    requires n < 31
    ensures t / 32 == 5 && t % 32 == n
  {
    0xA0 + n
  }

  // ---------------------------------------------------------------------------
  // Unsigned big-endian octets (long-form lengths, X.690 8.1.3.5)

  /** The minimal big-endian octets of n; none for zero. */
  function NatToBytes(n: nat): seq<byte>
    decreases n
  {
    if n == 0 then [] else NatToBytes(n / 256) + [n % 256]
  }

  function BytesToNat(bs: seq<byte>): nat
    decreases |bs|
  {
    if bs == [] then 0 else BytesToNat(bs[..|bs| - 1]) * 256 + bs[|bs| - 1]
  }

  lemma {:induction false} NatToBytesInverse(n: nat)
    ensures BytesToNat(NatToBytes(n)) == n
    ensures NatToBytes(n) == [] <==> n == 0
    ensures NatToBytes(n) != [] ==> NatToBytes(n)[0] != 0
  {
    if n > 0 {
      var p := NatToBytes(n / 256);
      NatToBytesInverse(n / 256);
      var bs := p + [n % 256];
      assert bs[..|bs| - 1] == p;
      assert p == [] ==> n % 256 == n;
    }
  }

  lemma {:induction false} BytesToNatPositive(bs: seq<byte>)
    requires bs != [] && bs[0] != 0
    ensures BytesToNat(bs) > 0
  {
    if |bs| > 1 {
      BytesToNatPositive(bs[..|bs| - 1]);
    }
  }

  lemma {:induction false} BytesToNatInverse(bs: seq<byte>)
    requires bs == [] || bs[0] != 0
    ensures NatToBytes(BytesToNat(bs)) == bs
  {
    if bs != [] {
      var p := bs[..|bs| - 1];
      BytesToNatPositive(bs);
      assert p == [] || p[0] == bs[0];
      BytesToNatInverse(p);
      assert bs == p + [bs[|bs| - 1]];
    }
  }

  // ---------------------------------------------------------------------------
  // Length octets (X.690 8.1.3, 10.1)

  /** At most four subsequent length octets: content lengths below 2^32. */
  const MaxLengthOctets: nat := 4

  /** The definite length in its shortest form: one octet below 128,
      otherwise 0x80 + k followed by k big-endian octets without a leading
      zero. */
  function EncodeLength(n: nat): Result<seq<byte>, DerError>
  {
    if n < 128 then Ok([n])
    else
      var bs := NatToBytes(n);
      if |bs| > MaxLengthOctets then Err(TooLong) else Ok([128 + |bs|] + bs)
  }

  /** Reads definite length octets; the indefinite form (0x80), more than four
      subsequent octets, a leading zero octet and a long form for a length
      below 128 are all rejected. */
  function ParseLength(s: seq<byte>): (r: Parsed<nat>)
    ensures r.Ok? ==> Splits(s, EncodeLength(r.value.0), r.value.1)
    ensures r.Ok? ==> |r.value.1| < |s|
  {
    if s == [] then Err(Truncated)
    else if s[0] < 128 then Ok((s[0], s[1..]))
    else
      var k := s[0] - 128;
      if k == 0 || k > MaxLengthOctets then Err(BadLength)
      else if |s| < 1 + k then Err(Truncated)
      else
        var bs := s[1..1 + k];
        if bs[0] == 0 || BytesToNat(bs) < 128 then Err(BadLength)
        else
          BytesToNatInverse(bs);
          assert s == [s[0]] + bs + s[1 + k..];
          Ok((BytesToNat(bs), s[1 + k..]))
  }

  lemma ParseEncodedLength(n: nat, rest: seq<byte>)
    requires EncodeLength(n).Ok?
    ensures ParseLength(EncodeLength(n).value + rest) == Ok((n, rest))
  {
    var s := EncodeLength(n).value + rest;
    if n >= 128 {
      var bs := NatToBytes(n);
      NatToBytesInverse(n);
      assert s[1..1 + |bs|] == bs;
      assert s[1 + |bs|..] == rest;
    } else {
      assert s[1..] == rest;
    }
  }

  // ---------------------------------------------------------------------------
  // Type-length-value with a single-octet identifier

  /** The TLV of a value whose identifier octet is `tag`. */
  function EncodeTlv(tag: byte, content: seq<byte>): (r: Result<seq<byte>, DerError>)
    ensures r.Ok? ==> |r.value| >= 2 + |content| && r.value[0] == tag
  {
    var length :- EncodeLength(|content|);
    Ok([tag] + length + content)
  }

  /** An identifier octet, the length octets of n and n or more octets are
      a TLV followed by what is left over. */
  lemma TlvOfParts(tag: byte, s: seq<byte>, n: nat, afterLength: seq<byte>)
    requires s != [] && s[0] == tag && Splits(s[1..], EncodeLength(n), afterLength)
    requires n <= |afterLength|
    ensures Splits(s, EncodeTlv(tag, afterLength[..n]), afterLength[n..])
  {
    var content := afterLength[..n];
    assert afterLength == content + afterLength[n..];
    assert s == [tag] + s[1..];
  }

  /** Reads a TLV whose identifier octet must be `tag` and returns its content. */
  function ParseTlv(tag: byte, s: seq<byte>): (r: Parsed<seq<byte>>)
    ensures r.Ok? ==> Splits(s, EncodeTlv(tag, r.value.0), r.value.1)
    ensures r.Ok? ==> |r.value.1| < |s|
    ensures s != [] && s[0] != tag ==> r == Err(UnexpectedTag)
  {
    if s == [] then Err(Truncated)
    else if s[0] != tag then Err(UnexpectedTag)
    else
      var (n, afterLength) :- ParseLength(s[1..]);
      if |afterLength| < n then Err(Truncated)
      else
        TlvOfParts(tag, s, n, afterLength);
        Ok((afterLength[..n], afterLength[n..]))
  }

  lemma ParseEncodedTlv(tag: byte, content: seq<byte>, rest: seq<byte>)
    requires EncodeTlv(tag, content).Ok?
    ensures ParseTlv(tag, EncodeTlv(tag, content).value + rest) == Ok((content, rest))
  {
    var length := EncodeLength(|content|).value;
    var s := EncodeTlv(tag, content).value + rest;
    assert s[1..] == length + (content + rest);
    ParseEncodedLength(|content|, content + rest);
    assert (content + rest)[..|content|] == content;
    assert (content + rest)[|content|..] == rest;
  }

  // ---------------------------------------------------------------------------
  // Base-128 subidentifiers (OBJECT IDENTIFIER arcs, X.690 8.19.2, and high
  // tag numbers, 8.1.2.4.2)

  /** Base-128 digits of n, most significant first, bit 8 set on every octet
      but the last, with no leading 0x80 octet. */
  function Base128(n: nat): seq<byte>
    decreases n
  {
    if n < 128 then [n] else Base128Lead(n / 128) + [n % 128]
  }

  /** The leading octets: the digits of n, each with bit 8 set. */
  function Base128Lead(n: nat): seq<byte>
    decreases n
  {
    if n == 0 then [] else Base128Lead(n / 128) + [128 + n % 128]
  }

  function Base128Value(bs: seq<byte>): nat
    decreases |bs|
  {
    if bs == [] then 0 else Base128Value(bs[..|bs| - 1]) * 128 + bs[|bs| - 1] % 128
  }

  /** The leading octets of a minimal subidentifier. */
  predicate IsBase128Lead(bs: seq<byte>)
  {
    (bs == [] || bs[0] != 0x80) && forall i | 0 <= i < |bs| :: bs[i] >= 128
  }

  predicate IsSubidentifier(bs: seq<byte>)
  {
    bs != [] && IsBase128Lead(bs[..|bs| - 1]) && bs[|bs| - 1] < 128
  }

  /** Base128Value reads one more digit from the last octet. */
  lemma Base128ValueSnoc(p: seq<byte>, last: byte)
    ensures Base128Value(p + [last]) == Base128Value(p) * 128 + last % 128
  {
    assert (p + [last])[..|p|] == p;
  }

  lemma {:induction false} Base128LeadInverse(n: nat)
    ensures IsBase128Lead(Base128Lead(n)) && Base128Value(Base128Lead(n)) == n
    ensures Base128Lead(n) == [] <==> n == 0
  {
    if n > 0 {
      var q := n / 128;
      var d: byte := 128 + n % 128;
      var p := Base128Lead(q);
      Base128LeadInverse(q);
      var bs := p + [d];
      assert Base128Lead(n) == bs;
      Base128ValueSnoc(p, d);
      assert d % 128 == n % 128;
      assert Base128Value(bs) == q * 128 + n % 128;
      assert bs[0] != 0x80 by {
        if p == [] {
          assert q == 0 && bs[0] == d;
        } else {
          assert bs[0] == p[0];
        }
      }
      forall i | 0 <= i < |bs|
        ensures bs[i] >= 128
      {
        if i < |p| {
          assert bs[i] == p[i];
        }
      }
    }
  }

  lemma Base128Inverse(n: nat)
    ensures IsSubidentifier(Base128(n)) && Base128Value(Base128(n)) == n
  {
    if n >= 128 {
      var p := Base128Lead(n / 128);
      var bs := Base128(n);
      Base128LeadInverse(n / 128);
      assert bs == p + [n % 128];
      assert bs[..|bs| - 1] == p;
      Base128ValueSnoc(p, n % 128);
    }
  }

  /** Base128Lead writes one more digit as a last octet. */
  lemma Base128LeadSnoc(v: nat, last: byte)
    requires last >= 128 && (v > 0 || last != 0x80)
    ensures Base128Lead(v * 128 + last % 128) == Base128Lead(v) + [last]
  {
    var n := v * 128 + last % 128;
    assert n / 128 == v && n % 128 == last % 128;
    assert n > 0;
  }

  lemma {:induction false} Base128LeadValueInverse(bs: seq<byte>)
    requires IsBase128Lead(bs)
    ensures Base128Lead(Base128Value(bs)) == bs
    ensures bs != [] ==> Base128Value(bs) > 0
  {
    if bs != [] {
      var p := bs[..|bs| - 1];
      var last := bs[|bs| - 1];
      assert bs == p + [last];
      assert IsBase128Lead(p) by {
        assert p == [] || p[0] == bs[0];
        forall i | 0 <= i < |p|
          ensures p[i] >= 128
        {
          assert p[i] == bs[i];
        }
      }
      Base128LeadValueInverse(p);
      var v := Base128Value(p);
      assert v > 0 || last != 0x80 by {
        if p == [] {
          assert last == bs[0];
        }
      }
      Base128ValueSnoc(p, last);
      Base128LeadSnoc(v, last);
      assert Base128Value(bs) == v * 128 + last % 128;
    }
  }

  lemma Base128ValueInverse(bs: seq<byte>)
    requires IsSubidentifier(bs)
    ensures Base128(Base128Value(bs)) == bs
  {
    var p := bs[..|bs| - 1];
    var last := bs[|bs| - 1];
    assert bs == p + [last];
    Base128LeadValueInverse(p);
    Base128ValueSnoc(p, last);
    var v := Base128Value(p);
    var n := v * 128 + last;
    assert Base128Value(bs) == n;
    if p == [] {
      assert n == last;
    } else {
      assert n / 128 == v && n % 128 == last;
    }
  }

  /** The index of the first octet without bit 8. */
  function FinalOctet(s: seq<byte>): (r: Result<nat, DerError>)
    ensures r.Ok? ==> r.value < |s| && s[r.value] < 128
    ensures r.Ok? ==> forall i | 0 <= i < r.value :: s[i] >= 128
    ensures r.Err? ==> forall i | 0 <= i < |s| :: s[i] >= 128
  {
    if s == [] then Err(Truncated)
    else if s[0] < 128 then Ok(0)
    else
      var k :- FinalOctet(s[1..]);
      Ok(k + 1)
  }

  /** The octets up to the first one without bit 8 form a subidentifier. */
  lemma SubidentifierPrefix(s: seq<byte>, k: nat)
    requires k < |s| && s[0] != 0x80 && s[k] < 128
    requires forall i | 0 <= i < k :: s[i] >= 128
    ensures IsSubidentifier(s[..k + 1]) && s == s[..k + 1] + s[k + 1..]
  {
    var bs := s[..k + 1];
    var lead := bs[..|bs| - 1];
    assert lead == s[..k];
    assert forall i | 0 <= i < |lead| :: lead[i] == s[i];
  }

  /** Reads one subidentifier; a leading 0x80 octet is not minimal. */
  function ParseSubidentifier(s: seq<byte>): (r: Parsed<nat>)
    ensures r.Ok? ==> s == Base128(r.value.0) + r.value.1
    ensures r.Ok? ==> |r.value.1| < |s|
  {
    if s == [] then Err(Truncated)
    else if s[0] == 0x80 then Err(BadContent)
    else
      var k :- FinalOctet(s);
      var bs := s[..k + 1];
      SubidentifierPrefix(s, k);
      Base128ValueInverse(bs);
      Ok((Base128Value(bs), s[k + 1..]))
  }

  lemma ParseEncodedSubidentifier(n: nat, rest: seq<byte>)
    ensures ParseSubidentifier(Base128(n) + rest) == Ok((n, rest))
  {
    var bs := Base128(n);
    var s := bs + rest;
    Base128Inverse(n);
    assert forall i | 0 <= i < |bs| - 1 :: s[i] == bs[..|bs| - 1][i];
    assert s[|bs| - 1] < 128;
    assert |bs| > 1 ==> s[0] == bs[..|bs| - 1][0];
    var k := FinalOctet(s).value;
    assert k == |bs| - 1;
    assert s[..k + 1] == bs;
    assert s[k + 1..] == rest;
  }

  // ---------------------------------------------------------------------------
  // ANY: a complete TLV of any type, kept as its exact octets

  /** Identifier octets: one octet, or for tag numbers in the high-tag-number
      form (low five bits all ones) that octet followed by a subidentifier. */
  function ParseIdentifier(s: seq<byte>): (r: Parsed<seq<byte>>)
    ensures r.Ok? ==> r.value.0 != [] && s == r.value.0 + r.value.1
  {
    if s == [] then Err(Truncated)
    else if s[0] % 32 != 31 then Ok(([s[0]], s[1..]))
    else
      var (number, rest) :- ParseSubidentifier(s[1..]);
      if number < 31 then Err(BadContent)
      else Ok(([s[0]] + Base128(number), rest))
  }

  lemma ParseIdentifierPrefix(s: seq<byte>, t: seq<byte>)
    requires ParseIdentifier(s).Ok?
    ensures ParseIdentifier(ParseIdentifier(s).value.0 + t) == Ok((ParseIdentifier(s).value.0, t))
  {
    var id := ParseIdentifier(s).value.0;
    if s[0] % 32 == 31 {
      var number := ParseSubidentifier(s[1..]).value.0;
      assert (id + t)[1..] == Base128(number) + t;
      ParseEncodedSubidentifier(number, t);
    } else {
      assert (id + t)[1..] == t;
    }
  }

  /** DER writes tag numbers below 31 in one octet (X.690 8.1.2.2), so the
      high-tag-number form of such a number is refused. */
  lemma LowTagNumberInHighFormRejected(first: byte, number: nat, rest: seq<byte>)
    requires first % 32 == 31 && number < 31
    ensures ParseIdentifier([first] + Base128(number) + rest) == Err(BadContent)
  {
    var s := [first] + Base128(number) + rest;
    assert s[1..] == Base128(number) + rest;
    ParseEncodedSubidentifier(number, rest);
  }

  /** Reads a whole TLV without looking inside its content (ANY). */
  function ParseAny(s: seq<byte>): (r: Parsed<seq<byte>>)
    ensures r.Ok? ==> s == r.value.0 + r.value.1 && |r.value.0| >= 2
  {
    var (id, afterIdentifier) :- ParseIdentifier(s);
    var (n, afterLength) :- ParseLength(afterIdentifier);
    if |afterLength| < n then Err(Truncated)
    else
      var size := |s| - |afterLength| + n;
      Ok((s[..size], s[size..]))
  }

  /** `raw` is exactly one TLV, the form an ANY value takes. */
  predicate IsTlv(raw: seq<byte>)
  {
    ParseAny(raw) == Ok((raw, []))
  }

  /** The octets ParseAny returns: the identifier, the length octets as DER
      writes them and the content. */
  lemma ParseAnyParts(s: seq<byte>)
    requires ParseAny(s).Ok?
    ensures var (id, afterIdentifier) := ParseIdentifier(s).value;
      var (n, afterLength) := ParseLength(afterIdentifier).value;
      n <= |afterLength|
      && ParseAny(s).value.0 == id + (EncodeLength(n).value + afterLength[..n])
  {
    var (id, afterIdentifier) := ParseIdentifier(s).value;
    var (n, afterLength) := ParseLength(afterIdentifier).value;
    var length := EncodeLength(n).value;
    assert s == id + (length + afterLength);
    var size := |s| - |afterLength| + n;
    assert size == |id| + |length| + n;
    assert s[..size] == id + (length + afterLength[..n]);
  }

  /** What ParseAny reads depends only on the octets it returns. */
  lemma ParseAnyPrefix(s: seq<byte>, t: seq<byte>)
    requires ParseAny(s).Ok?
    ensures ParseAny(ParseAny(s).value.0 + t) == Ok((ParseAny(s).value.0, t))
  {
    var raw := ParseAny(s).value.0;
    var (id, afterIdentifier) := ParseIdentifier(s).value;
    var (n, afterLength) := ParseLength(afterIdentifier).value;
    var length := EncodeLength(n).value;
    var content := afterLength[..n];
    ParseAnyParts(s);
    var x := length + (content + t);
    assert raw + t == id + x;
    ParseIdentifierPrefix(s, x);
    ParseEncodedLength(n, content + t);
    assert |raw + t| - |content + t| + n == |raw|;
    assert (raw + t)[..|raw|] == raw;
    assert (raw + t)[|raw|..] == t;
  }

  lemma ParsedAnyIsTlv(s: seq<byte>)
    requires ParseAny(s).Ok?
    ensures IsTlv(ParseAny(s).value.0)
  {
    ParseAnyPrefix(s, []);
    assert ParseAny(s).value.0 + [] == ParseAny(s).value.0;
  }

  lemma ParseEncodedAny(raw: seq<byte>, rest: seq<byte>)
    requires IsTlv(raw)
    ensures ParseAny(raw + rest) == Ok((raw, rest))
  {
    ParseAnyPrefix(raw, rest);
  }

  /** A TLV written by EncodeTlv reads back whole as an ANY value. */
  lemma ParseAnyEncodedTlv(tag: byte, content: seq<byte>, rest: seq<byte>)
    requires tag % 32 != 31 && EncodeTlv(tag, content).Ok?
    ensures IsTlv(EncodeTlv(tag, content).value)
    ensures ParseAny(EncodeTlv(tag, content).value + rest) == Ok((EncodeTlv(tag, content).value, rest))
  {
    var length := EncodeLength(|content|).value;
    var tlv := EncodeTlv(tag, content).value;
    var s := tlv + rest;
    assert s[1..] == length + (content + rest);
    ParseEncodedLength(|content|, content + rest);
    assert s[..|tlv|] == tlv;
    assert s[|tlv|..] == rest;
    ParseAnyPrefix(s, []);
    assert tlv + [] == tlv;
  }

  // ---------------------------------------------------------------------------
  // BOOLEAN (X.690 8.2, 11.1: TRUE is 0xFF)

  function EncodeBoolean(b: bool): Result<seq<byte>, DerError>
  {
    EncodeTlv(TagBoolean, [if b then 0xFF else 0x00])
  }

  function ParseBoolean(s: seq<byte>): (r: Parsed<bool>)
    ensures r.Ok? ==> Splits(s, EncodeBoolean(r.value.0), r.value.1)
    ensures r.Ok? ==> |r.value.1| < |s|
  {
    var (content, rest) :- ParseTlv(TagBoolean, s);
    if content == [0xFF] then Ok((true, rest))
    else if content == [0x00] then Ok((false, rest))
    else Err(BadContent)
  }

  lemma ParseEncodedBoolean(b: bool, rest: seq<byte>)
    ensures EncodeBoolean(b).Ok?
    ensures ParseBoolean(EncodeBoolean(b).value + rest) == Ok((b, rest))
  {
    ParseEncodedTlv(TagBoolean, [if b then 0xFF else 0x00], rest);
  }

  // ---------------------------------------------------------------------------
  // INTEGER (X.690 8.3: minimal two's complement, arbitrary precision)

  /** The shortest two's-complement octets of i. */
  function IntegerContent(i: int): seq<byte>
    decreases if i < 0 then -i else i
  {
    if -128 <= i < 128 then [i % 256] else IntegerContent(i / 256) + [i % 256]
  }

  function TwosComplementValue(bs: seq<byte>): int
    requires bs != []
    decreases |bs|
  {
    if |bs| == 1 then (if bs[0] < 128 then bs[0] else bs[0] - 256)
    else TwosComplementValue(bs[..|bs| - 1]) * 256 + bs[|bs| - 1]
  }

  /** X.690 8.3.2: the first nine bits are neither all zeros nor all ones. */
  predicate MinimalInteger(bs: seq<byte>)
  {
    bs != [] &&
    (|bs| >= 2 ==> !(bs[0] == 0x00 && bs[1] < 128) && !(bs[0] == 0xFF && bs[1] >= 128))
  }

  lemma {:induction false} IntegerContentInverse(i: int)
    ensures MinimalInteger(IntegerContent(i))
    ensures TwosComplementValue(IntegerContent(i)) == i
    decreases if i < 0 then -i else i
  {
    if !(-128 <= i < 128) {
      var j := i / 256;
      var p := IntegerContent(j);
      IntegerContentInverse(j);
      var bs := p + [i % 256];
      assert bs[..|bs| - 1] == p;
      if |p| == 1 {
        assert -128 <= j < 128;
        assert p[0] == 0 ==> j == 0;
        assert p[0] == 255 ==> j == -1;
      }
    }
  }

  /** A minimal encoding of two or more octets holds a value outside one octet. */
  lemma {:induction false} MinimalIntegerRange(bs: seq<byte>)
    requires MinimalInteger(bs) && |bs| >= 2
    ensures !(-128 <= TwosComplementValue(bs) < 128)
  {
    var p := bs[..|bs| - 1];
    if |p| >= 2 {
      assert MinimalInteger(p) by {
        assert p[0] == bs[0] && p[1] == bs[1];
      }
      MinimalIntegerRange(p);
    }
  }

  /** TwosComplementValue reads one more octet from the end. */
  lemma TwosComplementSnoc(p: seq<byte>, last: byte)
    requires p != []
    ensures TwosComplementValue(p + [last]) == TwosComplementValue(p) * 256 + last
  {
    assert (p + [last])[..|p|] == p;
  }

  lemma {:induction false} TwosComplementInverse(bs: seq<byte>)
    requires MinimalInteger(bs)
    ensures IntegerContent(TwosComplementValue(bs)) == bs
  {
    if |bs| >= 2 {
      var p := bs[..|bs| - 1];
      var last := bs[|bs| - 1];
      assert bs == p + [last];
      assert MinimalInteger(p) by {
        if |p| >= 2 {
          assert p[0] == bs[0] && p[1] == bs[1];
        }
      }
      TwosComplementInverse(p);
      TwosComplementSnoc(p, last);
      var v := TwosComplementValue(p);
      var i := v * 256 + last;
      assert TwosComplementValue(bs) == i;
      MinimalIntegerRange(bs);
      assert i / 256 == v && i % 256 == last;
      assert IntegerContent(i) == IntegerContent(v) + [last];
    }
  }

  function EncodeInteger(i: int): Result<seq<byte>, DerError>
  {
    EncodeTlv(TagInteger, IntegerContent(i))
  }

  /** Reads an INTEGER; empty or non-minimal content is rejected. */
  function ParseInteger(s: seq<byte>): (r: Parsed<int>)
    ensures r.Ok? ==> Splits(s, EncodeInteger(r.value.0), r.value.1)
    ensures r.Ok? ==> |r.value.1| < |s|
  {
    var (content, rest) :- ParseTlv(TagInteger, s);
    if !MinimalInteger(content) then Err(BadContent)
    else
      TwosComplementInverse(content);
      Ok((TwosComplementValue(content), rest))
  }

  lemma ParseEncodedInteger(i: int, rest: seq<byte>)
    requires EncodeInteger(i).Ok?
    ensures ParseInteger(EncodeInteger(i).value + rest) == Ok((i, rest))
  {
    IntegerContentInverse(i);
    ParseEncodedTlv(TagInteger, IntegerContent(i), rest);
  }

  // ---------------------------------------------------------------------------
  // BIT STRING (X.690 8.6): the count of unused bits and the octets

  datatype BitString = BitString(unused: nat, data: seq<byte>)

  /** X.690 8.6.2.2 and 8.6.2.3: at most seven unused bits, none when empty. */
  /** 2 to the power `n`: the modulus the unused bits of a last octet form. */
  function Pow2(n: nat): (r: nat)
    ensures r >= 1
  {
    if n == 0 then 1 else 2 * Pow2(n - 1)
  }

  /** X.690 8.6.2.2 bounds the unused count; X.690 11.2.1 makes the unused
      bits of the last octet zero in DER. */
  predicate ValidBitString(b: BitString)
  {
    && b.unused <= 7
    && (b.data == [] ==> b.unused == 0)
    && (b.data != [] ==> b.data[|b.data| - 1] % Pow2(b.unused) == 0)
  }

  function EncodeBitString(b: BitString): Result<seq<byte>, DerError>
    requires ValidBitString(b)
  {
    EncodeTlv(TagBitString, [b.unused] + b.data)
  }

  function ParseBitString(s: seq<byte>): (r: Parsed<BitString>)
    ensures r.Ok? ==> ValidBitString(r.value.0)
    ensures r.Ok? ==> Splits(s, EncodeBitString(r.value.0), r.value.1)
    ensures r.Ok? ==> |r.value.1| < |s|
  {
    var (content, rest) :- ParseTlv(TagBitString, s);
    if content == [] || content[0] > 7 || (|content| == 1 && content[0] != 0) then Err(BadContent)
    else if |content| > 1 && content[|content| - 1] % Pow2(content[0]) != 0 then Err(BadContent)
    else
      assert content == [content[0]] + content[1..];
      Ok((BitString(content[0], content[1..]), rest))
  }

  /** A last octet whose unused bits are not all zero is refused (X.690 11.2.1). */
  lemma NonzeroUnusedBitsRejected(unused: byte, data: seq<byte>, rest: seq<byte>)
    requires data != [] && data[|data| - 1] % Pow2(unused) != 0
    requires EncodeTlv(TagBitString, [unused] + data).Ok?
    ensures ParseBitString(EncodeTlv(TagBitString, [unused] + data).value + rest) == Err(BadContent)
  {
    var content := [unused] + data;
    ParseEncodedTlv(TagBitString, content, rest);
    assert content[|content| - 1] == data[|data| - 1];
  }

  lemma ParseEncodedBitString(b: BitString, rest: seq<byte>)
    requires ValidBitString(b) && EncodeBitString(b).Ok?
    ensures ParseBitString(EncodeBitString(b).value + rest) == Ok((b, rest))
  {
    ParseEncodedTlv(TagBitString, [b.unused] + b.data, rest);
    assert ([b.unused] + b.data)[1..] == b.data;
  }

  // ---------------------------------------------------------------------------
  // OCTET STRING (X.690 8.7): the octets themselves

  function EncodeOctetString(v: seq<byte>): Result<seq<byte>, DerError>
  {
    EncodeTlv(TagOctetString, v)
  }

  function ParseOctetString(s: seq<byte>): (r: Parsed<seq<byte>>)
    ensures r.Ok? ==> Splits(s, EncodeOctetString(r.value.0), r.value.1)
    ensures r.Ok? ==> |r.value.1| < |s|
  {
    ParseTlv(TagOctetString, s)
  }

  lemma ParseEncodedOctetString(v: seq<byte>, rest: seq<byte>)
    requires EncodeOctetString(v).Ok?
    ensures ParseOctetString(EncodeOctetString(v).value + rest) == Ok((v, rest))
  {
    ParseEncodedTlv(TagOctetString, v, rest);
  }

  // ---------------------------------------------------------------------------
  // OBJECT IDENTIFIER (X.690 8.19): arcs as a sequence of naturals

  function EncodeSubidentifiers(ns: seq<nat>): seq<byte>
  {
    if ns == [] then [] else Base128(ns[0]) + EncodeSubidentifiers(ns[1..])
  }

  function ParseSubidentifiers(c: seq<byte>): (r: Result<seq<nat>, DerError>)
    ensures r.Ok? ==> EncodeSubidentifiers(r.value) == c
    decreases |c|
  {
    if c == [] then Ok([])
    else
      var (n, rest) :- ParseSubidentifier(c);
      var ns :- ParseSubidentifiers(rest);
      assert ([n] + ns)[1..] == ns;
      Ok([n] + ns)
  }

  lemma {:induction false} ParseEncodedSubidentifiers(ns: seq<nat>)
    ensures ParseSubidentifiers(EncodeSubidentifiers(ns)) == Ok(ns)
  {
    if ns != [] {
      ParseEncodedSubidentifier(ns[0], EncodeSubidentifiers(ns[1..]));
      ParseEncodedSubidentifiers(ns[1..]);
      assert [ns[0]] + ns[1..] == ns;
    }
  }

  /** X.690 8.19.4: the first two arcs share one subidentifier, so the first
      arc is 0, 1 or 2 and under 2 the second stays below 40. */
  predicate ValidOid(arcs: seq<nat>)
  {
    |arcs| >= 2 && arcs[0] <= 2 && (arcs[0] < 2 ==> arcs[1] < 40)
  }

  function OidContent(arcs: seq<nat>): seq<byte>
    requires ValidOid(arcs)
  {
    EncodeSubidentifiers([40 * arcs[0] + arcs[1]] + arcs[2..])
  }

  function EncodeOid(arcs: seq<nat>): Result<seq<byte>, DerError>
    requires ValidOid(arcs)
  {
    EncodeTlv(TagObjectIdentifier, OidContent(arcs))
  }

  /** Splits the first subidentifier into the first two arcs (X.690 8.19.4). */
  function ParseOidContent(c: seq<byte>): (r: Result<seq<nat>, DerError>)
    ensures r.Ok? ==> ValidOid(r.value) && OidContent(r.value) == c
  {
    var ns :- ParseSubidentifiers(c);
    if ns == [] then Err(BadContent)
    else
      var first := if ns[0] < 80 then ns[0] / 40 else 2;
      var arcs := [first, ns[0] - 40 * first] + ns[1..];
      assert arcs[2..] == ns[1..];
      assert [ns[0]] + ns[1..] == ns;
      Ok(arcs)
  }

  function ParseOid(s: seq<byte>): (r: Parsed<seq<nat>>)
    ensures r.Ok? ==> ValidOid(r.value.0) && Splits(s, EncodeOid(r.value.0), r.value.1)
    ensures r.Ok? ==> |r.value.1| < |s|
  {
    var (content, rest) :- ParseTlv(TagObjectIdentifier, s);
    var arcs :- ParseOidContent(content);
    Ok((arcs, rest))
  }

  /** The first subidentifier 40 * x + y gives back x and y. */
  lemma FirstSubidentifierSplit(x: nat, y: nat)
    requires x <= 2 && (x < 2 ==> y < 40)
    ensures var n := 40 * x + y;
      var first := if n < 80 then n / 40 else 2;
      first == x && n - 40 * first == y
  {
  }

  lemma ParseEncodedOidContent(arcs: seq<nat>)
    requires ValidOid(arcs)
    ensures ParseOidContent(OidContent(arcs)) == Ok(arcs)
  {
    var ns := [40 * arcs[0] + arcs[1]] + arcs[2..];
    ParseEncodedSubidentifiers(ns);
    FirstSubidentifierSplit(arcs[0], arcs[1]);
    assert ns[1..] == arcs[2..];
    assert [arcs[0], arcs[1]] + arcs[2..] == arcs;
  }

  lemma ParseEncodedOid(arcs: seq<nat>, rest: seq<byte>)
    requires ValidOid(arcs) && EncodeOid(arcs).Ok?
    ensures ParseOid(EncodeOid(arcs).value + rest) == Ok((arcs, rest))
  {
    ParseEncodedTlv(TagObjectIdentifier, OidContent(arcs), rest);
    ParseEncodedOidContent(arcs);
  }
}
