/** `verifyWebhook`: the signature header is `<algorithm>=<hex digest>`,
    and the request is authentic when the HMAC of message id, timestamp and
    body under one of the candidate keys equals that digest. */
module Signature {
  import opened Base
  import opened Headers
  import Hex

  /** The hash behind the HMAC; `Sha384` is Go's `sha512.New384`. */
  datatype HashAlg = Sha1 | Sha256 | Sha384 | Sha512

  /** `hmac.New(hasher, key)`, written `msg`, then `Sum(nil)`. The HMAC and
      SHA internals are not modelled: every property below holds for any
      such function. */
  type MacFn = (HashAlg, Bytes, Bytes) -> Bytes

  /** The byte `=`. */
  const EQUALS: Byte := 0x3D

  /** `strings.SplitN(s, sep, 2)` when it yields two parts: the text before
      the first `sep` and the text after it. */
  function SplitAtFirst(s: Bytes, sep: Byte): (r: Option<(Bytes, Bytes)>)
    ensures r.None? <==> sep !in s
    ensures r.Some? ==> s == r.value.0 + [sep] + r.value.1 && sep !in r.value.0
    decreases |s|
  {
    if |s| == 0 then None
    else if s[0] == sep then Some(([], s[1..]))
    else
      match SplitAtFirst(s[1..], sep)
      case None => None
      case Some((before, after)) =>
        assert s == [s[0]] + s[1..];
        Some(([s[0]] + before, after))
  }

  /** The split is the only one whose first part holds no separator. */
  lemma {:induction false} SplitAtFirstUnique(a: Bytes, b: Bytes, sep: Byte)
    requires sep !in a
    ensures SplitAtFirst(a + [sep] + b, sep) == Some((a, b))
    decreases |a|
  {
    if |a| > 0 {
      assert (a + [sep] + b)[1..] == a[1..] + [sep] + b;
      SplitAtFirstUnique(a[1..], b, sep);
      assert [a[0]] + a[1..] == a;
    }
  }

  /** The name under which each algorithm appears in the header. */
  function AlgName(alg: HashAlg): string
  {
    match alg
    case Sha1 => "sha1"
    case Sha256 => "sha256"
    case Sha384 => "sha384"
    case Sha512 => "sha512"
  }

  /** The bytes of an algorithm's name. */
  function AlgBytes(alg: HashAlg): Bytes
  {
    AsciiBytes(AlgName(alg))
  }

  /** `AlgBytes` is Go's `[]byte` of the name. */
  lemma AlgBytesText(alg: HashAlg)
    ensures AlgBytes(alg) == Utf8(AlgName(alg))
  {
    AsciiBytesUtf8(AlgName(alg));
  }

  /** The `switch method` of `verifyWebhook`: exactly the four names, in
      lower case, select an algorithm. */
  function SelectAlgorithm(name: Bytes): (r: Option<HashAlg>)
    ensures r.Some? ==> name == AlgBytes(r.value)
    ensures r.None? ==> forall alg: HashAlg :: name != AlgBytes(alg)
  {
    if name == AlgBytes(Sha1) then Some(Sha1)
    else if name == AlgBytes(Sha256) then Some(Sha256)
    else if name == AlgBytes(Sha384) then Some(Sha384)
    else if name == AlgBytes(Sha512) then Some(Sha512)
    else None
  }

  /** Each algorithm's own name selects it. */
  lemma SelectAlgName(alg: HashAlg)
    ensures SelectAlgorithm(AlgBytes(alg)) == Some(alg)
  {
    AlgNamesDistinct();
  }

  lemma AlgNamesDistinct()
    ensures forall a: HashAlg, b: HashAlg :: a != b ==> AlgBytes(a) != AlgBytes(b)
  {
    assert |AlgBytes(Sha1)| == 4 && |AlgBytes(Sha256)| == 6;
    assert AlgBytes(Sha256)[3] != AlgBytes(Sha384)[3] && AlgBytes(Sha256)[3] != AlgBytes(Sha512)[3];
    assert AlgBytes(Sha384)[3] != AlgBytes(Sha512)[3];
  }

  /** What a signature header names once it parses: the algorithm, the
      digest it claims, and the bytes the HMAC is taken over. */
  datatype SignedMessage = SignedMessage(alg: HashAlg, digest: Bytes, message: Bytes)

  /** Everything in `verifyWebhook` before the key loop, in the order the
      source checks it: one signature header, an `=` in it, a valid hex
      digest after it, a known algorithm before it, one timestamp header
      and one message-id header. The HMAC covers id, timestamp and body,
      in that order, with nothing between them. */
  function ParseSignedMessage(h: Headers, body: Bytes): (r: Option<SignedMessage>)
    ensures r.Some? ==>
              && GetCoolHeader(h, SIGNATURE_HEADER).Success?
              && GetCoolHeader(h, TIMESTAMP_HEADER).Success?
              && GetCoolHeader(h, ID_HEADER).Success?
              && r.value.message == GetCoolHeader(h, ID_HEADER).value + GetCoolHeader(h, TIMESTAMP_HEADER).value + body
    ensures r.Some? ==>
              var split := SplitAtFirst(GetCoolHeader(h, SIGNATURE_HEADER).value, EQUALS);
              && split.Some? && split.value.0 == AlgBytes(r.value.alg)
              && Hex.Decode(split.value.1) == Some(r.value.digest)
  {
    match GetCoolHeader(h, SIGNATURE_HEADER)
    case Failure(_) => None
    case Success(signatures) =>
      match SplitAtFirst(signatures, EQUALS)
      case None => None
      case Some((algName, hexSignature)) =>
        match Hex.Decode(hexSignature)
        case None => None
        case Some(signature) =>
          match SelectAlgorithm(algName)
          case None => None
          case Some(alg) =>
            match GetCoolHeader(h, TIMESTAMP_HEADER)
            case Failure(_) => None
            case Success(timestamp) =>
              match GetCoolHeader(h, ID_HEADER)
              case Failure(_) => None
              case Success(msgId) => Some(SignedMessage(alg, signature, msgId + timestamp + body))
  }

  /** Some candidate key reproduces the claimed digest. */
  predicate MatchesSomeKey(m: SignedMessage, keys: seq<Bytes>, mac: MacFn)
  {
    exists k :: k in keys && mac(m.alg, k, m.message) == m.digest
  }

  /** The verdict of `verifyWebhook`. */
  predicate Verified(h: Headers, body: Bytes, keys: seq<Bytes>, mac: MacFn)
    ensures Verified(h, body, keys, mac) ==> |keys| > 0 && ParseSignedMessage(h, body).Some?
  {
    match ParseSignedMessage(h, body)
    case None => false
    case Some(m) => MatchesSomeKey(m, keys, mac)
  }

  /** `verifyWebhook(r, requestBody, hmacKeys)`: the checks of the signature
      header, then the keys tried in order until one matches. */
  method VerifyWebhook(h: Headers, body: Bytes, keys: seq<Bytes>, mac: MacFn) returns (ok: bool)
    ensures ok == Verified(h, body, keys, mac)
  {
    var signatures := GetCoolHeader(h, SIGNATURE_HEADER);
    if signatures.Failure? {
      return false;
    }
    var split := SplitAtFirst(signatures.value, EQUALS);
    if split.None? {
      return false;  // malformed signature
    }
    var (algName, hexSignature) := split.value;
    var signature := Hex.Decode(hexSignature);
    if signature.None? {
      return false;  // could not decode hex
    }
    var alg := SelectAlgorithm(algName);
    if alg.None? {
      return false;  // unknown signature algorithm
    }
    var timestamp := GetCoolHeader(h, TIMESTAMP_HEADER);
    if timestamp.Failure? {
      return false;
    }
    var msgId := GetCoolHeader(h, ID_HEADER);
    if msgId.Failure? {
      return false;
    }
    var message := msgId.value + timestamp.value + body;
    assert ParseSignedMessage(h, body) == Some(SignedMessage(alg.value, signature.value, message));
    ok := MatchKeys(alg.value, keys, message, signature.value, mac);
  }

  /** The `for _, hmacKey := range hmacKeys` loop: the first key whose HMAC
      of `message` equals `signature` ends it with true. */
  method MatchKeys(alg: HashAlg, keys: seq<Bytes>, message: Bytes, signature: Bytes, mac: MacFn)
    returns (ok: bool)
    ensures ok == MatchesSomeKey(SignedMessage(alg, signature, message), keys, mac)
  {
    for i := 0 to |keys|
      invariant forall j :: 0 <= j < i ==> mac(alg, keys[j], message) != signature
    {
      var expectedMac := mac(alg, keys[i], message);
      if expectedMac == signature {
        assert keys[i] in keys;
        return true;
      }
    }
    assert forall k :: k in keys ==> mac(alg, k, message) != signature;
    return false;
  }

  /** The converse of `ParseSignedMessage`'s contract: when every check
      passes, the message is parsed, with the named algorithm, the decoded
      digest and id ++ timestamp ++ body. */
  lemma ParseSignedMessageComplete(h: Headers, body: Bytes, alg: HashAlg, digest: Bytes)
    requires GetCoolHeader(h, SIGNATURE_HEADER).Success?
    requires GetCoolHeader(h, TIMESTAMP_HEADER).Success?
    requires GetCoolHeader(h, ID_HEADER).Success?
    requires var split := SplitAtFirst(GetCoolHeader(h, SIGNATURE_HEADER).value, EQUALS);
      && split.Some? && split.value.0 == AlgBytes(alg)
      && Hex.Decode(split.value.1) == Some(digest)
    ensures ParseSignedMessage(h, body) ==
              Some(SignedMessage(alg, digest,
                GetCoolHeader(h, ID_HEADER).value + GetCoolHeader(h, TIMESTAMP_HEADER).value + body))
  {
    SelectAlgName(alg);
  }

  /** A request whose headers are well formed and whose hex text, in any
      mix of upper- and lower-case digits, decodes to the HMAC under one of
      the keys verifies. */
  lemma SignedRequestVerifies(h: Headers, body: Bytes, keys: seq<Bytes>, mac: MacFn,
                              alg: HashAlg, key: Bytes, msgId: Bytes, timestamp: Bytes, hexText: Bytes)
    requires Hex.Decode(hexText) == Some(mac(alg, key, msgId + timestamp + body))
    requires key in keys
    requires TIMESTAMP_HEADER in h && h[TIMESTAMP_HEADER] == [timestamp]
    requires ID_HEADER in h && h[ID_HEADER] == [msgId]
    requires SIGNATURE_HEADER in h
    requires h[SIGNATURE_HEADER] == [Utf8(AlgName(alg)) + [EQUALS] + hexText]
    ensures Verified(h, body, keys, mac)
  {
    var name := Utf8(AlgName(alg));
    AlgBytesText(alg);
    assert EQUALS !in name;
    SplitAtFirstUnique(name, hexText, EQUALS);
    ParseSignedMessageComplete(h, body, alg, mac(alg, key, msgId + timestamp + body));
  }

  /** In particular the lower-case text `hex.EncodeToString` writes, or its
      upper-case form, verifies. */
  lemma SignedRequestVerifiesInCase(h: Headers, body: Bytes, keys: seq<Bytes>, mac: MacFn,
                                    alg: HashAlg, key: Bytes, msgId: Bytes, timestamp: Bytes, alphabet: Bytes)
    requires alphabet == Hex.LOWER || alphabet == Hex.UPPER
    requires key in keys
    requires TIMESTAMP_HEADER in h && h[TIMESTAMP_HEADER] == [timestamp]
    requires ID_HEADER in h && h[ID_HEADER] == [msgId]
    requires SIGNATURE_HEADER in h
    requires h[SIGNATURE_HEADER] ==
               [Utf8(AlgName(alg)) + [EQUALS] + Hex.Encode(mac(alg, key, msgId + timestamp + body), alphabet)]
    ensures Verified(h, body, keys, mac)
  {
    var digest := mac(alg, key, msgId + timestamp + body);
    Hex.DecodeEncode(digest, alphabet);
    SignedRequestVerifies(h, body, keys, mac, alg, key, msgId, timestamp, Hex.Encode(digest, alphabet));
  }

  /** With no candidate keys nothing verifies. */
  lemma NoKeysRejected(h: Headers, body: Bytes, mac: MacFn)
    ensures !Verified(h, body, [], mac)
  {
  }

  /** A signature header without `=` is rejected. */
  lemma NoSeparatorRejected(h: Headers, body: Bytes, keys: seq<Bytes>, mac: MacFn)
    requires GetCoolHeader(h, SIGNATURE_HEADER).Success?
    requires EQUALS !in GetCoolHeader(h, SIGNATURE_HEADER).value
    ensures !Verified(h, body, keys, mac)
  {
  }

  /** A digest that is not hexadecimal text of even length is rejected. */
  lemma BadHexRejected(h: Headers, body: Bytes, keys: seq<Bytes>, mac: MacFn, algName: Bytes, hexSignature: Bytes)
    requires GetCoolHeader(h, SIGNATURE_HEADER) == Success(algName + [EQUALS] + hexSignature)
    requires EQUALS !in algName
    requires !Hex.WellFormed(hexSignature)
    ensures !Verified(h, body, keys, mac)
  {
    SplitAtFirstUnique(algName, hexSignature, EQUALS);
  }

  /** A name before the `=` other than `sha1`, `sha256`, `sha384` and
      `sha512` is rejected. */
  lemma UnknownAlgorithmRejected(h: Headers, body: Bytes, keys: seq<Bytes>, mac: MacFn, algName: Bytes, hexSignature: Bytes)
    requires GetCoolHeader(h, SIGNATURE_HEADER) == Success(algName + [EQUALS] + hexSignature)
    requires EQUALS !in algName
    requires algName != AsciiBytes("sha1") && algName != AsciiBytes("sha256")
    requires algName != AsciiBytes("sha384") && algName != AsciiBytes("sha512")
    ensures !Verified(h, body, keys, mac)
  {
    SplitAtFirstUnique(algName, hexSignature, EQUALS);
  }

  /** A missing or repeated signature, timestamp or id header is rejected. */
  lemma MissingHeaderRejected(h: Headers, body: Bytes, keys: seq<Bytes>, mac: MacFn)
    requires GetCoolHeader(h, SIGNATURE_HEADER).Failure? ||
             GetCoolHeader(h, TIMESTAMP_HEADER).Failure? ||
             GetCoolHeader(h, ID_HEADER).Failure?
    ensures !Verified(h, body, keys, mac)
  {
  }

  /** The verdict does not depend on the order of the candidate keys, nor
      on repeats among them. */
  lemma KeyOrderIrrelevant(h: Headers, body: Bytes, keys: seq<Bytes>, others: seq<Bytes>, mac: MacFn)
    requires forall k :: k in keys <==> k in others
    ensures Verified(h, body, keys, mac) == Verified(h, body, others, mac)
  {
  }

  /** In particular a permutation of the keys gives the same verdict. */
  lemma KeyPermutationIrrelevant(h: Headers, body: Bytes, keys: seq<Bytes>, others: seq<Bytes>, mac: MacFn)
    requires multiset(keys) == multiset(others)
    ensures Verified(h, body, keys, mac) == Verified(h, body, others, mac)
  {
    forall k ensures k in keys <==> k in others {
      assert k in keys <==> k in multiset(keys);
      assert k in others <==> k in multiset(others);
    }
    KeyOrderIrrelevant(h, body, keys, others, mac);
  }
}
