/** The compact token codec `JWT` (JWT.java): a registry of signing
    algorithms built once from the key provider, `encode`, which writes
    `BASE64URL(header) "." BASE64URL(payload) "." BASE64URL(signature)` as
    section 7.1 of RFC 7515 lays out, and `decode`, which splits a token,
    parses its header and payload and, unless told not to, checks the
    signature over the first two segments exactly as they appear in the
    token (the signing input of section 5.1 of RFC 7515). */
module Jwt {
  import opened Wrappers
  import opened Strings
  import Json
  import Base64Url
  import opened Signing

  /** The failures the codec reports; JWT.java throws a
      `RuntimeException` (or lets one through) for each. */
  datatype Error =
    | SegmentCount                 // "Not enough or too many segments"
    | MalformedBase64              // a header or payload segment the decoder rejects
    | MalformedJson                // decoded text that is not a JSON object
    | AlgNotString                 // a header `alg` that is neither a string nor null
    | AlgorithmNotSupported        // "Algorithm not supported"
    | SignatureVerificationFailed  // "Signature verification failed"

  /** The platform services the codec calls into: the default charset and
      the JSON encoder and parser. */
  datatype Platform = Platform(charset: Charset, json: Json.Codec)

  /** The algorithms the registry tries, by family. */
  const MacAlgorithms: set<string> := {"HS256", "HS384", "HS512"}
  const SignatureAlgorithm: string := "RS256"

  /** The variant the registry keeps for `alg`, when the provider has the
      engine for it. */
  function Provided(security: Security, alg: string): Option<Crypto> {
    if alg in MacAlgorithms then
      match security.getMac(alg)
      case None => None
      case Some(m) => Some(CryptoMac(m))
    else if alg == SignatureAlgorithm then
      match security.getSignature(alg)
      case None => None
      case Some(s) => Some(CryptoSignature(s))
    else None
  }

  /** What the constructor leaves in the map: the HMAC algorithms with a
      MAC engine and RS256 with a signature engine, each present exactly
      when the provider could hand out its engine. */
  function Registry(security: Security): (m: map<string, Crypto>)
    ensures m.Keys <= MacAlgorithms + {SignatureAlgorithm}
    ensures forall alg :: alg in MacAlgorithms ==> (alg in m <==> security.getMac(alg).Some?)
    ensures forall alg :: alg in MacAlgorithms && alg in m ==> m[alg] == CryptoMac(security.getMac(alg).value)
    ensures SignatureAlgorithm in m <==> security.getSignature(SignatureAlgorithm).Some?
    ensures SignatureAlgorithm in m ==> m[SignatureAlgorithm] == CryptoSignature(security.getSignature(SignatureAlgorithm).value)
  {
    map alg | alg in MacAlgorithms + {SignatureAlgorithm} && Provided(security, alg).Some? :: Provided(security, alg).value
  }

  /** The header `encode` writes: `typ` fixed to `JWT`, `alg` the name of
      the algorithm. */
  function Header(algorithm: string): (h: Json.Object)
    ensures Json.GetString(h, "typ") == Json.Text("JWT")
    ensures Json.GetString(h, "alg") == Json.Text(algorithm)
    ensures h.Keys == {"typ", "alg"}
  {
    Json.PutString(Json.PutString(map[], "typ", "JWT"), "alg", algorithm)
  }

  /** `base64urlEncode(o.encode())`: a segment for a JSON object. */
  function EncodeSegment(p: Platform, o: Json.Object): (s: string)
    ensures '.' !in s
  {
    Base64Url.EncodeText(p.charset, p.json.encode(o))
  }

  /** `new JsonObject(base64urlDecode(segment))`: the JSON object a segment
      holds. */
  function ParseSegment(p: Platform, segment: string): (r: Result<Json.Object, Error>)
    ensures r == Failure(MalformedBase64) <==> Base64Url.DecodeText(p.charset, segment).None?
    ensures r.Success? ==> p.json.parse(Base64Url.DecodeText(p.charset, segment).value) == Some(r.value)
    ensures r == Failure(MalformedJson) <==>
      Base64Url.DecodeText(p.charset, segment).Some? && p.json.parse(Base64Url.DecodeText(p.charset, segment).value).None?
    ensures r.Failure? ==> r.error == MalformedBase64 || r.error == MalformedJson
  {
    match Base64Url.DecodeText(p.charset, segment)
    case None => Failure(MalformedBase64)
    case Some(text) =>
      match p.json.parse(text)
      case None => Failure(MalformedJson)
      case Some(o) => Success(o)
  }

  /** A segment written for an object reads back as that object, when the
      JSON codec and the charset both carry it without loss. */
  lemma ParseEncodedSegment(p: Platform, o: Json.Object)
    requires Json.RoundTrips(p.json, o)
    requires Lossless(p.charset, p.json.encode(o))
    ensures ParseSegment(p, EncodeSegment(p, o)) == Success(o)
  {
    Base64Url.DecodeEncodeText(p.charset, p.json.encode(o));
  }

  /** The text that is signed: the header segment and the payload segment
      joined by `.`. */
  function SigningInput(p: Platform, payload: Json.Object, algorithm: string): (r: string)
    ensures Pieces(r, '.') == [EncodeSegment(p, Header(algorithm)), EncodeSegment(p, payload)]
  {
    var h := EncodeSegment(p, Header(algorithm));
    var b := EncodeSegment(p, payload);
    JoinTwo(h, b, '.');
    PiecesOfJoin([h, b], '.', 0);
    assert Join([h, b], '.') + Repeat('.', 0) == h + "." + b;
    h + "." + b
  }

  /** The signature segment: the signature of the text's bytes, encoded. */
  function SignatureSegment(crypto: Crypto, p: Platform, input: string): (s: string)
    ensures '.' !in s
    ensures Base64Url.DecodeBytes(s) == Some(crypto.Output(p.charset.getBytes(input)))
  {
    Base64Url.DecodeEncodeBytes(crypto.Output(p.charset.getBytes(input)));
    Base64Url.EncodeBytes(crypto.Output(p.charset.getBytes(input)))
  }

  class JWT {
    /** `CRYPTO_MAP`: built by the constructor and never changed again. */
    const cryptoMap: map<string, Crypto>

    /** `JWT(security)`: tries the four algorithms in turn and keeps each
        one whose engine the provider hands out. */
    constructor (security: Security)
      ensures cryptoMap == Registry(security)
    {
      var tmp: map<string, Crypto> := map[];
      var mac := security.getMac("HS256");
      if mac.Some? {
        tmp := tmp["HS256" := CryptoMac(mac.value)];
      }
      mac := security.getMac("HS384");
      if mac.Some? {
        tmp := tmp["HS384" := CryptoMac(mac.value)];
      }
      mac := security.getMac("HS512");
      if mac.Some? {
        tmp := tmp["HS512" := CryptoMac(mac.value)];
      }
      var sig := security.getSignature("RS256");
      if sig.Some? {
        tmp := tmp["RS256" := CryptoSignature(sig.value)];
      }
      cryptoMap := tmp;
      assert tmp.Keys == Registry(security).Keys;
    }

    /** `encode(payload, algorithm)`. */
    function Encode(p: Platform, payload: Json.Object, algorithm: string): (r: Result<string, Error>)
      ensures r.Failure? <==> algorithm !in cryptoMap
      ensures r.Failure? ==> r.error == AlgorithmNotSupported
    {
      if algorithm !in cryptoMap then Failure(AlgorithmNotSupported)
      else
        var crypto := cryptoMap[algorithm];
        var headerSegment := EncodeSegment(p, Header(algorithm));
        var payloadSegment := EncodeSegment(p, payload);
        var signingInput := SigningInput(p, payload, algorithm);
        var signSegment := SignatureSegment(crypto, p, signingInput);
        Success(headerSegment + "." + payloadSegment + "." + signSegment)
    }

    /** `encode(payload)`: the one-argument form signs with HS256. */
    function EncodeDefault(p: Platform, payload: Json.Object): (r: Result<string, Error>)
      ensures r == Encode(p, payload, "HS256")
    {
      Encode(p, payload, "HS256")
    }

    /** The registered variant named by the header's `alg`. A missing or
        null `alg` is looked up as `null`, which is never a key. */
    function Lookup(header: Json.Object): (r: Result<Crypto, Error>)
      ensures r.Success? <==> Json.GetString(header, "alg").Text? && Json.GetString(header, "alg").text in cryptoMap
      ensures r.Success? ==> r.value == cryptoMap[Json.GetString(header, "alg").text]
      ensures r == Failure(AlgNotString) <==> Json.GetString(header, "alg").NotAString?
      ensures r.Failure? ==> r.error == AlgNotString || r.error == AlgorithmNotSupported
    {
      match Json.GetString(header, "alg")
      case NotAString => Failure(AlgNotString)
      case Absent => Failure(AlgorithmNotSupported)
      case Text(alg) => if alg in cryptoMap then Success(cryptoMap[alg]) else Failure(AlgorithmNotSupported)
    }

    /** The segments are signed: there are three, the header names a
        registered algorithm, and that algorithm accepts the decoded third
        segment as the signature of the first two exactly as they stand in
        the token. */
    predicate Signed(p: Platform, segments: seq<string>) {
      |segments| == 3 &&
      match ParseSegment(p, segments[0])
      case Failure(_) => false
      case Success(header) =>
        match Lookup(header)
        case Failure(_) => false
        case Success(crypto) =>
          match Base64Url.DecodeBytes(segments[2])
          case None => false
          case Some(signature) => crypto.Accepts(signature, p.charset.getBytes(segments[0] + "." + segments[1]))
    }

    /** The token is signed, segment by segment as the split finds them. */
    predicate Authentic(p: Platform, token: string) {
      Signed(p, Split(token, '.'))
    }

    /** The checks of `decode` on the segments of the split. A signature
        segment the decoder rejects leaves no bytes to compare, and the
        comparison fails. */
    function DecodeSegments(p: Platform, segments: seq<string>, noVerify: bool): (r: Result<Json.Object, Error>)
      ensures |segments| != 3 <==> r == Failure(SegmentCount)
      ensures r.Success? ==> ParseSegment(p, segments[0]).Success? && ParseSegment(p, segments[1]) == Success(r.value)
      ensures r.Success? && !noVerify ==> Signed(p, segments)
      // a header or payload segment that does not parse ends the decode with its error
      ensures |segments| == 3 && ParseSegment(p, segments[0]).Failure? ==> r == Failure(ParseSegment(p, segments[0]).error)
      ensures |segments| == 3 && ParseSegment(p, segments[0]).Success? && ParseSegment(p, segments[1]).Failure?
        ==> r == Failure(ParseSegment(p, segments[1]).error)
      // without verification the parsed payload is returned, whatever the third segment is
      ensures |segments| == 3 && noVerify && ParseSegment(p, segments[0]).Success? ==> r == ParseSegment(p, segments[1])
      // with verification: an unknown `alg` fails before any signature is looked at ...
      ensures |segments| == 3 && !noVerify && ParseSegment(p, segments[0]).Success? && ParseSegment(p, segments[1]).Success?
        && Lookup(ParseSegment(p, segments[0]).value).Failure?
        ==> r == Failure(Lookup(ParseSegment(p, segments[0]).value).error)
      // ... an undecodable signature segment fails the comparison ...
      ensures |segments| == 3 && !noVerify && ParseSegment(p, segments[0]).Success? && ParseSegment(p, segments[1]).Success?
        && Lookup(ParseSegment(p, segments[0]).value).Success? && Base64Url.DecodeBytes(segments[2]).None?
        ==> r == Failure(SignatureVerificationFailed)
      // ... and a registered engine decides between the payload and the verification failure
      ensures |segments| == 3 && !noVerify && ParseSegment(p, segments[0]).Success? && ParseSegment(p, segments[1]).Success?
        && Lookup(ParseSegment(p, segments[0]).value).Success?
        ==> r == if Signed(p, segments) then ParseSegment(p, segments[1]) else Failure(SignatureVerificationFailed)
    {
      if |segments| != 3 then Failure(SegmentCount)
      else
        var headerSeg := segments[0];
        var payloadSeg := segments[1];
        var signatureSeg := segments[2];
        var header :- ParseSegment(p, headerSeg);
        var payload :- ParseSegment(p, payloadSeg);
        if noVerify then Success(payload)
        else
          var crypto :- Lookup(header);
          var signingInput := headerSeg + "." + payloadSeg;
          match Base64Url.DecodeBytes(signatureSeg)
          case None => Failure(SignatureVerificationFailed)
          case Some(signature) =>
            if crypto.Accepts(signature, p.charset.getBytes(signingInput)) then Success(payload)
            else Failure(SignatureVerificationFailed)
    }

    /** `decode(token, noVerify)`: fails on a segment count other than
        three; what it returns is the payload segment's object; with
        verification it returns only for an authentic token. */
    function Decode(p: Platform, token: string, noVerify: bool): (r: Result<Json.Object, Error>)
      ensures |Split(token, '.')| != 3 <==> r == Failure(SegmentCount)
      ensures r.Success? ==> ParseSegment(p, Split(token, '.')[0]).Success?
      ensures r.Success? ==> ParseSegment(p, Split(token, '.')[1]) == Success(r.value)
      ensures r.Success? && !noVerify ==> Authentic(p, token)
      ensures var segments := Split(token, '.');
        |segments| == 3 && ParseSegment(p, segments[0]).Failure? ==> r == Failure(ParseSegment(p, segments[0]).error)
      ensures var segments := Split(token, '.');
        |segments| == 3 && ParseSegment(p, segments[0]).Success? && ParseSegment(p, segments[1]).Failure?
        ==> r == Failure(ParseSegment(p, segments[1]).error)
      ensures var segments := Split(token, '.');
        |segments| == 3 && noVerify && ParseSegment(p, segments[0]).Success? ==> r == ParseSegment(p, segments[1])
      ensures var segments := Split(token, '.');
        |segments| == 3 && !noVerify && ParseSegment(p, segments[0]).Success? && ParseSegment(p, segments[1]).Success?
        && Lookup(ParseSegment(p, segments[0]).value).Failure?
        ==> r == Failure(Lookup(ParseSegment(p, segments[0]).value).error)
      ensures var segments := Split(token, '.');
        |segments| == 3 && !noVerify && ParseSegment(p, segments[0]).Success? && ParseSegment(p, segments[1]).Success?
        && Lookup(ParseSegment(p, segments[0]).value).Success? && Base64Url.DecodeBytes(segments[2]).None?
        ==> r == Failure(SignatureVerificationFailed)
      ensures var segments := Split(token, '.');
        |segments| == 3 && !noVerify && ParseSegment(p, segments[0]).Success? && ParseSegment(p, segments[1]).Success?
        && Lookup(ParseSegment(p, segments[0]).value).Success?
        ==> r == if Authentic(p, token) then ParseSegment(p, segments[1]) else Failure(SignatureVerificationFailed)
    {
      DecodeSegments(p, Split(token, '.'), noVerify)
    }

    /** `decode(token)`: the one-argument form verifies. */
    function DecodeVerified(p: Platform, token: string): (r: Result<Json.Object, Error>)
      ensures r == Decode(p, token, false)
    {
      Decode(p, token, false)
    }

    /** A token that parses is accepted with verification exactly when it is
        authentic, and then both forms return the same payload. */
    lemma DecodeVerifiesExactlyAuthentic(p: Platform, token: string)
      requires Decode(p, token, true).Success?
      ensures Decode(p, token, false).Success? <==> Authentic(p, token)
      ensures Decode(p, token, false).Success? ==> Decode(p, token, false) == Decode(p, token, true)
    {
    }

    /** Without verification the registry is never consulted: two codecs
        built from different providers decode every token alike. */
    lemma NoVerifyIgnoresRegistry(other: JWT, p: Platform, token: string)
      ensures Decode(p, token, true) == other.Decode(p, token, true)
    {
    }

    /** How verification ends for three segments whose header and payload
        parse and whose header names a registered engine. */
    lemma VerifyThree(p: Platform, h: string, b: string, s: string, header: Json.Object, crypto: Crypto)
      requires ParseSegment(p, h) == Success(header) && ParseSegment(p, b).Success?
      requires Lookup(header) == Success(crypto)
      requires Base64Url.DecodeBytes(s).Some?
      ensures DecodeSegments(p, [h, b, s], false)
        == if crypto.Accepts(Base64Url.DecodeBytes(s).value, p.charset.getBytes(h + "." + b))
           then ParseSegment(p, b) else Failure(SignatureVerificationFailed)
    {
      var segments := [h, b, s];
      assert segments[0] == h && segments[1] == b && segments[2] == s;
    }

    /** The header `encode` writes names its own algorithm. */
    lemma LookupHeader(algorithm: string)
      requires algorithm in cryptoMap
      ensures Lookup(Header(algorithm)) == Success(cryptoMap[algorithm])
    {
    }

    /** An encoded token: the header segment, the payload segment and the
        signature segment, each free of `.`, joined by exactly two `.`; the
        third decodes to the signature of the first two joined by `.`. */
    lemma EncodeShape(p: Platform, payload: Json.Object, algorithm: string)
      requires algorithm in cryptoMap
      ensures var t := Encode(p, payload, algorithm).value;
        var h := EncodeSegment(p, Header(algorithm));
        var b := EncodeSegment(p, payload);
        var s := SignatureSegment(cryptoMap[algorithm], p, h + "." + b);
        && t == Join([h, b, s], '.')
        && Separable([h, b, s], '.')
        && Count(t, '.') == 2
        && Base64Url.DecodeBytes(s) == Some(cryptoMap[algorithm].Output(p.charset.getBytes(h + "." + b)))
    {
      var h := EncodeSegment(p, Header(algorithm));
      var b := EncodeSegment(p, payload);
      var s := SignatureSegment(cryptoMap[algorithm], p, h + "." + b);
      EncodeToken(p, payload, algorithm);
      ThreeSegments(h, b, s);
    }

    lemma EncodeToken(p: Platform, payload: Json.Object, algorithm: string)
      requires algorithm in cryptoMap
      ensures var h := EncodeSegment(p, Header(algorithm));
        var b := EncodeSegment(p, payload);
        Encode(p, payload, algorithm).value == h + "." + b + "." + SignatureSegment(cryptoMap[algorithm], p, h + "." + b)
    {
    }

    /** Encoding then decoding with verification gives the payload back,
        for every registered algorithm, given a JSON codec and a charset
        that carry the header and the payload without loss and a signature
        that is not empty (the split drops an empty last segment). */
    lemma RoundTrip(p: Platform, payload: Json.Object, algorithm: string)
      requires algorithm in cryptoMap
      requires Json.RoundTrips(p.json, Header(algorithm)) && Json.RoundTrips(p.json, payload)
      requires Lossless(p.charset, p.json.encode(Header(algorithm))) && Lossless(p.charset, p.json.encode(payload))
      requires |cryptoMap[algorithm].Output(p.charset.getBytes(SigningInput(p, payload, algorithm)))| > 0
      ensures Encode(p, payload, algorithm).Success?
      ensures Decode(p, Encode(p, payload, algorithm).value, false) == Success(payload)
    {
      var crypto := cryptoMap[algorithm];
      var h := EncodeSegment(p, Header(algorithm));
      var b := EncodeSegment(p, payload);
      var s := SignatureSegment(crypto, p, h + "." + b);
      var t := Encode(p, payload, algorithm).value;
      assert t == h + "." + b + "." + s;
      assert |crypto.Output(p.charset.getBytes(h + "." + b))| > 0;
      TokenSegments(h, b, s, 0);
      assert t + Repeat('.', 0) == t;
      ParseEncodedSegment(p, Header(algorithm));
      ParseEncodedSegment(p, payload);
      LookupHeader(algorithm);
      VerifyThree(p, h, b, s, Header(algorithm), crypto);
      assert crypto.Accepts(Base64Url.DecodeBytes(s).value, p.charset.getBytes(h + "." + b));
      assert Split(t, '.') == [h, b, s];
    }

    /** A token whose third segment was made with another key is refused:
        if the other codec's engine for the algorithm signs the signing
        input differently, it rejects this codec's token. */
    lemma ForeignKeyRejected(other: JWT, p: Platform, payload: Json.Object, algorithm: string)
      requires algorithm in cryptoMap && algorithm in other.cryptoMap
      requires Json.RoundTrips(p.json, Header(algorithm)) && Json.RoundTrips(p.json, payload)
      requires Lossless(p.charset, p.json.encode(Header(algorithm))) && Lossless(p.charset, p.json.encode(payload))
      requires |cryptoMap[algorithm].Output(p.charset.getBytes(SigningInput(p, payload, algorithm)))| > 0
      requires var input := p.charset.getBytes(SigningInput(p, payload, algorithm));
        other.cryptoMap[algorithm].Output(input) != cryptoMap[algorithm].Output(input)
      ensures other.Decode(p, Encode(p, payload, algorithm).value, false) == Failure(SignatureVerificationFailed)
    {
      var crypto := cryptoMap[algorithm];
      var h := EncodeSegment(p, Header(algorithm));
      var b := EncodeSegment(p, payload);
      var s := SignatureSegment(crypto, p, h + "." + b);
      var t := Encode(p, payload, algorithm).value;
      assert t == h + "." + b + "." + s;
      assert |crypto.Output(p.charset.getBytes(h + "." + b))| > 0;
      TokenSegments(h, b, s, 0);
      assert t + Repeat('.', 0) == t;
      ParseEncodedSegment(p, Header(algorithm));
      ParseEncodedSegment(p, payload);
      other.LookupHeader(algorithm);
      other.VerifyThree(p, h, b, s, Header(algorithm), other.cryptoMap[algorithm]);
    }

    /** Putting another payload segment before a genuine signature is
        refused whenever the engine signs the two signing inputs
        differently. */
    lemma SwappedPayloadRejected(p: Platform, payload: Json.Object, forged: Json.Object, algorithm: string)
      requires algorithm in cryptoMap
      requires Json.RoundTrips(p.json, Header(algorithm)) && Json.RoundTrips(p.json, forged)
      requires Lossless(p.charset, p.json.encode(Header(algorithm))) && Lossless(p.charset, p.json.encode(forged))
      requires |cryptoMap[algorithm].Output(p.charset.getBytes(SigningInput(p, payload, algorithm)))| > 0
      requires cryptoMap[algorithm].Output(p.charset.getBytes(SigningInput(p, payload, algorithm)))
            != cryptoMap[algorithm].Output(p.charset.getBytes(SigningInput(p, forged, algorithm)))
      ensures var h := EncodeSegment(p, Header(algorithm));
        var s := SignatureSegment(cryptoMap[algorithm], p, SigningInput(p, payload, algorithm));
        Decode(p, h + "." + EncodeSegment(p, forged) + "." + s, false) == Failure(SignatureVerificationFailed)
    {
      var crypto := cryptoMap[algorithm];
      var h := EncodeSegment(p, Header(algorithm));
      var b := EncodeSegment(p, forged);
      var s := SignatureSegment(crypto, p, SigningInput(p, payload, algorithm));
      var t := h + "." + b + "." + s;
      assert |crypto.Output(p.charset.getBytes(SigningInput(p, payload, algorithm)))| > 0;
      TokenSegments(h, b, s, 0);
      assert t + Repeat('.', 0) == t;
      ParseEncodedSegment(p, Header(algorithm));
      ParseEncodedSegment(p, forged);
      LookupHeader(algorithm);
      VerifyThree(p, h, b, s, Header(algorithm), crypto);
      assert h + "." + b == SigningInput(p, forged, algorithm);
      assert !crypto.Accepts(Base64Url.DecodeBytes(s).value, p.charset.getBytes(h + "." + b));
      assert Split(t, '.') == [h, b, s];
    }

    /** Separators after the signature segment are dropped by the split,
        so `"a.b.c."` decodes like `"a.b.c"`. */
    lemma TrailingSeparatorsIgnored(p: Platform, h: string, b: string, s: string, k: nat, noVerify: bool)
      requires '.' !in h && '.' !in b && '.' !in s && s != []
      ensures Decode(p, h + "." + b + "." + s + Repeat('.', k), noVerify) == Decode(p, h + "." + b + "." + s, noVerify)
    {
      TokenSegments(h, b, s, k);
      TokenSegments(h, b, s, 0);
      assert h + "." + b + "." + s + Repeat('.', 0) == h + "." + b + "." + s;
    }

    /** A token that ends right after the second `.` has no third segment
        once the split drops the empty one: `"a.b."` is refused for its
        segment count. */
    lemma MissingSignatureRejected(p: Platform, h: string, b: string, noVerify: bool)
      requires '.' !in h && '.' !in b
      ensures Decode(p, h + "." + b + ".", noVerify) == Failure(SegmentCount)
    {
      var t := h + "." + b + ".";
      JoinTwo(h, b, '.');
      assert Join([h, b], '.') + Repeat('.', 1) == t;
      PiecesOfJoin([h, b], '.', 1);
      assert Pieces(t, '.') == [h, b, []];
      assert t[|t| - 1] == '.';
      var segments := Split(t, '.');
      assert segments == DropTrailingEmpty([h, b, []]);
      assert |segments| < 3;
    }
  }

  /** Three `.`-free segments joined by `.`: the join, with exactly two
      separators. */
  lemma ThreeSegments(h: string, b: string, s: string)
    requires '.' !in h && '.' !in b && '.' !in s
    ensures h + "." + b + "." + s == Join([h, b, s], '.')
    ensures Separable([h, b, s], '.')
    ensures Count(h + "." + b + "." + s, '.') == 2
  {
    JoinThree(h, b, s, '.');
    CountAppend(h, ".", '.');
    CountAppend(h + ".", b, '.');
    CountAppend(h + "." + b, ".", '.');
    CountAppend(h + "." + b + ".", s, '.');
  }

  /** The split of a well-formed token, with any separators after it,
      yields its three segments. */
  lemma TokenSegments(h: string, b: string, s: string, k: nat)
    requires '.' !in h && '.' !in b && '.' !in s && s != []
    ensures Split(h + "." + b + "." + s + Repeat('.', k), '.') == [h, b, s]
  {
    JoinThree(h, b, s, '.');
    SplitJoin([h, b, s], '.', k);
  }

  /** The two boundary cases of the split, written out. */
  lemma SplitExamples()
    ensures Split("a.b.c.", '.') == ["a", "b", "c"]
    ensures Split("a.b.", '.') == ["a", "b"]
    ensures Split("...", '.') == []
  {
    assert "..." == Repeat('.', 3);
    SplitSeparators('.', 3);
    assert "a.b.c." == "a" + "." + "b" + "." + "c" + Repeat('.', 1);
    TokenSegments("a", "b", "c", 1);
    JoinTwo("a", "b", '.');
    assert "a.b." == Join(["a", "b"], '.') + Repeat('.', 1);
    SplitJoin(["a", "b"], '.', 1);
  }
}
