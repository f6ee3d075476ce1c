# Compact JWT codec of Yoke, modelled in Dafny

Yoke's `JWT` class signs and verifies compact JSON Web Tokens. A token is
`BASE64URL(header) "." BASE64URL(payload) "." BASE64URL(signature)`, as laid
out in section 7.1 of RFC 7515. The class has four parts:

- **Registry.** The constructor asks the key provider for an engine for each
  of HS256, HS384, HS512 (a MAC engine) and RS256 (a signature engine). An
  algorithm whose engine cannot be had is left out without notice. The map
  is frozen after that.
- **Signing variants.** `CryptoMac` and `CryptoSignature` sign bytes.
  Both verify by signing again and comparing the bytes.
- **encode.** It looks up the algorithm and builds the header
  `{"typ": "JWT", "alg": <name>}`. It encodes both segments, signs
  `header "." payload` and appends the encoded signature.
- **decode.** It splits the token with Java's `split("\\.")`, which drops
  trailing empty parts, and insists on exactly three segments. It parses the
  header and the payload. Unless `noVerify` is set, it looks up the header's
  `alg` and checks the signature over the first two segments exactly as they
  appear in the token.

The segments use a URL-safe base64 transform:

- **Escape.** The standard encoding with `+` turned into `-` and `/` into
  `_`, and every `=` deleted.
- **Unescape.** Appends `5 - L mod 4` characters `=` to a text of length `L`
  before undoing the character swap. The count is 2 to 5, never the standard
  one, so the padded text always has a length of one more than a multiple of
  four. The round trip therefore depends on the base64 decoder ignoring
  surplus trailing `=`.

The project's modules:

- `Wrappers`: `Option` and `Result`.
- `Strings`: the `java.lang.String` operations the codec uses:
  - `replaceAll` with one-character patterns;
  - `split` on one character, with Java's trailing-empty rule;
  - the platform charset, taken as a parameter.
- `Base64`: an RFC 4648 section 4 encoder. The decoder ignores any run of
  trailing `=`.
- `Base64Url`: the escape and unescape transforms and the segment
  encode/decode.
- `Json`: JSON values and objects with `putString` and `getString`. The
  encoder and parser are taken as a parameter.
- `Signing`:
  - the JCA engines as classes whose `compute` function is the keyed
    primitive;
  - the `Crypto` variants, whose `Sign` and `Verify` methods drive those
    engines.
- `Jwt`: the registry, the `JWT` class with its constructor, encode and
  decode, and the lemmas relating them.

Foreign code enters as parameters:

- the platform charset (`Strings.Charset`);
- the JSON encoder and parser (`Json.Codec`);
- the key provider `YokeSecurity` (`Signing.Security`; `YokeSecurity` is not
  part of this model);
- the keyed MAC and signature functions inside the engines.

Round trips that need one of these to be lossless say so in their
preconditions.

JWT.java line 173 computes the padding as `5 - L % 4`. A text of length
`L % 4 == 0` gets 5 `=`, `L % 4 == 3` gets 2, `L % 4 == 2` gets 3, and
`L % 4 == 1` gets 4. The model proves that an escaped encoding never has a
length of one more than a multiple of four, so the 4-character padding only
meets texts that the encoder did not write. Such a text without `=` is
rejected by the decoder the model assumes (see Left out below).

## Model

| member | source | states |
|---|---|---|
| `Strings.Replace` | framework/src/main/java/com/jetdrone/vertx/yoke/security/JWT.java:187 | `replaceAll` with a one-character pattern keeps the length; each `from` becomes `to` and every other character stays in place |
| `Strings.RemoveAll` | framework/src/main/java/com/jetdrone/vertx/yoke/security/JWT.java:187 | deleting every `c` leaves no `c`, shortens the text by the number of `c`, and adds no character |
| `Strings.Split` | framework/src/main/java/com/jetdrone/vertx/yoke/security/JWT.java:110 | Java's split gives parts free of the separator and at most one more than the separators; a text without a separator splits into itself |
| `Strings.SplitSeparators` | framework/src/main/java/com/jetdrone/vertx/yoke/security/JWT.java:110 | a text made only of separators splits into no parts at all, so such a token fails the segment count |
| `Strings.SplitJoin` | framework/src/main/java/com/jetdrone/vertx/yoke/security/JWT.java:110 | splitting parts joined by the separator, with any number of separators after them, gives the parts back when the last part is not empty |
| `Base64.Encode` | framework/src/main/java/com/jetdrone/vertx/yoke/security/JWT.java:183 | the standard encoding has four characters per started group of three bytes, all from the alphabet or `=`, and no `.` |
| `Base64.KnownAnswers` | framework/src/main/java/com/jetdrone/vertx/yoke/security/JWT.java:183 | the encoder writes the test vectors of section 10 of RFC 4648 ("f", "fo", "foo", and "foobar" over two groups in order) and uses `+` for 62 and `/` for 63, as table 1 of RFC 4648 does |
| `Base64.DecodeEncode` | framework/src/main/java/com/jetdrone/vertx/yoke/security/JWT.java:169 | decoding the standard encoding gives back the bytes |
| `Base64.DecodeOverPadded` | framework/src/main/java/com/jetdrone/vertx/yoke/security/JWT.java:169 | the encoding's digits followed by any number of `=` decode to the encoded bytes |
| `Base64.Decode` | framework/src/main/java/com/jetdrone/vertx/yoke/security/JWT.java:169 | the library decoder assumed by the model rejects a text whose digits, once the trailing `=` are stripped, count one more than a multiple of four; its round trips are DecodeEncode and DecodeOverPadded |
| `Base64.SextetsCount` | framework/src/main/java/com/jetdrone/vertx/yoke/security/JWT.java:183 | the digits of an encoding never count one more than a multiple of four, and are empty exactly for no bytes |
| `Base64Url.Escape` | framework/src/main/java/com/jetdrone/vertx/yoke/security/JWT.java:186-188 | the escaped text has no `+`, `/` or `=`; its length is the input's minus its number of `=` |
| `Base64Url.EscapeChars` | framework/src/main/java/com/jetdrone/vertx/yoke/security/JWT.java:186-188 | single-pass reference for escaping, which drops each `=` and swaps each other character to its URL-safe form in order; it has the same no-`+`/`/`/`=` and length guarantees |
| `Base64Url.EscapeSinglePass` | framework/src/main/java/com/jetdrone/vertx/yoke/security/JWT.java:186-188 | the three `replaceAll` passes compute exactly the single-pass reference |
| `Base64Url.EscapeAt` | framework/src/main/java/com/jetdrone/vertx/yoke/security/JWT.java:186-188 | for a text without `=`, escaping keeps every character in its place, in URL-safe form |
| `Base64Url.UnescapedShape` | framework/src/main/java/com/jetdrone/vertx/yoke/security/JWT.java:172-180 | unescaping a text of length L gives length `L + 5 - L % 4` (one more than a multiple of four) with 2 to 5 trailing `=`; the first L characters are the input with `-`→`+` and `_`→`/`; no `-` or `_` remains |
| `Base64Url.Unescaped` | framework/src/main/java/com/jetdrone/vertx/yoke/security/JWT.java:172-180 | `base64urlUnescape` appends between 2 and 5 `=` and always yields a length of one more than a multiple of four; its full shape is UnescapedShape |
| `Base64Url.Unescape` | framework/src/main/java/com/jetdrone/vertx/yoke/security/JWT.java:172-180 | the builder-and-loop implementation computes the unescaped text |
| `Base64Url.UnescapedSplit` | framework/src/main/java/com/jetdrone/vertx/yoke/security/JWT.java:172-180 | the unescaped text is the standard-alphabet text followed by exactly `5 - L % 4` characters `=` |
| `Base64Url.UnescapeEscape` | framework/src/main/java/com/jetdrone/vertx/yoke/security/JWT.java:172-188 | escaping standard digits followed by any padding, then unescaping, gives the digits followed by `5 - L % 4` characters `=` |
| `Base64Url.UnescapeEscapeStripped` | framework/src/main/java/com/jetdrone/vertx/yoke/security/JWT.java:172-188 | with trailing `=` stripped on both sides, unescape(escape(s)) equals s for standard digits followed by padding |
| `Base64Url.EncodeBytes` | framework/src/main/java/com/jetdrone/vertx/yoke/security/JWT.java:163 | the URL-safe encoding uses only the URL-safe alphabet, has no `.`, never has a length of one more than a multiple of four, and is empty exactly for no bytes |
| `Base64Url.DecodeEncodeBytes` | framework/src/main/java/com/jetdrone/vertx/yoke/security/JWT.java:134 | the signature decoding recovers the bytes the signature encoding wrote, despite the non-standard padding |
| `Base64Url.DecodeBytes` | framework/src/main/java/com/jetdrone/vertx/yoke/security/JWT.java:134 | the decoding of the signature segment is the standard decoding of the segment in the standard alphabet, whatever `=` it already carries: the appended padding never changes the bytes; for a segment without `=` it is the decoding of its digits |
| `Base64Url.RejectsOneModFour` | framework/src/main/java/com/jetdrone/vertx/yoke/security/JWT.java:168-173 | a segment without `=` whose length is one more than a multiple of four is rejected by the decoder |
| `Base64Url.EncodeText` | framework/src/main/java/com/jetdrone/vertx/yoke/security/JWT.java:182-184 | `base64urlEncode` writes only URL-safe characters and no `.` |
| `Base64Url.DecodeText` | framework/src/main/java/com/jetdrone/vertx/yoke/security/JWT.java:168-170 | `base64urlDecode` fails exactly when the decoder rejects the unescaped text; otherwise it is the charset's text for the decoded bytes |
| `Base64Url.DecodeEncodeText` | framework/src/main/java/com/jetdrone/vertx/yoke/security/JWT.java:168-184 | `base64urlDecode(base64urlEncode(s)) == s` for a text the charset carries losslessly |
| `Json.PutString` | framework/src/main/java/com/jetdrone/vertx/yoke/security/JWT.java:154-156 | `putString` sets the key to the string and keeps every other field |
| `Json.GetString` | framework/src/main/java/com/jetdrone/vertx/yoke/security/JWT.java:125 | `getString` yields the string for a string field, null for a missing or null field, and a failed cast otherwise |
| `Json.GetPutString` | framework/src/main/java/com/jetdrone/vertx/yoke/security/JWT.java:154-156 | a string just put reads back, and other fields are undisturbed |
| `Signing.Mac.DoFinal` | framework/src/main/java/com/jetdrone/vertx/yoke/security/JWT.java:30-34 | `doFinal(input)` returns the keyed MAC of the pending bytes followed by `input`, and resets the engine |
| `Signing.Signature.Update` | framework/src/main/java/com/jetdrone/vertx/yoke/security/JWT.java:55 | `update` appends the bytes to the engine's pending input |
| `Signing.Signature.Sign` | framework/src/main/java/com/jetdrone/vertx/yoke/security/JWT.java:56 | `sign()` returns the keyed signature of the pending bytes, and resets the engine |
| `Signing.Crypto.Sign` | framework/src/main/java/com/jetdrone/vertx/yoke/security/JWT.java:29-61 | `sign(payload)` for both variants returns the engine's keyed output for exactly `payload` and leaves the engine idle |
| `Signing.Crypto.Verify` | framework/src/main/java/com/jetdrone/vertx/yoke/security/JWT.java:36-73 | `verify(sig, payload)` for both variants is true exactly when `sig` equals a freshly computed signature of `payload`, and leaves the engine idle |
| `Signing.Crypto.SignThenVerify` | framework/src/main/java/com/jetdrone/vertx/yoke/security/JWT.java:17-74 | verifying what was just signed always succeeds |
| `Jwt.Registry` | framework/src/main/java/com/jetdrone/vertx/yoke/security/JWT.java:78-103 | the keys are among HS256, HS384, HS512, RS256; each is present exactly when the provider hands out its engine; HS* map to the MAC variant and RS256 to the signature variant |
| `Jwt.JWT.constructor` | framework/src/main/java/com/jetdrone/vertx/yoke/security/JWT.java:78-103 | the four conditional puts build exactly the registry; the map is a constant field and never changes afterwards |
| `Jwt.Header` | framework/src/main/java/com/jetdrone/vertx/yoke/security/JWT.java:153-156 | the header has exactly the two fields `typ` and `alg`; `typ` is `JWT` and `alg` is the algorithm |
| `Jwt.EncodeSegment` | framework/src/main/java/com/jetdrone/vertx/yoke/security/JWT.java:160-161 | an encoded JSON segment contains no `.` |
| `Jwt.ParseSegment` | framework/src/main/java/com/jetdrone/vertx/yoke/security/JWT.java:121-122 | parsing a segment fails as malformed base64 exactly when the decoder rejects it, and as malformed JSON exactly when it decodes but the parser rejects the text; a success is what the JSON parser read from the decoded text |
| `Jwt.ParseEncodedSegment` | framework/src/main/java/com/jetdrone/vertx/yoke/security/JWT.java:121-122 | a segment written for an object parses back to it when the JSON codec and the charset are lossless on it |
| `Jwt.SignatureSegment` | framework/src/main/java/com/jetdrone/vertx/yoke/security/JWT.java:163 | the signature segment has no `.` and decodes to the engine's signature of the signing input's bytes |
| `Jwt.SigningInput` | framework/src/main/java/com/jetdrone/vertx/yoke/security/JWT.java:162 | the signing input separates back into exactly the header segment and the payload segment |
| `Jwt.JWT.Encode` | framework/src/main/java/com/jetdrone/vertx/yoke/security/JWT.java:146-166 | encode fails, with "Algorithm not supported", exactly when the algorithm is not a registry key |
| `Jwt.JWT.EncodeDefault` | framework/src/main/java/com/jetdrone/vertx/yoke/security/JWT.java:142-144 | the one-argument encode is encode with HS256 |
| `Jwt.JWT.EncodeShape` | framework/src/main/java/com/jetdrone/vertx/yoke/security/JWT.java:153-165 | an encoded token joins the header, payload and signature segments with exactly two `.`; the third decodes to the signature over exactly `header "." payload` |
| `Jwt.JWT.Lookup` | framework/src/main/java/com/jetdrone/vertx/yoke/security/JWT.java:125-129 | the lookup succeeds exactly when `alg` is a string that is a registry key; a non-string `alg` fails the cast; a missing one is not supported |
| `Jwt.JWT.LookupHeader` | framework/src/main/java/com/jetdrone/vertx/yoke/security/JWT.java:125 | the header that encode writes looks up its own algorithm's engine |
| `Jwt.JWT.DecodeSegments` | framework/src/main/java/com/jetdrone/vertx/yoke/security/JWT.java:111-139 | the checks fail on a count other than three; a header or payload segment that does not parse ends them with its own error; without verification they return the parsed payload whatever the third segment is; with verification an `alg` that is missing, null or not registered fails with its lookup error before the signature is read, an undecodable signature segment fails verification, and a registered engine returns the payload exactly when the segments are signed |
| `Jwt.JWT.Decode` | framework/src/main/java/com/jetdrone/vertx/yoke/security/JWT.java:109-140 | decode fails with the segment-count error exactly when the Java split does not yield three parts; on the split's segments it ends as DecodeSegments states: the header's or payload's own parse error, the parsed payload without verification, the lookup error for an unknown `alg`, a verification failure for an undecodable or wrong signature, and the payload only for an authentic token |
| `Jwt.JWT.DecodeVerified` | framework/src/main/java/com/jetdrone/vertx/yoke/security/JWT.java:105-107 | the one-argument decode is decode with verification |
| `Jwt.JWT.DecodeVerifiesExactlyAuthentic` | framework/src/main/java/com/jetdrone/vertx/yoke/security/JWT.java:124-139 | for a token that parses, verifying decode succeeds exactly when the token is authentic, and then equals the unverified result |
| `Jwt.JWT.NoVerifyIgnoresRegistry` | framework/src/main/java/com/jetdrone/vertx/yoke/security/JWT.java:124-139 | with `noVerify` the registry is never consulted: any two codecs decode every token alike |
| `Jwt.JWT.VerifyThree` | framework/src/main/java/com/jetdrone/vertx/yoke/security/JWT.java:131-136 | for parsed segments and a registered `alg`, verifying decode returns the payload exactly when the engine accepts the decoded signature over the verbatim `header "." payload` |
| `Jwt.JWT.RoundTrip` | framework/src/main/java/com/jetdrone/vertx/yoke/security/JWT.java:121-170 | decode(encode(P, A)) == P for every registered A, given a lossless JSON codec and charset and a non-empty signature of the token's signing input |
| `Jwt.JWT.ForeignKeyRejected` | framework/src/main/java/com/jetdrone/vertx/yoke/security/JWT.java:131-136 | a codec whose engine signs the signing input differently rejects the token with "Signature verification failed" |
| `Jwt.JWT.SwappedPayloadRejected` | framework/src/main/java/com/jetdrone/vertx/yoke/security/JWT.java:131-136 | a genuine signature put after another payload segment is rejected when the engine signs the two inputs differently |
| `Jwt.JWT.TrailingSeparatorsIgnored` | framework/src/main/java/com/jetdrone/vertx/yoke/security/JWT.java:110-113 | separators after a non-empty signature segment are dropped by the split, so `"a.b.c."` decodes like `"a.b.c"` |
| `Jwt.JWT.MissingSignatureRejected` | framework/src/main/java/com/jetdrone/vertx/yoke/security/JWT.java:110-113 | a token ending right after the second `.` (`"a.b."`, `"a.."`, `".."`) fails with the segment-count error, since the split drops the empty last part |
| `Jwt.TokenSegments` | framework/src/main/java/com/jetdrone/vertx/yoke/security/JWT.java:110 | three `.`-free segments joined by `.`, with a non-empty last one and any trailing separators, split back into the three |
| `Jwt.ThreeSegments` | framework/src/main/java/com/jetdrone/vertx/yoke/security/JWT.java:165 | three `.`-free segments joined by `.` are their join, free of the separator part by part, with exactly two `.` |
| `Jwt.SplitExamples` | framework/src/main/java/com/jetdrone/vertx/yoke/security/JWT.java:110-112 | `"a.b.c."` splits into three parts, `"a.b."` into two and `"..."` into none |

## Left out

- `synchronized (mac)` / `synchronized (sig)`: they serve concurrency, and the model is sequential. Each `Crypto` method requires an idle engine and leaves it idle, which is the state the locking protects.
- The cryptography of `javax.crypto.Mac` and `java.security.Signature`: it is foreign code. Each engine carries a deterministic keyed function `compute`.
- `SignatureException` wrapped into `RuntimeException`: the engines of the model never fail.
- `YokeSecurity` handing out `null` instead of throwing: the provider either hands out an engine or does not.
- The internals of vert.x `JsonObject`: the encoder and parser are a parameter. The field order of the written header is theirs, and numbers are integers only (no floating point).
- The internals of `org.vertx.java.core.json.impl.Base64`: the encoder is written out from RFC 4648 section 4. The decoder's tolerance of any run of trailing `=`, and its returning no bytes on bad input, are the model's assumption about a library that is not part of this model.
- Why the library returned no bytes: a `null` from the base64 decoder makes `new String(null)` throw, and the model reports every such case as malformed base64.
- The platform charset behind `getBytes()` and `new String(byte[])`: it is a parameter. No encoding table is modelled.
- The exception messages and classes: each failure is one constructor of `Jwt.Error`.
- `extras/src/main/java/com/jetdrone/vertx/yoke/extras/stores/MongoDbStore.java`: it is event-bus messaging with no local logic worth modelling.
