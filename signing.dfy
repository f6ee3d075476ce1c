/** The two signing variants of the token codec (lines 17-74 of JWT.java)
    over the JCA engines they wrap. An engine's cryptography is foreign code:
    the model gives each engine a deterministic keyed function `compute`
    from the bytes fed to it to the signature or MAC, and keeps the engine's
    buffer of bytes fed in but not yet finished. */
module Signing {
  import opened Wrappers
  import opened Strings

  /** `javax.crypto.Mac`, initialised with its key. */
  class Mac {
    const compute: seq<byte> -> seq<byte>
    var buffer: seq<byte>

    constructor (compute: seq<byte> -> seq<byte>)
      ensures this.compute == compute && buffer == []
    {
      this.compute := compute;
      buffer := [];
    }

    /** `doFinal(input)`: the MAC of everything fed in followed by `input`;
        the engine is then reset for the next message. */
    method DoFinal(input: seq<byte>) returns (r: seq<byte>)
      modifies this
      ensures r == compute(old(buffer) + input)
      ensures buffer == []
    {
      r := compute(buffer + input);
      buffer := [];
    }
  }

  /** `java.security.Signature`, initialised for signing with its key. */
  class Signature {
    const compute: seq<byte> -> seq<byte>
    var buffer: seq<byte>

    constructor (compute: seq<byte> -> seq<byte>)
      ensures this.compute == compute && buffer == []
    {
      this.compute := compute;
      buffer := [];
    }

    /** `update(data)`: feeds `data` to the engine. */
    method Update(data: seq<byte>)
      modifies this
      ensures buffer == old(buffer) + data
    {
      buffer := buffer + data;
    }

    /** `sign()`: the signature of everything fed in; the engine is then
        reset for the next message. */
    method Sign() returns (r: seq<byte>)
      modifies this
      ensures r == compute(old(buffer))
      ensures buffer == []
    {
      r := compute(buffer);
      buffer := [];
    }
  }

  /** The interface `Crypto` with its two implementations. */
  datatype Crypto = CryptoMac(mac: Mac) | CryptoSignature(sig: Signature) {

    /** The engine the variant locks and drives. */
    function Engine(): set<object> {
      if CryptoMac? then {mac} else {sig}
    }

    /** No bytes are pending in the engine: the state every public call
        leaves it in. */
    predicate Idle()
      reads Engine()
    {
      if CryptoMac? then mac.buffer == [] else sig.buffer == []
    }

    /** The signature (or MAC) of `payload` under the engine's key. */
    function Output(payload: seq<byte>): seq<byte> {
      if CryptoMac? then mac.compute(payload) else sig.compute(payload)
    }

    /** `verify` answers yes: the bytes equal the freshly computed
        signature of the payload. */
    predicate Accepts(signature: seq<byte>, payload: seq<byte>) {
      signature == Output(payload)
    }

    /** `sign(payload)`: `doFinal` for a MAC, `update` then `sign` for a
        signature engine. */
    method Sign(payload: seq<byte>) returns (r: seq<byte>)
      requires Idle()
      modifies Engine()
      ensures Idle()
      ensures r == Output(payload)
    {
      assert [] + payload == payload;
      match this
      case CryptoMac(m) =>
        r := m.DoFinal(payload);
      case CryptoSignature(s) =>
        s.Update(payload);
        r := s.Sign();
    }

    /** `verify(signature, payload)`: computes the signature of `payload`
        the way Sign does and compares it byte for byte. */
    method Verify(signature: seq<byte>, payload: seq<byte>) returns (ok: bool)
      requires Idle()
      modifies Engine()
      ensures Idle()
      ensures ok == Accepts(signature, payload)
    {
      var expected: seq<byte>;
      assert [] + payload == payload;
      match this {
        case CryptoMac(m) =>
          expected := m.DoFinal(payload);
        case CryptoSignature(s) =>
          s.Update(payload);
          expected := s.Sign();
      }
      ok := signature == expected;
    }

    /** Verifying what was just signed succeeds, however many messages the
        engine has processed before: each call starts and ends idle. */
    method SignThenVerify(payload: seq<byte>) returns (ok: bool)
      requires Idle()
      modifies Engine()
      ensures Idle()
      ensures ok
    {
      var signature := Sign(payload);
      ok := Verify(signature, payload);
    }
  }

  /** The key provider `YokeSecurity`: `getMac(alias)` and
      `getSignature(alias)` hand out initialised engines, or `None` where
      the call throws because the key or the algorithm is unavailable. */
  datatype Security = Security(getMac: string -> Option<Mac>, getSignature: string -> Option<Signature>)
}
