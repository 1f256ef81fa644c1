/**
 * The cryptographic and encoding primitives both Python cores call into,
 * kept uninterpreted: HMAC-SHA1 (RFC 2104) and base64 (section 4 of
 * RFC 4648) are function values supplied by the caller. `Valid` states the
 * only facts the model relies on: base64 decoding undoes encoding, and the
 * encoder writes only base64 alphabet bytes.
 */
module Primitives {
  import opened Wrappers
  import opened Bytes

  datatype Primitives = Primitives(
    /** `hmac.new(key, msg, hashlib.sha1).digest()` */
    hmacSha1: (Bytes, Bytes) -> Bytes,
    /** `base64.b64encode(data)`, equal to `binascii.b2a_base64(data)` without its newline */
    base64Encode: Bytes -> Bytes,
    /** `base64.b64decode(text)`, `None` where it raises */
    base64Decode: Bytes -> Option<Bytes>)

  /** The base64 alphabet with its padding byte '='. */
  predicate IsBase64Byte(b: byte)
  {
    IsUpperAscii(b) || IsLowerAscii(b) || IsDigit(b) || b == PLUS || b == 0x2F || b == EQUALS
  }

  ghost predicate Valid(p: Primitives)
  {
    && (forall data :: p.base64Decode(p.base64Encode(data)) == Some(data))
    && (forall data, i :: 0 <= i < |p.base64Encode(data)| ==> IsBase64Byte(p.base64Encode(data)[i]))
  }

  /** `binascii.b2a_base64(data)`: the base64 text followed by a newline. */
  function B2aBase64(p: Primitives, data: Bytes): Bytes
  {
    p.base64Encode(data) + [NEWLINE]
  }

  /** `hmac.new(key, msg, hashlib.sha1).hexdigest()` */
  function HmacHexDigest(p: Primitives, key: Bytes, msg: Bytes): (r: Bytes)
    ensures forall i :: 0 <= i < |r| ==> IsLowerHex(r[i])
  {
    HexLower(p.hmacSha1(key, msg))
  }
}
