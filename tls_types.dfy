/**
 * The TLS values that the key-share lookups of the parrot tests work on:
 * bytes, named groups, key-share entries and ClientHello extensions.
 */
module TlsTypes {

  /** Go's `byte`. Arithmetic that wraps is written out where it happens. */
  newtype byte = x: int | 0 <= x < 0x100

  /** Go's `uint16`. */
  newtype uint16 = x: int | 0 <= x < 0x1_0000

  /** A named group of the TLS supported-groups registry (Go's `CurveID`). */
  type CurveID = uint16

  /** X25519, group 0x001d (section 4.2.7 of RFC 8446). */
  const X25519: CurveID := 0x001d

  /** The hybrid group X25519MLKEM768, 0x11ec (draft-ietf-tls-ecdhe-mlkem). */
  const X25519MLKEM768: CurveID := 0x11ec

  /** Length in bytes of an X25519 public key (section 5 of RFC 7748). */
  const X25519PublicKeySize: nat := 32

  /** One KeyShareEntry: the group and its key_exchange bytes. */
  datatype KeyShare = KeyShare(group: CurveID, data: seq<byte>)

  /**
   * A ClientHello extension. Only the key_share extension (section 4.2.8
   * of RFC 8446) is looked into; every other kind is kept opaque.
   */
  datatype TLSExtension =
    | KeyShareExt(keyShares: seq<KeyShare>)
    | OtherExt(extType: uint16, body: seq<byte>)

  /** What Go's `*KeyShareExtension` type guarantees statically. */
  type KeyShareExtension = e: TLSExtension | e.KeyShareExt? witness KeyShareExt([])
}
