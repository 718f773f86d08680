# Parrot-test helpers of uTLS, modelled in Dafny

This project models the self-contained logic in `u_parrots_test.go` of uTLS.
uTLS builds ClientHello messages that copy the fingerprint of real TLS clients
("parrots"). The file holds two tests. One checks that a parrot which reuses
its classical key reuses it: the X25519 half of the hybrid X25519MLKEM768
key share equals the standalone X25519 key share. The other checks that a
hand-built spec keeps the two independent by default. The model covers
three things:

- `incrementingSource`, the deterministic reader that stands in for
  `crypto/rand`. It is a class `IncrementingRand.IncrementingSource` with a
  single one-byte field `next`. `Read` is a loop that fills a caller's
  `array<byte>` in place and wraps the counter at 256. It is proved against
  the specification functions `Window` (the bytes one read hands out) and
  `CounterAfter` (the counter after a read). Lemmas about those functions
  give the byte formula, the wrap-around, the composition of reads (replay)
  and the condition under which two successive draws differ.
- `findKeyShareExtension` and `findKeyShareData`. These are first-match
  searches over the ordered extension list and over the key_share
  extension's entries (section 4.2.8 of RFC 8446). They are recursive
  functions over `seq` that return a `Result`. The `Err` side stands for the
  tests' `t.Fatal`.
- The slice that takes the last 32 bytes of a hybrid share as its X25519
  part, with its length guard, and the comparison the tests make with it.
  The hybrid layout puts the ML-KEM key first and the X25519 key last
  (draft-ietf-tls-ecdhe-mlkem).

The values `X25519 = 0x001d`, `X25519MLKEM768 = 0x11ec` and
`x25519PublicKeySize = 32` come from the TLS supported-groups registry and
RFC 7748. Their Go definitions are not part of this model.

## Model

| member | source | states |
|---|---|---|
| `IncrementingRand.IncrementingSource.constructor` | u_parrots_test.go:47-51 | a fresh `&incrementingSource{}` starts its counter at 0 |
| `IncrementingRand.IncrementingSource.Read` | u_parrots_test.go:13-19 | returns `len(b)` and no error; afterwards `b` holds the window of bytes starting at the old counter, `b[i] == (old(next) + i) mod 256` for every `i`, the counter is `(old(next) + len(b)) mod 256`, and only `b` and `next` change |
| `IncrementingRand.Step` | u_parrots_test.go:16 | `s.next++` on a byte yields `(next + 1) mod 256` |
| `IncrementingRand.CounterAfterWraps` | u_parrots_test.go:14-17 | after `n` bytes are drawn, the counter is `(start + n) mod 256` |
| `IncrementingRand.WindowAt` | u_parrots_test.go:14-16 | byte `i` of a read that starts at counter `start` is `(start + i) mod 256` |
| `IncrementingRand.CounterAfterCompose` | u_parrots_test.go:13-19 | a read of `n` bytes followed by a read of `m` bytes leaves the counter where one read of `n + m` bytes leaves it |
| `IncrementingRand.WindowsCompose` | u_parrots_test.go:13-19 | the bytes of a read of `n` followed by a read of `m` are, concatenated, the bytes of one read of `n + m` |
| `IncrementingRand.WindowsApart` | u_parrots_test.go:13-19 | two reads of `n` bytes that start `k` bytes apart give equal bytes exactly when `n` is 0 or `k` is a multiple of 256 |
| `IncrementingRand.ConsecutiveWindowsDiffer` | u_parrots_test.go:13-19 | two successive reads of `n` bytes give equal bytes exactly when `n` is a multiple of 256 |
| `IncrementingRand.SplitReadReplays` | u_parrots_test.go:47-51 | two fresh sources, one read as `n` then `m` bytes and the other as `n + m` bytes, hand out the bytes of a read of `n` followed by a read of `m`, which are the bytes of one read of `n + m`; they also end with the same counter |
| `IncrementingRand.SuccessiveDrawsDiffer` | u_parrots_test.go:13-19 | on a fresh source, two successive draws of `n` bytes are the windows at counters 0 and `n`, and they differ exactly when `n mod 256 != 0` |
| `IncrementingRand.SeparatedDrawsDiffer` | u_parrots_test.go:13-19 | on a fresh source, two draws of `n` bytes with `gap` bytes drawn between them differ exactly when `n != 0` and `(n + gap) mod 256 != 0` |
| `KeyShareLookup.FindKeyShareExtension` | u_parrots_test.go:21-32 | returns the first key_share extension in list order; fails with "key_share extension not found" exactly when the list holds none |
| `KeyShareLookup.FindKeyShareData` | u_parrots_test.go:34-45 | returns the data of the first entry whose group is the one asked for; fails with "key_share for group not found" exactly when no entry names it |
| `KeyShareLookup.FindKeyShareExtensionSkipsOthers` | u_parrots_test.go:24-28 | extensions of other kinds placed ahead of the list do not change what the search finds |
| `KeyShareLookup.FindKeyShareDataSkipsOthers` | u_parrots_test.go:37-41 | entries for other groups placed ahead of the list do not change what the search finds |
| `KeyShareLookup.HybridClassicalPart` | u_parrots_test.go:77-80 | rejects a hybrid share shorter than 32 bytes with its length; otherwise returns exactly 32 bytes, which are the trailing bytes of the share |
| `KeyShareLookup.HybridClassicalPartOfConcat` | u_parrots_test.go:139-142 | the extraction applied to an ML-KEM key followed by a 32-byte X25519 key gives back that X25519 key |
| `KeyShareLookup.HybridClassicalPartMatches` | u_parrots_test.go:73-81 | for every extension list: it succeeds exactly when there is a key_share extension, the first one holds an X25519MLKEM768 entry and an X25519 entry, and the first hybrid entry is at least 32 bytes long; its result is then whether the last 32 bytes of the first hybrid entry equal the first X25519 entry; each failure is reported as the test reports it (no key_share extension, no hybrid entry, no X25519 entry, hybrid entry too short) |
| `KeyShareLookup.HybridClassicalPartMatchesDecides` | u_parrots_test.go:73-81 | on a list shaped as in the tests (hybrid share listed before the X25519 share), the comparison reports reuse exactly when the hybrid's trailing X25519 key equals the standalone X25519 share |

## Left out

- `UClient`, `ApplyPreset`, `UTLSIdToSpec`, `HelloFirefox_148` and the `HandshakeState.State13.KeyShareKeys` fields are not part of this model. Their code is not among the files modelled, so the generator that fills the key shares is not modelled either.
- X25519 scalar multiplication and ML-KEM-768 key generation are not modelled. They are cryptographic arithmetic in code that is not modelled.
- The tests' final assertions are not modelled: reuse at u_parrots_test.go:81-91 and independence at u_parrots_test.go:143-153. They depend on the unmodelled generator and on Go pointer identity of private keys. What is proved is the part the source does show. First, the comparison itself (`HybridClassicalPartMatches`). Second, which draws from the source differ: two draws of `n` bytes whose starts are `k` bytes apart differ unless `k` is a multiple of 256 (`WindowsApart`, `SeparatedDrawsDiffer`). How many bytes the key generator draws, and in what order, is not part of this model.
- `FindKeyShareExtension`: returns the extension as a value, not Go's `*KeyShareExtension` pointer into the list, so aliasing of the returned extension with the list element is not captured.
- `net.TCPConn`, `Config`, `testing.T` (`t.Run`, `t.Helper`, `t.Fatal`, `t.Fatalf`) are not modelled because they are I/O and test-harness machinery. A `t.Fatal` is modelled as an `Err` result that names the failure.
- Extension kinds other than key_share are one opaque variant, because the helpers only test whether an extension is a key_share extension.
