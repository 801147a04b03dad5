# DUKPT-Go key derivation, modelled in Dafny

This project models the key-derivation core of the DUKPT-Go repository. It
covers two copies of that core:

- the library package `dukpt` (`dukpt/dukpt.go`);
- the stand-alone demo program's own copy of the same helpers (`main.go`).

The core derives keys in three steps:

1. The Initial PIN Encryption Key (IPEK) is derived from a Base Derivation Key
   (BDK) and the device part of a Key Serial Number (KSN).
2. The transaction key is derived from the IPEK and the 21-bit transaction
   counter held in the low bits of the KSN. The loop runs one session round
   per set counter bit, then one final round.
3. One 8-byte block of transaction data is encrypted or decrypted under the
   resulting session key.

Modules:

- `GoRuntime` (`go_runtime.dfy`): byte strings, Go slice expressions that
  panic when out of range, the zero-filled `make` + `copy` buffer, and the
  panics themselves. A panic is a `Panicked` value, so every operation states
  both the inputs on which it returns and the panic it raises on all others.
- `Des` (`des.dfy`): the parts of Go's `crypto/des` that the core relies on.
  - The key schedule accepts only 24-byte keys.
  - `Encrypt`/`Decrypt` panic on fewer than 8 input bytes and read only the
    first 8 otherwise.
  - The DES rounds are an abstract pair of functions. The only fact the model
    assumes about them is `Des.Inverts`: decryption undoes encryption. It is
    assumed only by the round-trip lemmas.
- `CounterWalk` (`counter_walk.dfy`): the 21-step counter loop. It is shared
  by both copies of the derivation, because their loop text is identical and
  only the round function differs. `Walk` follows the loop statement by
  statement. `Shifts`, `Trace` and `Chain` describe the same computation
  independently: which bits are visited, which working KSN each round sees,
  and the rounds applied in order. `WalkIsChain` proves the two agree.
- `Dukpt` (`dukpt.dfy`): the library functions.
- `Standalone` (`standalone.dfy`): the demo program's copies.
  - Its `xor` and `maskKSN` are identical to the library's `Xor` and
    `MaskKSN` apart from the function names and the capitalisation of the XOR
    panic message, which the model does not carry. So they are modelled once,
    by `Dukpt.Xor` and `Dukpt.MaskKsn`.
  - Its Triple-DES wrappers skip the 16-to-24-byte key expansion.
  - Its session round copies the block from `ksn[2:10]`.

Besides exact success and failure conditions, the model proves:

- the IPEK ignores the transaction counter;
- the loop runs exactly one round per set counter bit, in ascending order, so
  `popcount(counter)` rounds;
- a zero counter means the transaction key is a single session round;
- in the library version, counter bits 0-4 never reach the cipher. Each of
  those rounds encrypts exactly the final round's block, so transaction
  counters 1 and 2 of a device give the same transaction key;
- a round for counter bit 5-20 ORs its bit into KSN bytes that also hold
  device-ID bits, so it changes the encrypted block only when the device ID
  does not already have that bit set;
- transaction data decrypts back to its first block when `Des.Inverts` holds.

## Model

| member | source | states |
|---|---|---|
| Des.NewTripleDesCipher | dukpt/dukpt.go:15-18 | the key schedule succeeds exactly for a 24-byte key and otherwise panics with a key-size error carrying the key's length |
| Des.Encrypt | dukpt/dukpt.go:19-21 | block encryption succeeds exactly when the input has at least 8 bytes, encrypts only the first 8, and otherwise panics with an input-not-full-block error |
| Des.Decrypt | dukpt/dukpt.go:31-33 | block decryption succeeds exactly when the input has at least 8 bytes, decrypts only the first 8, and otherwise panics |
| Dukpt.ExpandKey | dukpt/dukpt.go:5-10 | a 16-byte key K1‖K2 becomes the 24-byte K1‖K2‖K1; every other key is returned unchanged |
| Dukpt.TripleDesEncrypt | dukpt/dukpt.go:13-22 | encryption succeeds exactly for a 16- or 24-byte key and at least 8 data bytes; the result is the cipher on the expanded key and the first 8 bytes; any other key length is a key-size panic and short data an input panic |
| Dukpt.TripleDesDecrypt | dukpt/dukpt.go:25-34 | the same for decryption |
| Dukpt.Xor | dukpt/dukpt.go:37-46 | succeeds exactly for equal lengths, with each result byte the XOR of the bytes at the same index; unequal lengths panic |
| Dukpt.XorUndoesItself | dukpt/dukpt.go:37-46 | XORing twice with the same operand gives back the original, and the operands commute |
| Dukpt.MaskKsn | dukpt/dukpt.go:49-54 | succeeds exactly for a KSN of at least 8 bytes, keeps bytes 0-6, and keeps only the top three bits of byte 7; a shorter KSN is a slice panic |
| Dukpt.MaskKsnIdempotent | dukpt/dukpt.go:49-54 | masking a masked KSN changes nothing |
| Dukpt.MaskKsnSeesOnlyDeviceBits | dukpt/dukpt.go:49-54 | two KSNs mask alike if and only if they agree on bytes 0-6 and on the top three bits of byte 7 |
| Dukpt.HalvesXorIsVariant | dukpt/dukpt.go:67-72 | XORing each 8-byte half with the mask and concatenating the results equals the reference key variant (each byte XORed with the mask byte at its offset within its half) |
| Dukpt.GenerateIpek | dukpt/dukpt.go:57-75 | succeeds exactly when the BDK has at least 16 bytes and the KSN at least 8, and otherwise raises a slice panic; the left half is the masked KSN encrypted under the first 16 BDK bytes, and the right half is that block encrypted under their C0C0C0C0 variant |
| Dukpt.GenerateIpekIgnoresCounter | dukpt/dukpt.go:57-62 | KSNs that agree on the device bits give the same IPEK, and BDK bytes beyond the sixteenth are ignored |
| Dukpt.SessionBlock | dukpt/dukpt.go:106-111 | the session block is KSN bytes 2-6, then byte 7 with its counter bits cleared, then two zero bytes; missing bytes read as zero |
| Dukpt.GenerateSessionKey | dukpt/dukpt.go:102-124 | succeeds exactly for a 16-byte key and a KSN of at least 2 bytes, giving 16 bytes. A short key or KSN is a slice panic. A 24-byte key is an XOR panic. Any other length is a key-size panic |
| Dukpt.SessionKeyHalves | dukpt/dukpt.go:102-124 | a successful session round is the session block encrypted under the key (left half) and under its FFFFFFFF variant (right half) |
| Dukpt.SessionKeyReadsOnlyTheBlock | dukpt/dukpt.go:106-121 | a session round depends on the KSN only through its session block |
| Dukpt.SessionChainOutcome | dukpt/dukpt.go:85-96 | a sequence of session rounds succeeds exactly when it is empty or starts from a 16-byte key, and then yields a 16-byte key |
| Dukpt.DeriveWithSessionRounds | dukpt/dukpt.go:78-99 | the derivation with session rounds succeeds exactly for a KSN of at least 7 bytes and a 16-byte IPEK, and yields 16 bytes |
| Dukpt.DeriveKey | dukpt/dukpt.go:78-99 | the transaction key exists exactly for a KSN of at least 7 bytes and a 16-byte IPEK, and is 16 bytes long |
| Dukpt.DeriveKeyZeroCounter | dukpt/dukpt.go:79-98 | with an all-zero counter field the transaction key is one session round of the IPEK on the KSN |
| Dukpt.RoundBlockCarriesTheBit | dukpt/dukpt.go:88-111 | the block a loop round encrypts is the final round's block with the shift register's high and middle bytes ORed into block bytes 3 and 4; of its low byte, only the top three bits are ORed into block byte 5 |
| Dukpt.LowCounterBitsMaskedAway | dukpt/dukpt.go:88-111 | the round for counter bit 0-4 encrypts exactly the final round's block |
| Dukpt.HighCounterBitsReachTheBlock | dukpt/dukpt.go:88-111 | the round for counter bit 5-20 encrypts the final round's block with that bit ORed into it: into block byte 5 for bits 5-7, byte 4 for bits 8-15, byte 3 for bits 16-20 |
| Dukpt.HighCounterBitHiddenByDeviceId | dukpt/dukpt.go:88-111 | the round for counter bit 5-20 encrypts exactly the final round's block if and only if the KSN already has that bit set in byte 7, 6 or 5, so whether a counter bit reaches the cipher depends on the device ID |
| Dukpt.FinalRoundIgnoresCounter | dukpt/dukpt.go:98-111 | KSNs that agree on bytes 2-6 and on the top bits of byte 7 give the same session block and the same session round |
| Dukpt.SingleLowBitCounter | dukpt/dukpt.go:78-99 | a counter with a single set bit below bit 5 gives two session rounds on the KSN's own block |
| Dukpt.CountersOneAndTwoShareKey | dukpt/dukpt.go:78-99 | two KSNs of a device with transaction counters 1 and 2 give the same transaction key |
| Dukpt.EncryptTransactionData | dukpt/dukpt.go:127-129 | encryption succeeds exactly for a 16- or 24-byte session key and at least 8 data bytes, and yields 8 bytes |
| Dukpt.DecryptTransactionData | dukpt/dukpt.go:132-134 | decryption succeeds exactly for a 16- or 24-byte session key and at least 8 bytes, and yields 8 bytes |
| Dukpt.TransactionRoundTrip | dukpt/dukpt.go:127-134 | decrypting the encryption of a block under the same session key gives back the block's first 8 bytes |
| CounterWalk.Counter | dukpt/dukpt.go:79-87 | the counter is below 2^21 and is zero exactly when the low five bits of byte 7 and bytes 8 and 9 are zero |
| CounterWalk.CounterBitsAreKsnBits | dukpt/dukpt.go:79-87 | counter bit s is bit s of byte 9 for s < 8, bit s-8 of byte 8 for s < 16, and bit s-16 of byte 7 for s < 21; no higher bit is ever set |
| CounterWalk.RoundKsnOrsInTheBit | dukpt/dukpt.go:88-92 | a round's working KSN keeps bytes 0-4 of the KSN and ORs the shift register's three low bytes into bytes 5, 6 and 7 |
| CounterWalk.ShiftRegisterBytes | dukpt/dukpt.go:86-92 | the one bit of `1 << shift` lands in KSN byte 7 for bits 0-7, byte 6 for bits 8-15 and byte 5 for bits 16-20, and the other two bytes stay zero |
| CounterWalk.ShiftsAreTheSetBits | dukpt/dukpt.go:85-87 | the loop visits the set counter bits in strictly ascending order, and a bit is visited if and only if it is set |
| CounterWalk.RoundCountIsPopCount | dukpt/dukpt.go:85-95 | the number of loop rounds equals the number of set counter bits |
| CounterWalk.NoShiftsForZero | dukpt/dukpt.go:85-87 | a zero counter runs no round |
| CounterWalk.OneShiftForOneBit | dukpt/dukpt.go:85-87 | the counter `1 << s` runs exactly one round, for bit s |
| CounterWalk.WalkIsChain | dukpt/dukpt.go:85-96 | the loop equals the chain of rounds over the set bits in ascending order, each round on `ksn[:8]` with only its own bit ORed in, so nothing carries over from one round's working KSN to the next |
| CounterWalk.WalkWithoutShifts | dukpt/dukpt.go:85-96 | with no set bit left, the loop returns the key unchanged |
| CounterWalk.WalkPanicsWithTheFirstRound | main.go:82-93 | if every round on an 8-byte KSN raises a slice panic, the loop raises it at the first set bit |
| CounterWalk.DeriveWithIsChain | dukpt/dukpt.go:78-99 | the derivation is the chain of loop rounds followed by the final round on the original KSN |
| CounterWalk.DeriveWithOneBit | dukpt/dukpt.go:78-99 | a counter with the single bit s runs one round on that bit's working KSN, then the final round on the KSN |
| CounterWalk.DeriveWithZeroCounter | dukpt/dukpt.go:78-99 | with an all-zero counter field, the derivation is the single final round on the starting key |
| CounterWalk.SevenByteKsnHasZeroCounter | dukpt/dukpt.go:79-81 | a 7-byte KSN has counter zero, because the missing bytes read as zero |
| Standalone.TripleDesEncrypt | main.go:12-20 | the demo's encryption succeeds exactly for a 24-byte key and at least 8 data bytes; any other key length, 16 included, is a key-size panic |
| Standalone.TripleDesDecrypt | main.go:23-31 | the same for decryption |
| Standalone.GenerateIpek | main.go:54-72 | the demo's IPEK generation always panics: with a short KSN or BDK it is a slice panic, and otherwise it is a key-size panic for the 16-byte key |
| Standalone.GenerateSessionKey | main.go:99-121 | the demo's session round always panics. A key under 8 bytes or a KSN under 10 is a slice panic. A 24-byte key is an XOR panic. Any other key is a key-size panic |
| Standalone.DeriveKey | main.go:75-96 | the demo's derivation always panics, and a KSN under 7 bytes is a slice panic |
| Standalone.DeriveKeyPanicsOnAnyCounterBit | main.go:82-105 | any set counter bit makes the demo's derivation raise a slice panic at its first loop round |
| Standalone.DeriveKeyZeroCounter | main.go:75-96 | with an all-zero counter field, the demo's derivation is its final session round alone |
| Standalone.DemoInputsPanic | main.go:135-148 | on the demo's own BDK and KSN, the demo's IPEK generation and key derivation panic where the library's succeed |
| Standalone.EncryptTransactionData | main.go:124-126 | the demo's data encryption succeeds exactly for a 24-byte key and at least 8 bytes |
| Standalone.DecryptTransactionData | main.go:129-131 | the demo's data decryption succeeds exactly for a 24-byte key and at least 8 bytes |
| Standalone.TransactionRoundTrip | main.go:124-131 | under a 24-byte key, decrypting the demo's encryption gives back the first 8 bytes |

## Left out

- `main`'s hex decoding and printing are not modelled. Only its two input constants appear, in `Standalone.DemoInputsPanic`.
- The DES rounds of `crypto/des` are an abstract function pair, so no cryptographic strength is claimed. The only assumption is that decryption inverts encryption (`Des.Inverts`), and only the round-trip lemmas use it.
- Slice capacity is not modelled; a slice bound is in range when it is at most the length.
  - Go accepts `s[:n]` up to the capacity, so the model panics on a short slice that Go might still accept.
  - `append` writing into a shared backing array is not modelled either. For example, `expandKey` can overwrite bytes of the caller's BDK beyond its sixteenth. Only returned values are modelled, not such side effects on the caller's buffers.
- The panic value is modelled only as its kind. The key-size error carries the key length; the message text is dropped.
- `xor` and `maskKSN` in `main.go` (main.go:34-51) are identical to `Xor` and `MaskKSN` in the library apart from the function names and the capitalisation of the XOR panic message, which the model does not carry. So `Dukpt.Xor` and `Dukpt.MaskKsn` model both.
- Standalone.GenerateIpek and Standalone.GenerateSessionKey stop at the step that always panics. The rest of their Go text (the variant key and the second encryption) is unreachable, so it is not written out.
- Standalone.DeriveKey states only that it always panics, and which panic it raises for a KSN under 7 bytes. Which panic it raises in the other cases is stated by `Standalone.DeriveKeyPanicsOnAnyCounterBit` and `Standalone.DeriveKeyZeroCounter`.

## Findings

| source | as written | input that shows it | evidently intended | confidence | as-written member | corrected member |
|---|---|---|---|---|---|---|
| main.go:12-20 | `tripleDESEncrypt` gives the key to `des.NewTripleDESCipher` unexpanded, and the IPEK key built from `bdk[:16]` is 16 bytes, so `generateIPEK` panics with a key-size error on every input | the demo BDK 0123456789ABCDEFFEDCBA9876543210 with KSN FFFF9876543210E00001 | expand a 16-byte key to K1‖K2‖K1 first, as the library's `TripleDESEncrypt` does, so that the IPEK exists whenever the BDK has 16 bytes and the KSN 8 | high; not executed | Standalone.GenerateIpek | Dukpt.GenerateIpek |
| main.go:105 | `generateSessionKey` copies the block from `ksn[2:10]`, but every loop round of `deriveKey` passes an 8-byte working KSN, so any nonzero transaction counter raises a slice panic | KSN FFFF9876543210E00001 (counter 1) with any IPEK | copy from `ksn[2:]` into the zeroed 8-byte buffer, as the library does, so that the derivation succeeds for every KSN of at least 7 bytes and a 16-byte IPEK | high; not executed | Standalone.DeriveKeyPanicsOnAnyCounterBit | Dukpt.DeriveKey |
