/** The stand-alone demo program's own copy of the DUKPT helpers.

    Its `xor` and `maskKSN` are identical to the library's `Xor` and
    `MaskKSN` apart from the function names and the capitalisation of the XOR
    panic message, which the model does not carry, so they are reused from
    `Dukpt`. What differs is the Triple-DES wrapper,
    which hands the key to the key schedule as it is instead of first
    stretching a 16-byte key to 24 bytes, and the session round, which copies
    the block out of `ksn[2:10]` instead of `ksn[2:]`. The first makes every
    16-byte key a key-size panic; the second makes every loop round of the
    key derivation a slice panic, because a round's working KSN is 8 bytes
    long. Each operation is modelled as written and its contract says which
    panic it raises on which input. */
module Standalone {
  import opened GoRuntime
  import Des
  import CounterWalk
  import Dukpt

  /** tripleDESEncrypt: only a 24-byte key is accepted. */
  function TripleDesEncrypt(c: Des.Cipher, key: Bytes, data: Bytes): (r: Outcome<Bytes>)
    ensures r.Ok? <==> |key| == Des.KeySize && |data| >= Des.BlockSize
    ensures r.Ok? ==> r.value == c.encrypt(key, data[..Des.BlockSize])
    ensures |key| != Des.KeySize ==> r == Panicked(InvalidKeySize(|key|))
    ensures |key| == Des.KeySize && |data| < Des.BlockSize ==> r == Panicked(InputNotFullBlock)
  {
    var k :- Des.NewTripleDesCipher(key);
    Des.Encrypt(c, k, data)
  }

  /** tripleDESDecrypt: only a 24-byte key is accepted. */
  function TripleDesDecrypt(c: Des.Cipher, key: Bytes, data: Bytes): (r: Outcome<Bytes>)
    ensures r.Ok? <==> |key| == Des.KeySize && |data| >= Des.BlockSize
    ensures r.Ok? ==> r.value == c.decrypt(key, data[..Des.BlockSize])
    ensures |key| != Des.KeySize ==> r == Panicked(InvalidKeySize(|key|))
    ensures |key| == Des.KeySize && |data| < Des.BlockSize ==> r == Panicked(InputNotFullBlock)
  {
    var k :- Des.NewTripleDesCipher(key);
    Des.Decrypt(c, k, data)
  }

  /** generateIPEK never returns: the KSN must have 8 bytes and the BDK 16,
      and the 16-byte key built from the BDK is then refused by the key
      schedule. */
  function GenerateIpek(c: Des.Cipher, bdk: Bytes, ksn: Bytes): (r: Outcome<Bytes>)
    ensures r.Panicked?
    ensures r.panic == if |ksn| >= 8 && |bdk| >= 16 then InvalidKeySize(16) else SliceOutOfRange
  {
    var ksnMasked :- Dukpt.MaskKsn(ksn);
    var key1 :- Prefix(bdk, 16);
    var leftKey, rightKey := key1[..8], key1[8..];
    // The key is 16 bytes long, so the first encryption never returns and
    // the variant key and second encryption that follow it are unreachable.
    match TripleDesEncrypt(c, leftKey + rightKey, ksnMasked)
    case Panicked(p) => Panicked(p)
  }

  /** generateSessionKey never returns either. A key under 8 bytes or a KSN
      under 10 fails to slice; a 24-byte key passes the first encryption and
      then fails the XOR of its 16-byte right half; any other key, 16 bytes
      included, is refused by the key schedule. */
  function GenerateSessionKey(c: Des.Cipher, key: Bytes, ksn: Bytes): (r: Outcome<Bytes>)
    ensures r.Panicked?
    ensures |key| < 8 || |ksn| < 10 ==> r.panic == SliceOutOfRange
    ensures |key| >= 8 && |ksn| >= 10 && |key| == Des.KeySize ==> r.panic == XorLengthMismatch
    ensures |key| >= 8 && |ksn| >= 10 && |key| != Des.KeySize ==> r.panic == InvalidKeySize(|key|)
  {
    var leftKey :- Prefix(key, 8);
    var rightKey := Suffix(key, 8).value;  // in range once key[:8] is
    var copied :- Slice(ksn, 2, 10);
    var block := Fresh(8, copied);
    var ksnMasked := block[5 := block[5] & 0xE0][6 := 0][7 := 0];
    var encLeft :- TripleDesEncrypt(c, leftKey + rightKey, ksnMasked);
    var leftKeyMasked := Dukpt.Xor(leftKey, Dukpt.SessionKeyMask).value;  // both 8 bytes long
    // Only a 24-byte key gets this far, so its right half is 16 bytes long,
    // the XOR below never returns and the second encryption is unreachable.
    match Dukpt.Xor(rightKey, Dukpt.SessionKeyMask)
    case Panicked(p) => Panicked(p)
  }

  /** `generateSessionKey` as the round function of the counter walk. */
  function SessionRound(c: Des.Cipher): CounterWalk.Round {
    (key, ksn) => GenerateSessionKey(c, key, ksn)
  }

  /** deriveKey: the library's loop with the stand-alone session round. */
  function DeriveKey(c: Des.Cipher, ipek: Bytes, ksn: Bytes): (r: Outcome<Bytes>)
    ensures r.Panicked?
    ensures |ksn| < 7 ==> r.panic == SliceOutOfRange
  {
    CounterWalk.DeriveWith(SessionRound(c), ipek, ksn)
  }

  /** Any set counter bit stops the derivation at its first loop round: the
      round's working KSN is 8 bytes long and `ksn[2:10]` is out of range. */
  lemma DeriveKeyPanicsOnAnyCounterBit(c: Des.Cipher, ipek: Bytes, ksn: Bytes, s: nat)
    requires |ksn| >= 7 && s < CounterWalk.CounterWidth
    requires CounterWalk.BitSet(CounterWalk.Counter(ksn[7..]), s)
    ensures DeriveKey(c, ipek, ksn) == Panicked(SliceOutOfRange)
  {
    var ctr := CounterWalk.Counter(ksn[7..]);
    CounterWalk.ShiftsAreTheSetBits(ctr, 0);
    CounterWalk.WalkPanicsWithTheFirstRound(SessionRound(c), ipek, ksn, ctr, 0);
  }

  /** With an all-zero counter field no loop round runs and the derivation
      is the final session round alone, which panics in turn. */
  lemma DeriveKeyZeroCounter(c: Des.Cipher, ipek: Bytes, ksn: Bytes)
    requires |ksn| >= 7
    requires ByteAt(ksn, 7) & 0x1F == 0 && ByteAt(ksn, 8) == 0 && ByteAt(ksn, 9) == 0
    ensures DeriveKey(c, ipek, ksn) == GenerateSessionKey(c, ipek, ksn)
  {
    CounterWalk.DeriveWithZeroCounter(SessionRound(c), ipek, ksn);
  }

  /** The demo's BDK and KSN, decoded from 0123456789ABCDEFFEDCBA9876543210
      and FFFF9876543210E00001. */
  const DemoBdk: Bytes := [0x01, 0x23, 0x45, 0x67, 0x89, 0xAB, 0xCD, 0xEF, 0xFE, 0xDC, 0xBA, 0x98, 0x76, 0x54, 0x32, 0x10]
  const DemoKsn: Bytes := [0xFF, 0xFF, 0x98, 0x76, 0x54, 0x32, 0x10, 0xE0, 0x00, 0x01]

  /** On the demo's own inputs the stand-alone IPEK generation panics where
      the library's succeeds, and so does the key derivation, whatever IPEK
      it is given: the demo KSN has transaction counter 1. */
  lemma DemoInputsPanic(c: Des.Cipher, ipek: Bytes)
    requires |ipek| == 16
    ensures GenerateIpek(c, DemoBdk, DemoKsn) == Panicked(InvalidKeySize(16))
    ensures Dukpt.GenerateIpek(c, DemoBdk, DemoKsn).Ok?
    ensures DeriveKey(c, ipek, DemoKsn) == Panicked(SliceOutOfRange)
    ensures Dukpt.DeriveKey(c, ipek, DemoKsn).Ok?
  {
    assert CounterWalk.Counter(DemoKsn[7..]) == 1;
    DeriveKeyPanicsOnAnyCounterBit(c, ipek, DemoKsn, 0);
  }

  /** encryptTransactionData: the session key goes to the key schedule as it
      is. */
  function EncryptTransactionData(c: Des.Cipher, sessionKey: Bytes, data: Bytes): (r: Outcome<Bytes>)
    ensures r.Ok? <==> |sessionKey| == Des.KeySize && |data| >= Des.BlockSize
    ensures r.Ok? ==> |r.value| == Des.BlockSize
    ensures |sessionKey| != Des.KeySize ==> r == Panicked(InvalidKeySize(|sessionKey|))
  {
    TripleDesEncrypt(c, sessionKey, data)
  }

  /** decryptTransactionData: the session key goes to the key schedule as it
      is. */
  function DecryptTransactionData(c: Des.Cipher, sessionKey: Bytes, encrypted: Bytes): (r: Outcome<Bytes>)
    ensures r.Ok? <==> |sessionKey| == Des.KeySize && |encrypted| >= Des.BlockSize
    ensures r.Ok? ==> |r.value| == Des.BlockSize
    ensures |sessionKey| != Des.KeySize ==> r == Panicked(InvalidKeySize(|sessionKey|))
  {
    TripleDesDecrypt(c, sessionKey, encrypted)
  }

  /** Under a 24-byte session key, decrypting an encrypted block gives back
      the first eight bytes of the data. */
  lemma TransactionRoundTrip(c: Des.Cipher, sessionKey: Bytes, data: Bytes)
    requires Des.Inverts(c)
    requires |sessionKey| == Des.KeySize && |data| >= Des.BlockSize
    ensures EncryptTransactionData(c, sessionKey, data).Ok?
    ensures DecryptTransactionData(c, sessionKey, EncryptTransactionData(c, sessionKey, data).value)
            == Ok(data[..Des.BlockSize])
  {
    var k: Des.Key := sessionKey;
    var b: Des.Block := data[..Des.BlockSize];
    var e := EncryptTransactionData(c, sessionKey, data).value;
    assert e[..Des.BlockSize] == e == c.encrypt(k, b);
  }
}
