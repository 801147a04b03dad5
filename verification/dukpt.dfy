/** The library version of the key-derivation helpers (package `dukpt`).

    Triple-DES is the abstract `Des.Cipher`; every 16-byte key is expanded to
    K1 || K2 || K1 before it reaches the cipher. Every Go panic is a
    `Panicked` outcome, so each operation states exactly which inputs succeed.

    What this version does differs from the ANSI X9.24-1 reference procedure,
    and the model follows this version: the session round XORs the key halves
    with FF FF FF FF 00 00 00 00 (the standard uses C0 C0 C0 C0 00 00 00 00),
    both halves come from a Triple-DES encryption (the standard uses single DES
    and an XOR), and each loop round's working KSN is rebuilt from the caller's
    KSN rather than accumulated. */
module Dukpt {
  import opened GoRuntime
  import Des
  import CounterWalk

  /** XORed into both BDK halves to key the second half of the IPEK. */
  const BdkVariantMask: Bytes := [0xC0, 0xC0, 0xC0, 0xC0, 0x00, 0x00, 0x00, 0x00]

  /** XORed into both key halves to key the second half of a session round. */
  const SessionKeyMask: Bytes := [0xFF, 0xFF, 0xFF, 0xFF, 0x00, 0x00, 0x00, 0x00]

  /** A double-length key becomes the triple-length key K1 || K2 || K1, which
      the 24-byte key schedule accepts; any other key is passed on as is. */
  function ExpandKey(key: Bytes): (r: Bytes)
    ensures |key| == 16 ==> |r| == 24 && r[..16] == key && r[16..] == r[..8]
    ensures |key| != 16 ==> r == key
  {
    if |key| == 16 then key + key[..8] else key
  }

  /** Triple-DES encryption of one block under a 16- or 24-byte key. */
  function TripleDesEncrypt(c: Des.Cipher, key: Bytes, data: Bytes): (r: Outcome<Bytes>)
    ensures r.Ok? <==> (|key| == 16 || |key| == 24) && |data| >= Des.BlockSize
    ensures r.Ok? ==> |r.value| == Des.BlockSize && r.value == c.encrypt(ExpandKey(key), data[..Des.BlockSize])
    ensures |key| != 16 && |key| != 24 ==> r == Panicked(InvalidKeySize(|key|))
    ensures (|key| == 16 || |key| == 24) && |data| < Des.BlockSize ==> r == Panicked(InputNotFullBlock)
  {
    var key24 :- Des.NewTripleDesCipher(ExpandKey(key));
    Des.Encrypt(c, key24, data)
  }

  /** Triple-DES decryption of one block under a 16- or 24-byte key. */
  function TripleDesDecrypt(c: Des.Cipher, key: Bytes, data: Bytes): (r: Outcome<Bytes>)
    ensures r.Ok? <==> (|key| == 16 || |key| == 24) && |data| >= Des.BlockSize
    ensures r.Ok? ==> |r.value| == Des.BlockSize && r.value == c.decrypt(ExpandKey(key), data[..Des.BlockSize])
    ensures |key| != 16 && |key| != 24 ==> r == Panicked(InvalidKeySize(|key|))
    ensures (|key| == 16 || |key| == 24) && |data| < Des.BlockSize ==> r == Panicked(InputNotFullBlock)
  {
    var key24 :- Des.NewTripleDesCipher(ExpandKey(key));
    Des.Decrypt(c, key24, data)
  }

  /** Byte-wise XOR of two byte strings of equal length. */
  function Xor(a: Bytes, b: Bytes): (r: Outcome<Bytes>)
    ensures r.Ok? <==> |a| == |b|
    ensures r.Panicked? ==> r.panic == XorLengthMismatch
    ensures r.Ok? ==> |r.value| == |a| && forall i :: 0 <= i < |a| ==> r.value[i] == a[i] ^ b[i]
  {
    if |a| != |b| then Panicked(XorLengthMismatch)
    else Ok(seq(|a|, i requires 0 <= i < |a| => a[i] ^ b[i]))
  }

  /** XORing with the same mask twice gives back the original bytes, and the
      operands may be swapped. */
  lemma XorUndoesItself(a: Bytes, b: Bytes)
    requires |a| == |b|
    ensures Xor(Xor(a, b).value, b) == Ok(a)
    ensures Xor(b, a) == Xor(a, b)
  {
    var ab := Xor(a, b).value;
    assert forall i :: 0 <= i < |a| ==> ab[i] ^ b[i] == a[i];
    assert Xor(ab, b).value == a;
    assert Xor(b, a).value == ab;
  }

  /** The first eight bytes of a KSN with the 5 counter bits of byte 7
      cleared: the device part the IPEK is derived from. */
  function MaskKsn(ksn: Bytes): (r: Outcome<Bytes>)
    ensures r.Ok? <==> |ksn| >= 8
    ensures r.Panicked? ==> r.panic == SliceOutOfRange
    ensures r.Ok? ==> |r.value| == 8 && r.value[..7] == ksn[..7] && r.value[7] == ksn[7] & 0xE0
  {
    var head :- Prefix(ksn, 8);
    var masked := Fresh(8, head);
    Ok(masked[7 := masked[7] & 0xE0])
  }

  /** Masking a masked KSN changes nothing. */
  lemma MaskKsnIdempotent(ksn: Bytes)
    requires |ksn| >= 8
    ensures MaskKsn(MaskKsn(ksn).value) == MaskKsn(ksn)
  {
    var m := MaskKsn(ksn).value;
    assert MaskKsn(m).value == m;
  }

  /** Two KSNs mask alike exactly when they agree on bytes 0-6 and on the top
      three bits of byte 7: the counter bits and every byte from 8 on are
      invisible. */
  lemma MaskKsnSeesOnlyDeviceBits(a: Bytes, b: Bytes)
    requires |a| >= 8 && |b| >= 8
    ensures MaskKsn(a) == MaskKsn(b) <==> a[..7] == b[..7] && a[7] & 0xE0 == b[7] & 0xE0
  {
    if a[..7] == b[..7] && a[7] & 0xE0 == b[7] & 0xE0 {
      assert MaskKsn(a).value == MaskKsn(b).value;
    }
  }

  /** Reference definition of a key variant: every byte of `key` XORed with
      the byte of the 8-byte `mask` at the same offset within its half. */
  function Variant(key: Bytes, mask: Bytes): (r: Bytes)
    requires |key| == 16 && |mask| == 8
    ensures |r| == 16
  {
    seq(16, i requires 0 <= i < 16 => key[i] ^ mask[i % 8])
  }

  /** XORing both halves separately with the mask and concatenating them is
      the variant of the whole key. */
  lemma HalvesXorIsVariant(key: Bytes, mask: Bytes)
    requires |key| == 16 && |mask| == 8
    ensures Xor(key[..8], mask).Ok? && Xor(key[8..], mask).Ok?
    ensures Xor(key[..8], mask).value + Xor(key[8..], mask).value == Variant(key, mask)
  {
    var l := Xor(key[..8], mask).value;
    var r := Xor(key[8..], mask).value;
    var v := Variant(key, mask);
    forall i | 0 <= i < 16
      ensures (l + r)[i] == v[i]
    {
      if i < 8 {
        assert (l + r)[i] == l[i] == key[i] ^ mask[i];
      } else {
        assert (l + r)[i] == r[i - 8] == key[i] ^ mask[i - 8];
        assert i % 8 == i - 8;
      }
    }
  }

  /** Two blocks joined into a 16-byte key are its two halves. */
  lemma HalvesOfJoinedBlocks(left: Bytes, right: Bytes)
    requires |left| == 8 && |right| == 8
    ensures |left + right| == 16 && (left + right)[..8] == left && (left + right)[8..] == right
  {
  }

  /** The Initial PIN Encryption Key: the masked KSN encrypted under the BDK
      (left half) and under its C0C0C0C0 variant (right half). Only the first
      16 bytes of the BDK are used. */
  function GenerateIpek(c: Des.Cipher, bdk: Bytes, ksn: Bytes): (r: Outcome<Bytes>)
    ensures r.Ok? <==> |bdk| >= 16 && |ksn| >= 8
    ensures r.Panicked? ==> r.panic == SliceOutOfRange
    ensures r.Ok? ==>
      && |r.value| == 16
      && r.value[..8] == c.encrypt(ExpandKey(bdk[..16]), MaskKsn(ksn).value)
      && r.value[8..] == c.encrypt(ExpandKey(Variant(bdk[..16], BdkVariantMask)), MaskKsn(ksn).value)
  {
    var ksnMasked :- MaskKsn(ksn);
    var key1 :- Prefix(bdk, 16);
    var leftKey := key1[..8];
    var rightKey := key1[8..];
    assert leftKey + rightKey == key1;
    // With both slices in range, none of the remaining calls can panic.
    var ipekLeft := TripleDesEncrypt(c, leftKey + rightKey, ksnMasked).value;
    var leftVariant := Xor(leftKey, BdkVariantMask).value;
    var rightVariant := Xor(rightKey, BdkVariantMask).value;
    HalvesXorIsVariant(key1, BdkVariantMask);
    var ipekRight := TripleDesEncrypt(c, leftVariant + rightVariant, ksnMasked).value;
    assert ksnMasked[..Des.BlockSize] == ksnMasked;
    HalvesOfJoinedBlocks(ipekLeft, ipekRight);
    Ok(ipekLeft + ipekRight)
  }

  /** The IPEK is blind to the transaction counter: KSNs that agree on bytes
      0-6 and on the top three bits of byte 7 give the same IPEK, whatever
      their counter bits and bytes 8 and 9 hold. Bytes of the BDK beyond the
      sixteenth are ignored too. */
  lemma GenerateIpekIgnoresCounter(c: Des.Cipher, bdk: Bytes, ksn: Bytes, ksn': Bytes)
    requires |ksn| >= 8 && |ksn'| >= 8
    requires ksn[..7] == ksn'[..7] && ksn[7] & 0xE0 == ksn'[7] & 0xE0
    ensures GenerateIpek(c, bdk, ksn) == GenerateIpek(c, bdk, ksn')
    ensures |bdk| >= 16 ==> GenerateIpek(c, bdk, ksn) == GenerateIpek(c, bdk[..16], ksn)
  {
    MaskKsnSeesOnlyDeviceBits(ksn, ksn');
    if |bdk| >= 16 {
      assert bdk[..16][..16] == bdk[..16];
    }
  }

  /** The block a session round encrypts: `ksn[2:]` copied into 8 zeroed
      bytes, the counter bits of byte 5 cleared and bytes 6 and 7 zeroed.
      Bytes missing from a short KSN read as zero. */
  function SessionBlock(ksn: Bytes): (r: Des.Block)
    requires |ksn| >= 2
    ensures forall i :: 0 <= i < 5 ==> r[i] == ByteAt(ksn, i + 2)
    ensures r[5] == ByteAt(ksn, 7) & 0xE0 && r[6] == 0 && r[7] == 0
    ensures |ksn| >= 8 ==> r == ksn[2..7] + [ksn[7] & 0xE0, 0, 0]
  {
    var block := Fresh(8, ksn[2..]);
    block[5 := block[5] & 0xE0][6 := 0][7 := 0]
  }

  /** One session-key round: the session block encrypted under the key (left
      half) and under its FFFFFFFF variant (right half). Only a 16-byte key
      gets through: a shorter one fails to slice, one of another length is
      refused by the key schedule, and a 24-byte one passes the first
      encryption and then fails the XOR of its 16-byte right half. */
  function GenerateSessionKey(c: Des.Cipher, key: Bytes, ksn: Bytes): (r: Outcome<Bytes>)
    ensures r.Ok? <==> |key| == 16 && |ksn| >= 2
    ensures r.Ok? ==> |r.value| == 16
    ensures |key| < 8 || |ksn| < 2 ==> r == Panicked(SliceOutOfRange)
    ensures |key| >= 8 && |ksn| >= 2 && |key| != 16 && |key| != 24 ==> r == Panicked(InvalidKeySize(|key|))
    ensures |key| == 24 && |ksn| >= 2 ==> r == Panicked(XorLengthMismatch)
  {
    var leftKey :- Prefix(key, 8);
    var rightKey := Suffix(key, 8).value;  // in range once key[:8] is
    var _ :- Suffix(ksn, 2);
    var ksnMasked := SessionBlock(ksn);
    assert leftKey + rightKey == key;
    var encLeft :- TripleDesEncrypt(c, leftKey + rightKey, ksnMasked);
    var leftKeyMasked := Xor(leftKey, SessionKeyMask).value;  // both 8 bytes long
    var rightKeyMasked :- Xor(rightKey, SessionKeyMask);
    // Both halves are 8 bytes long here, so the second encryption cannot panic.
    var encRight := TripleDesEncrypt(c, leftKeyMasked + rightKeyMasked, ksnMasked).value;
    Ok(encLeft + encRight)
  }

  /** A successful session round is the session block encrypted under the key
      (left half) and under its FFFFFFFF variant (right half). */
  lemma SessionKeyHalves(c: Des.Cipher, key: Bytes, ksn: Bytes)
    requires |key| == 16 && |ksn| >= 2
    ensures GenerateSessionKey(c, key, ksn).Ok?
    ensures GenerateSessionKey(c, key, ksn).value[..8] == c.encrypt(ExpandKey(key), SessionBlock(ksn))
    ensures GenerateSessionKey(c, key, ksn).value[8..] == c.encrypt(ExpandKey(Variant(key, SessionKeyMask)), SessionBlock(ksn))
  {
    var block := SessionBlock(ksn);
    assert key[..8] + key[8..] == key;
    assert block[..Des.BlockSize] == block;
    HalvesXorIsVariant(key, SessionKeyMask);
    var left: Bytes := c.encrypt(ExpandKey(key), block);
    var right: Bytes := c.encrypt(ExpandKey(Variant(key, SessionKeyMask)), block);
    assert GenerateSessionKey(c, key, ksn) == Ok(left + right);
    HalvesOfJoinedBlocks(left, right);
  }

  /** A session round reads the KSN only through its session block. */
  lemma SessionKeyReadsOnlyTheBlock(c: Des.Cipher, key: Bytes, a: Bytes, b: Bytes)
    requires |a| >= 2 && |b| >= 2 && SessionBlock(a) == SessionBlock(b)
    ensures GenerateSessionKey(c, key, a) == GenerateSessionKey(c, key, b)
  {
    if |key| == 16 {
      SessionKeyHalves(c, key, a);
      SessionKeyHalves(c, key, b);
      var ra, rb := GenerateSessionKey(c, key, a).value, GenerateSessionKey(c, key, b).value;
      assert ra == ra[..8] + ra[8..] && rb == rb[..8] + rb[8..];
    }
  }

  /** `GenerateSessionKey` as the round function of the counter walk. */
  function SessionRound(c: Des.Cipher): CounterWalk.Round {
    (key, ksn) => GenerateSessionKey(c, key, ksn)
  }

  /** Session rounds applied in sequence to KSNs of at least two bytes
      succeed exactly when there are none or the starting key has 16 bytes,
      and then leave a 16-byte key. */
  lemma {:induction false} SessionChainOutcome(c: Des.Cipher, key: Bytes, ksns: seq<Bytes>)
    requires forall i :: 0 <= i < |ksns| ==> |ksns[i]| >= 2
    ensures CounterWalk.Chain(SessionRound(c), key, ksns).Ok? <==> ksns == [] || |key| == 16
    ensures CounterWalk.Chain(SessionRound(c), key, ksns).Ok? && ksns != [] ==>
      |CounterWalk.Chain(SessionRound(c), key, ksns).value| == 16
    decreases |ksns|
  {
    if ksns != [] {
      var step := GenerateSessionKey(c, key, ksns[0]);
      if step.Ok? {
        SessionChainOutcome(c, step.value, ksns[1..]);
      }
    }
  }

  /** The derivation with session rounds succeeds exactly for a KSN of at
      least seven bytes and a 16-byte IPEK. */
  lemma DeriveWithSessionRounds(c: Des.Cipher, ipek: Bytes, ksn: Bytes)
    ensures CounterWalk.DeriveWith(SessionRound(c), ipek, ksn).Ok? <==> |ksn| >= 7 && |ipek| == 16
    ensures CounterWalk.DeriveWith(SessionRound(c), ipek, ksn).Ok? ==>
      |CounterWalk.DeriveWith(SessionRound(c), ipek, ksn).value| == 16
  {
    var round := SessionRound(c);
    if |ksn| == 7 {
      CounterWalk.DeriveWithZeroCounter(round, ipek, ksn);
    } else if |ksn| >= 8 {
      var ctr := CounterWalk.Counter(ksn[7..]);
      var trace := CounterWalk.Trace(ksn[..8], CounterWalk.Shifts(ctr, 0));
      CounterWalk.DeriveWithIsChain(round, ipek, ksn);
      SessionChainOutcome(c, ipek, trace);
    }
  }

  /** The transaction key for a KSN: one session round per set counter bit,
      from bit 0 up, starting from the IPEK, and a final round on the KSN
      itself. The counter is the low five bits of `ksn[7]` followed by
      `ksn[8]` and `ksn[9]`, missing bytes reading as zero. */
  function DeriveKey(c: Des.Cipher, ipek: Bytes, ksn: Bytes): (r: Outcome<Bytes>)
    ensures r.Ok? <==> |ksn| >= 7 && |ipek| == 16
    ensures r.Ok? ==> |r.value| == 16
  {
    DeriveWithSessionRounds(c, ipek, ksn);
    CounterWalk.DeriveWith(SessionRound(c), ipek, ksn)
  }

  /** With an all-zero counter field no loop round runs, and the transaction
      key is the single session round of the IPEK on the KSN. */
  lemma DeriveKeyZeroCounter(c: Des.Cipher, ipek: Bytes, ksn: Bytes)
    requires |ksn| >= 7
    requires ByteAt(ksn, 7) & 0x1F == 0 && ByteAt(ksn, 8) == 0 && ByteAt(ksn, 9) == 0
    ensures DeriveKey(c, ipek, ksn) == GenerateSessionKey(c, ipek, ksn)
  {
    CounterWalk.DeriveWithZeroCounter(SessionRound(c), ipek, ksn);
  }

  /** The block a loop round hands to the cipher is the session block of the
      caller's KSN with the shift register's high byte ORed into block byte
      3, its middle byte into block byte 4, and only the top three bits of its
      low byte into block byte 5: the low five bits are masked away with the
      counter. */
  lemma RoundBlockCarriesTheBit(ksn: Bytes, bit: bv32)
    requires |ksn| >= 8
    ensures var block, base := SessionBlock(CounterWalk.RoundKsn(ksn[..8], bit)), SessionBlock(ksn);
      && block[..3] == base[..3]
      && block[3] == base[3] | CounterWalk.HighByte(bit)
      && block[4] == base[4] | CounterWalk.MiddleByte(bit)
      && block[5] == base[5] | (CounterWalk.LowByte(bit) & 0xE0)
      && block[6..] == base[6..]
  {
    RoundBlockOutsideTheBit(ksn, bit);
    RoundBlockHighAndMiddle(ksn, bit);
    RoundBlockLow(ksn, bit);
  }

  lemma RoundBlockOutsideTheBit(ksn: Bytes, bit: bv32)
    requires |ksn| >= 8
    ensures var block, base := SessionBlock(CounterWalk.RoundKsn(ksn[..8], bit)), SessionBlock(ksn);
      block[..3] == base[..3] && block[6..] == base[6..]
  {
    CounterWalk.RoundKsnOrsInTheBit(ksn, bit);
    var w := CounterWalk.RoundKsn(ksn[..8], bit);
    assert w[2..5] == ksn[2..5];
  }

  lemma RoundBlockHighAndMiddle(ksn: Bytes, bit: bv32)
    requires |ksn| >= 8
    ensures var block, base := SessionBlock(CounterWalk.RoundKsn(ksn[..8], bit)), SessionBlock(ksn);
      block[3] == base[3] | CounterWalk.HighByte(bit) && block[4] == base[4] | CounterWalk.MiddleByte(bit)
  {
    CounterWalk.RoundKsnOrsInTheBit(ksn, bit);
  }

  lemma RoundBlockLow(ksn: Bytes, bit: bv32)
    requires |ksn| >= 8
    ensures var block, base := SessionBlock(CounterWalk.RoundKsn(ksn[..8], bit)), SessionBlock(ksn);
      block[5] == base[5] | (CounterWalk.LowByte(bit) & 0xE0)
  {
    CounterWalk.RoundKsnOrsInTheBit(ksn, bit);
    assert (ksn[7] | CounterWalk.LowByte(bit)) & 0xE0 == (ksn[7] & 0xE0) | (CounterWalk.LowByte(bit) & 0xE0);
  }

  /** The loop round for counter bit 0-4 encrypts exactly the block of the
      final round: its bit lands in the low five bits of KSN byte 7, which the
      session block clears. */
  lemma LowCounterBitsMaskedAway(ksn: Bytes, s: nat)
    requires |ksn| >= 8 && s < 5
    ensures SessionBlock(CounterWalk.RoundKsn(ksn[..8], CounterWalk.ShiftRegister(s))) == SessionBlock(ksn)
  {
    var bit := CounterWalk.ShiftRegister(s);
    CounterWalk.ShiftRegisterBytes(s);
    assert CounterWalk.ByteBit[s] & 0xE0 == 0;
    RoundBlockCarriesTheBit(ksn, bit);
    var block, base := SessionBlock(CounterWalk.RoundKsn(ksn[..8], bit)), SessionBlock(ksn);
    assert base[3] | 0 == base[3] && base[4] | 0 == base[4] && base[5] | 0 == base[5];
    BlocksAgreeBytewise(block, base);
  }

  /** The loop round for counter bit 5-20 encrypts the final round's block
      with that bit ORed in (unchanged when the KSN already has it set): bits
      5-7 land in block byte 5, bits 8-15 in byte 4 and bits 16-20 in byte 3. */
  lemma HighCounterBitsReachTheBlock(ksn: Bytes, s: nat)
    requires |ksn| >= 8 && 5 <= s < CounterWalk.CounterWidth
    ensures var block, base := SessionBlock(CounterWalk.RoundKsn(ksn[..8], CounterWalk.ShiftRegister(s))), SessionBlock(ksn);
      && block[..3] == base[..3] && block[6..] == base[6..]
      && block[3] == (if 16 <= s then base[3] | CounterWalk.ByteBit[s - 16] else base[3])
      && block[4] == (if 8 <= s < 16 then base[4] | CounterWalk.ByteBit[s - 8] else base[4])
      && block[5] == (if s < 8 then base[5] | CounterWalk.ByteBit[s] else base[5])
  {
    var bit := CounterWalk.ShiftRegister(s);
    CounterWalk.ShiftRegisterBytes(s);
    RoundBlockCarriesTheBit(ksn, bit);
    if s < 8 {
      assert CounterWalk.ByteBit[s] & 0xE0 == CounterWalk.ByteBit[s];
    }
  }

  /** The round for counter bit 5-20 ORs its bit into KSN byte 5, 6 or 7,
      which also hold device-ID bits. So it encrypts exactly the final round's
      block if and only if the KSN already has that bit set: which counter
      bits reach the cipher depends on the device ID. */
  lemma HighCounterBitHiddenByDeviceId(ksn: Bytes, s: nat)
    requires |ksn| >= 8 && 5 <= s < CounterWalk.CounterWidth
    ensures SessionBlock(CounterWalk.RoundKsn(ksn[..8], CounterWalk.ShiftRegister(s))) == SessionBlock(ksn) <==>
      if s < 8 then ksn[7] & CounterWalk.ByteBit[s] != 0
      else if s < 16 then ksn[6] & CounterWalk.ByteBit[s - 8] != 0
      else ksn[5] & CounterWalk.ByteBit[s - 16] != 0
  {
    if s < 8 {
      HiddenInByteSeven(ksn, s);
    } else if s < 16 {
      HiddenInByteSix(ksn, s);
    } else {
      HiddenInByteFive(ksn, s);
    }
  }

  /** Bits 5-7 meet device-ID bits 5-7 of KSN byte 7. */
  lemma HiddenInByteSeven(ksn: Bytes, s: nat)
    requires |ksn| >= 8 && 5 <= s < 8
    ensures SessionBlock(CounterWalk.RoundKsn(ksn[..8], CounterWalk.ShiftRegister(s))) == SessionBlock(ksn) <==>
      ksn[7] & CounterWalk.ByteBit[s] != 0
  {
    HighCounterBitsReachTheBlock(ksn, s);
    var block, base := SessionBlock(CounterWalk.RoundKsn(ksn[..8], CounterWalk.ShiftRegister(s))), SessionBlock(ksn);
    OrBitLeavesByte(base[5], s);
    ByteBitOfMaskedByte(ksn[7], s);
    if ksn[7] & CounterWalk.ByteBit[s] != 0 {
      BlocksAgreeBytewise(block, base);
    }
  }

  /** Bits 8-15 meet device-ID byte 6. */
  lemma HiddenInByteSix(ksn: Bytes, s: nat)
    requires |ksn| >= 8 && 8 <= s < 16
    ensures SessionBlock(CounterWalk.RoundKsn(ksn[..8], CounterWalk.ShiftRegister(s))) == SessionBlock(ksn) <==>
      ksn[6] & CounterWalk.ByteBit[s - 8] != 0
  {
    HighCounterBitsReachTheBlock(ksn, s);
    var block, base := SessionBlock(CounterWalk.RoundKsn(ksn[..8], CounterWalk.ShiftRegister(s))), SessionBlock(ksn);
    OrBitLeavesByte(base[4], s - 8);
    if ksn[6] & CounterWalk.ByteBit[s - 8] != 0 {
      BlocksAgreeBytewise(block, base);
    }
  }

  /** Bits 16-20 meet device-ID byte 5. */
  lemma HiddenInByteFive(ksn: Bytes, s: nat)
    requires |ksn| >= 8 && 16 <= s < CounterWalk.CounterWidth
    ensures SessionBlock(CounterWalk.RoundKsn(ksn[..8], CounterWalk.ShiftRegister(s))) == SessionBlock(ksn) <==>
      ksn[5] & CounterWalk.ByteBit[s - 16] != 0
  {
    HighCounterBitsReachTheBlock(ksn, s);
    var block, base := SessionBlock(CounterWalk.RoundKsn(ksn[..8], CounterWalk.ShiftRegister(s))), SessionBlock(ksn);
    OrBitLeavesByte(base[3], s - 16);
    if ksn[5] & CounterWalk.ByteBit[s - 16] != 0 {
      BlocksAgreeBytewise(block, base);
    }
  }

  /** ORing bit `k` into a byte leaves it unchanged exactly when the bit is
      already set. */
  lemma OrBitLeavesByte(x: Byte, k: nat)
    requires k < 8
    ensures x | CounterWalk.ByteBit[k] == x <==> x & CounterWalk.ByteBit[k] != 0
  {
    var b := CounterWalk.ByteBit[k];
    assert b == 0x01 || b == 0x02 || b == 0x04 || b == 0x08 || b == 0x10 || b == 0x20 || b == 0x40 || b == 0x80;
  }

  /** Bits 5-7 survive the `& 0xE0` of the session block. */
  lemma ByteBitOfMaskedByte(x: Byte, k: nat)
    requires 5 <= k < 8
    ensures (x & 0xE0) & CounterWalk.ByteBit[k] == x & CounterWalk.ByteBit[k]
  {
    var b := CounterWalk.ByteBit[k];
    assert b == 0x20 || b == 0x40 || b == 0x80;
  }

  /** Two blocks that agree on bytes 0-2, on bytes 3, 4 and 5 and on bytes
      6-7 are the same block. */
  lemma BlocksAgreeBytewise(a: Des.Block, b: Des.Block)
    requires a[..3] == b[..3] && a[3] == b[3] && a[4] == b[4] && a[5] == b[5] && a[6..] == b[6..]
    ensures a == b
  {
    forall i | 0 <= i < 8
      ensures a[i] == b[i]
    {
      if i < 3 {
        assert a[..3][i] == b[..3][i];
      } else if i >= 6 {
        assert a[6..][i - 6] == b[6..][i - 6];
      }
    }
  }

  /** The final round encrypts the same block for any two KSNs that agree on
      bytes 2-6 and on the top three bits of byte 7: it never sees the counter. */
  lemma FinalRoundIgnoresCounter(c: Des.Cipher, key: Bytes, ksn: Bytes, ksn': Bytes)
    requires |ksn| >= 8 && |ksn'| >= 8
    requires ksn[2..7] == ksn'[2..7] && ksn[7] & 0xE0 == ksn'[7] & 0xE0
    ensures SessionBlock(ksn) == SessionBlock(ksn')
    ensures GenerateSessionKey(c, key, ksn) == GenerateSessionKey(c, key, ksn')
  {
    SessionKeyReadsOnlyTheBlock(c, key, ksn, ksn');
  }

  /** A KSN whose counter is a single bit below bit 5 runs one loop round
      that sees exactly the final round's block, so its transaction key is two
      session rounds on the KSN's own block, whichever of those bits it is. */
  lemma SingleLowBitCounter(c: Des.Cipher, ipek: Bytes, ksn: Bytes, s: nat)
    requires |ksn| >= 8 && s < 5
    requires CounterWalk.Counter(ksn[7..]) == 1 << s
    ensures DeriveKey(c, ipek, ksn) ==
      var once :- GenerateSessionKey(c, ipek, ksn);
      GenerateSessionKey(c, once, ksn)
  {
    var w := CounterWalk.RoundKsn(ksn[..8], CounterWalk.ShiftRegister(s));
    CounterWalk.DeriveWithOneBit(SessionRound(c), ipek, ksn, s);
    LowCounterBitsMaskedAway(ksn, s);
    SessionKeyReadsOnlyTheBlock(c, ipek, w, ksn);
  }

  /** Transaction counters 1 and 2 of the same device give the same
      transaction key. */
  lemma CountersOneAndTwoShareKey(c: Des.Cipher, ipek: Bytes, ksn1: Bytes, ksn2: Bytes)
    requires |ksn1| == 10 && |ksn2| == 10 && ksn1[..9] == ksn2[..9]
    requires ksn1[7] & 0x1F == 0 && ksn1[8] == 0 && ksn1[9] == 1 && ksn2[9] == 2
    ensures DeriveKey(c, ipek, ksn1) == DeriveKey(c, ipek, ksn2)
  {
    var rest1, rest2 := ksn1[7..], ksn2[7..];
    assert ByteAt(rest1, 0) == ByteAt(rest2, 0) == ksn1[7] && ByteAt(rest1, 1) == ByteAt(rest2, 1) == 0;
    assert ByteAt(rest1, 2) == 1 && ByteAt(rest2, 2) == 2;
    CounterWalk.CounterIsJoin(rest1);
    CounterWalk.CounterIsJoin(rest2);
    assert CounterWalk.Counter(rest1) == 1 << 0;
    assert CounterWalk.Counter(rest2) == 1 << 1;
    SingleLowBitCounter(c, ipek, ksn1, 0);
    SingleLowBitCounter(c, ipek, ksn2, 1);
    FinalRoundIgnoresCounter(c, ipek, ksn1, ksn2);
    var once := GenerateSessionKey(c, ipek, ksn1);
    if once.Ok? {
      FinalRoundIgnoresCounter(c, once.value, ksn1, ksn2);
    }
  }

  /** Encryption of one transaction-data block under the session key. */
  function EncryptTransactionData(c: Des.Cipher, sessionKey: Bytes, data: Bytes): (r: Outcome<Bytes>)
    ensures r.Ok? <==> (|sessionKey| == 16 || |sessionKey| == 24) && |data| >= Des.BlockSize
    ensures r.Ok? ==> |r.value| == Des.BlockSize
  {
    TripleDesEncrypt(c, sessionKey, data)
  }

  /** Decryption of one transaction-data block under the session key. */
  function DecryptTransactionData(c: Des.Cipher, sessionKey: Bytes, encrypted: Bytes): (r: Outcome<Bytes>)
    ensures r.Ok? <==> (|sessionKey| == 16 || |sessionKey| == 24) && |encrypted| >= Des.BlockSize
    ensures r.Ok? ==> |r.value| == Des.BlockSize
  {
    TripleDesDecrypt(c, sessionKey, encrypted)
  }

  /** Decrypting an encrypted transaction block under the same session key
      gives back the (first eight bytes of the) data. */
  lemma TransactionRoundTrip(c: Des.Cipher, sessionKey: Bytes, data: Bytes)
    requires Des.Inverts(c)
    requires (|sessionKey| == 16 || |sessionKey| == 24) && |data| >= Des.BlockSize
    ensures EncryptTransactionData(c, sessionKey, data).Ok?
    ensures DecryptTransactionData(c, sessionKey, EncryptTransactionData(c, sessionKey, data).value)
            == Ok(data[..Des.BlockSize])
  {
    var k: Des.Key := ExpandKey(sessionKey);
    var b: Des.Block := data[..Des.BlockSize];
    var e := EncryptTransactionData(c, sessionKey, data).value;
    assert e[..Des.BlockSize] == e == c.encrypt(k, b);
  }
}
