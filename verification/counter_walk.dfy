/** The transaction-counter walk of `DeriveKey`.

    Both copies of the key derivation (the library's `DeriveKey` and the
    stand-alone `deriveKey`) read a 21-bit counter from `ksn[7:]`, then visit
    the counter bits from bit 0 up to bit 20 and run one session-key round for
    each bit that is set, on a working KSN rebuilt for that bit alone; a final
    round on the original KSN follows. The two loops are the same text and differ
    only in the round function they call, so the loop is modelled once here,
    parameterised by that round function.

    `Walk` follows the loop shape of the source. `Shifts`, `Trace` and `Chain`
    give an independent description of the same computation (which bits are
    visited, which working KSN each round sees, and the rounds applied in
    order); `WalkIsChain` connects the two. */
module CounterWalk {
  import opened GoRuntime

  /** Number of counter bits the loop visits. */
  const CounterWidth: nat := 21

  /** A session-key round: current key and KSN to the next key. */
  type Round = (Bytes, Bytes) -> Outcome<Bytes>

  /** The loop's `bit := 1 << shift`. */
  function ShiftRegister(shift: nat): bv32
    requires shift < 32
  {
    1 << shift
  }

  /** The loop's test `counter & bit != 0`. */
  predicate BitSet(x: bv32, shift: nat)
    requires shift < 32
  {
    x & (1 << shift) != 0
  }

  /** Three bytes combined big-endian into the low 24 bits of a word. */
  function Join(hi: Byte, mid: Byte, lo: Byte): bv32 {
    ((hi as bv32) << 16) | ((mid as bv32) << 8) | (lo as bv32)
  }

  /** Bit `k` of a byte. */
  predicate ByteBitSet(b: Byte, k: nat)
    requires k < 8
  {
    b & (1 << k) != 0
  }

  /** The counter as read from `rest == ksn[7:]`: three bytes copied into a
      zeroed buffer, the top three bits of the first one cleared, and the three
      combined big-endian into one 32-bit word. */
  function Counter(rest: Bytes): (ctr: bv32)
    ensures ctr < 1 << CounterWidth
    ensures ctr == 0 <==> ByteAt(rest, 0) & 0x1F == 0 && ByteAt(rest, 1) == 0 && ByteAt(rest, 2) == 0
  {
    var copied := Fresh(3, rest);
    var counter := copied[0 := copied[0] & 0x1F];
    Join(counter[0], counter[1], counter[2])
  }

  /** Each bit of the counter is the corresponding bit of the KSN's last
      three bytes: bits 0-7 come from `ksn[9]`, bits 8-15 from `ksn[8]`, bits
      16-20 from the low five bits of `ksn[7]`, and no higher bit is ever set. */
  lemma CounterBitsAreKsnBits(rest: Bytes, s: nat)
    requires s < 32
    ensures BitSet(Counter(rest), s) <==>
      if s < 8 then ByteBitSet(ByteAt(rest, 2), s)
      else if s < 16 then ByteBitSet(ByteAt(rest, 1), s - 8)
      else if s < CounterWidth then ByteBitSet(ByteAt(rest, 0), s - 16)
      else false
  {
    var hi, mid, lo := ByteAt(rest, 0), ByteAt(rest, 1), ByteAt(rest, 2);
    CounterIsJoin(rest);
    if s < 8 {
      JoinLowBits(hi & 0x1F, mid, lo, s);
    } else if s < 16 {
      JoinMiddleBits(hi & 0x1F, mid, lo, s);
    } else if s < CounterWidth {
      JoinHighBits(hi, mid, lo, s);
    } else {
      JoinNoHigherBits(hi, mid, lo, s);
    }
  }

  /** The counter is the three bytes after masking, combined big-endian. */
  lemma CounterIsJoin(rest: Bytes)
    ensures Counter(rest) == Join(ByteAt(rest, 0) & 0x1F, ByteAt(rest, 1), ByteAt(rest, 2))
  {
  }

  /** Where each bit of a joined word comes from. */
  lemma JoinLowBits(hi: Byte, mid: Byte, lo: Byte, s: nat)
    requires s < 8
    ensures BitSet(Join(hi, mid, lo), s) <==> ByteBitSet(lo, s)
  {
  }

  lemma JoinMiddleBits(hi: Byte, mid: Byte, lo: Byte, s: nat)
    requires 8 <= s < 16
    ensures BitSet(Join(hi, mid, lo), s) <==> ByteBitSet(mid, s - 8)
  {
  }

  lemma JoinHighBits(hi: Byte, mid: Byte, lo: Byte, s: nat)
    requires 16 <= s < CounterWidth
    ensures BitSet(Join(hi & 0x1F, mid, lo), s) <==> ByteBitSet(hi, s - 16)
  {
  }

  lemma JoinNoHigherBits(hi: Byte, mid: Byte, lo: Byte, s: nat)
    requires CounterWidth <= s < 32
    ensures !BitSet(Join(hi & 0x1F, mid, lo), s)
  {
  }

  /** The three bytes of the shift register that the loop ORs into KSN
      bytes 5, 6 and 7: `byte((bit >> 16) & 0xFF)`, `byte((bit >> 8) & 0xFF)`
      and `byte(bit & 0xFF)`. */
  function HighByte(bit: bv32): Byte {
    ((bit >> 16) & 0xFF) as bv8
  }

  function MiddleByte(bit: bv32): Byte {
    ((bit >> 8) & 0xFF) as bv8
  }

  function LowByte(bit: bv32): Byte {
    (bit & 0xFF) as bv8
  }

  /** The working KSN of a loop round whose shift register holds `bit`
      (`1 << shift` in the loop): a fresh copy of `ksn[:8]` with the register's
      low three bytes ORed, big-endian, into bytes 5, 6 and 7. */
  function RoundKsn(head: Bytes, bit: bv32): (r: Bytes)
    requires |head| == 8
    ensures |r| == 8
  {
    head[5 := head[5] | HighByte(bit)][6 := head[6] | MiddleByte(bit)][7 := head[7] | LowByte(bit)]
  }

  /** The working KSN agrees with `ksn[:8]` on bytes 0-4 and differs from it
      only by the register bytes ORed into bytes 5-7. */
  lemma RoundKsnOrsInTheBit(ksn: Bytes, bit: bv32)
    requires |ksn| >= 8
    ensures var w := RoundKsn(ksn[..8], bit);
      && w[..5] == ksn[..5]
      && w[5] == ksn[5] | HighByte(bit)
      && w[6] == ksn[6] | MiddleByte(bit)
      && w[7] == ksn[7] | LowByte(bit)
  {
    assert RoundKsn(ksn[..8], bit)[..5] == ksn[..8][..5];
  }

  /** `ByteBit[k]` is the byte with only bit `k` set. */
  const ByteBit: seq<Byte> := [0x01, 0x02, 0x04, 0x08, 0x10, 0x20, 0x40, 0x80]

  /** What `1 << shift` puts into bytes 5, 6 and 7 of the working KSN: its
      one bit lands in byte 7 for bits 0-7, in byte 6 for bits 8-15 and in byte
      5 for bits 16-20. */
  lemma ShiftRegisterBytes(shift: nat)
    requires shift < CounterWidth
    ensures var bit := ShiftRegister(shift);
      var b5, b6, b7 := HighByte(bit), MiddleByte(bit), LowByte(bit);
      && (shift < 8 ==> b5 == 0 && b6 == 0 && b7 == ByteBit[shift])
      && (8 <= shift < 16 ==> b5 == 0 && b6 == ByteBit[shift - 8] && b7 == 0)
      && (16 <= shift ==> b5 == ByteBit[shift - 16] && b6 == 0 && b7 == 0)
  {
  }

  /** The counter bits at or above `from` that the loop visits, in the order
      it visits them. */
  function Shifts(ctr: bv32, from: nat): (r: seq<nat>)
    requires from <= CounterWidth
    ensures forall i :: 0 <= i < |r| ==> from <= r[i] < CounterWidth
    decreases CounterWidth - from
  {
    if from == CounterWidth then []
    else if BitSet(ctr, from) then [from] + Shifts(ctr, from + 1)
    else Shifts(ctr, from + 1)
  }

  /** The loop runs a round for exactly the set counter bits at or above
      `from`, each once, in strictly ascending order. */
  lemma {:induction false} ShiftsAreTheSetBits(ctr: bv32, from: nat)
    requires from <= CounterWidth
    ensures forall i, j :: 0 <= i < j < |Shifts(ctr, from)| ==> Shifts(ctr, from)[i] < Shifts(ctr, from)[j]
    ensures forall s :: from <= s < CounterWidth ==> (s in Shifts(ctr, from) <==> BitSet(ctr, s))
    decreases CounterWidth - from
  {
    if from < CounterWidth {
      ShiftsAreTheSetBits(ctr, from + 1);
    }
  }

  /** The set counter bits. */
  ghost function SetBits(ctr: bv32): set<nat> {
    set s: nat | s < CounterWidth && BitSet(ctr, s)
  }

  /** The distinct values a sequence holds. */
  ghost function Elements(xs: seq<nat>): set<nat> {
    set x | x in xs
  }

  /** The elements of a strictly ascending sequence are all distinct. */
  lemma {:induction false} AscendingHasDistinctElements(xs: seq<nat>)
    requires forall i, j :: 0 <= i < j < |xs| ==> xs[i] < xs[j]
    ensures |Elements(xs)| == |xs|
  {
    if xs != [] {
      var tail := xs[1..];
      AscendingHasDistinctElements(tail);
      assert xs[0] !in Elements(tail) by {
        forall i | 0 <= i < |tail|
          ensures tail[i] != xs[0]
        {
          assert xs[0] < xs[i + 1];
        }
      }
      assert Elements(xs) == Elements(tail) + {xs[0]};
    }
  }

  /** The loop runs popcount(ctr) rounds. */
  lemma RoundCountIsPopCount(ctr: bv32)
    ensures |Shifts(ctr, 0)| == |SetBits(ctr)|
  {
    var xs := Shifts(ctr, 0);
    ShiftsAreTheSetBits(ctr, 0);
    AscendingHasDistinctElements(xs);
    assert Elements(xs) == SetBits(ctr);
  }

  /** A zero counter gives no rounds at all. */
  lemma NoShiftsForZero(from: nat)
    requires from <= CounterWidth
    ensures Shifts(0, from) == []
  {
    ShiftsAreTheSetBits(0, from);
    if Shifts(0, from) != [] {
      assert Shifts(0, from)[0] in Shifts(0, from);
    }
  }

  /** Bit `t` of `1 << s` is set exactly when `t == s`. */
  lemma SingleBit(s: nat, t: nat)
    requires s < CounterWidth && t < CounterWidth
    ensures BitSet(1 << s, t) <==> t == s
  {
  }

  /** A counter whose only set bit is `s` gives exactly one round, for bit `s`. */
  lemma OneShiftForOneSetBit(ctr: bv32, s: nat)
    requires s < CounterWidth
    requires forall t :: 0 <= t < CounterWidth ==> (BitSet(ctr, t) <==> t == s)
    ensures Shifts(ctr, 0) == [s]
  {
    ShiftsFromOneSetBit(ctr, s, 0);
  }

  /** From `from <= s` on, only bit `s` is set: one round, for `s`. */
  lemma {:induction false} ShiftsFromOneSetBit(ctr: bv32, s: nat, from: nat)
    requires from <= s < CounterWidth
    requires forall t :: from <= t < CounterWidth ==> (BitSet(ctr, t) <==> t == s)
    ensures Shifts(ctr, from) == [s]
    decreases s - from
  {
    if from == s {
      ShiftsWithoutSetBits(ctr, s + 1);
    } else {
      ShiftsFromOneSetBit(ctr, s, from + 1);
    }
  }

  /** No set bit from `from` on: no round. */
  lemma {:induction false} ShiftsWithoutSetBits(ctr: bv32, from: nat)
    requires from <= CounterWidth
    requires forall t :: from <= t < CounterWidth ==> !BitSet(ctr, t)
    ensures Shifts(ctr, from) == []
    decreases CounterWidth - from
  {
    if from < CounterWidth {
      ShiftsWithoutSetBits(ctr, from + 1);
    }
  }

  /** The counter `1 << s` gives exactly one round, for bit `s`. */
  lemma OneShiftForOneBit(s: nat)
    requires s < CounterWidth
    ensures Shifts(1 << s, 0) == [s]
  {
    var one: bv32 := 1 << s;
    forall t | 0 <= t < CounterWidth
      ensures BitSet(one, t) <==> t == s
    {
      SingleBit(s, t);
    }
    OneShiftForOneSetBit(one, s);
  }

  /** The working KSNs of the rounds for `shifts`, in order. Each one is built
      from `ksn[:8]` and its own bit only: nothing carries over from one round
      to the next. */
  function Trace(head: Bytes, shifts: seq<nat>): (r: seq<Bytes>)
    requires |head| == 8
    requires forall i :: 0 <= i < |shifts| ==> shifts[i] < CounterWidth
    ensures |r| == |shifts|
    ensures forall i :: 0 <= i < |r| ==> r[i] == RoundKsn(head, ShiftRegister(shifts[i]))
  {
    seq(|shifts|, i requires 0 <= i < |shifts| => RoundKsn(head, ShiftRegister(shifts[i])))
  }

  /** The rounds applied one after another, each to the key the previous
      round produced, stopping at the first panic. */
  function Chain(round: Round, key: Bytes, ksns: seq<Bytes>): Outcome<Bytes>
    decreases |ksns|
  {
    if ksns == [] then Ok(key)
    else
      var next :- round(key, ksns[0]);
      Chain(round, next, ksns[1..])
  }

  /** The loop `for shift := from; shift < 21; shift++`, one iteration per
      call: a set bit runs a round on a fresh copy of `ksn[:8]` with that bit
      ORed in. */
  function Walk(round: Round, key: Bytes, ksn: Bytes, ctr: bv32, shift: nat): Outcome<Bytes>
    requires shift <= CounterWidth
    decreases CounterWidth - shift
  {
    if shift == CounterWidth then Ok(key)
    else if BitSet(ctr, shift) then
      var head :- Prefix(ksn, 8);
      var next :- round(key, RoundKsn(head, ShiftRegister(shift)));
      Walk(round, next, ksn, ctr, shift + 1)
    else
      Walk(round, key, ksn, ctr, shift + 1)
  }

  /** The loop runs one round per set counter bit, in ascending order, each on
      its own working KSN. */
  lemma {:induction false} WalkIsChain(round: Round, key: Bytes, ksn: Bytes, ctr: bv32, from: nat)
    requires |ksn| >= 8 && from <= CounterWidth
    ensures Walk(round, key, ksn, ctr, from) == Chain(round, key, Trace(ksn[..8], Shifts(ctr, from)))
    decreases CounterWidth - from
  {
    if from < CounterWidth {
      var head := ksn[..8];
      var rest := Trace(head, Shifts(ctr, from + 1));
      if BitSet(ctr, from) {
        var w := RoundKsn(head, ShiftRegister(from));
        TraceCons(head, from, Shifts(ctr, from + 1));
        ChainCons(round, key, w, rest);
        var step := round(key, w);
        if step.Ok? {
          WalkIsChain(round, step.value, ksn, ctr, from + 1);
        }
      } else {
        WalkIsChain(round, key, ksn, ctr, from + 1);
      }
    }
  }

  /** The trace of a leading bit is that bit's working KSN, then the rest. */
  lemma TraceCons(head: Bytes, s: nat, shifts: seq<nat>)
    requires |head| == 8 && s < CounterWidth
    requires forall i :: 0 <= i < |shifts| ==> shifts[i] < CounterWidth
    ensures Trace(head, [s] + shifts) == [RoundKsn(head, ShiftRegister(s))] + Trace(head, shifts)
  {
  }

  /** A chain runs its first round, then the rest on that round's key. */
  lemma ChainCons(round: Round, key: Bytes, w: Bytes, ws: seq<Bytes>)
    ensures Chain(round, key, [w] + ws) == var next :- round(key, w); Chain(round, next, ws)
  {
    assert ([w] + ws)[1..] == ws;
  }

  /** When every round on an 8-byte working KSN panics with a slice error,
      the loop stops with that panic at the first set bit it visits. */
  lemma {:induction false} WalkPanicsWithTheFirstRound(round: Round, key: Bytes, ksn: Bytes, ctr: bv32, from: nat)
    requires from <= CounterWidth && Shifts(ctr, from) != []
    requires forall k: Bytes, w: Bytes :: |w| == 8 ==> round(k, w) == Panicked(SliceOutOfRange)
    ensures Walk(round, key, ksn, ctr, from) == Panicked(SliceOutOfRange)
    decreases CounterWidth - from
  {
    if !BitSet(ctr, from) {
      WalkPanicsWithTheFirstRound(round, key, ksn, ctr, from + 1);
    }
  }

  /** With no set bit left to visit the loop leaves the key as it is, whatever
      the length of the KSN. */
  lemma {:induction false} WalkWithoutShifts(round: Round, key: Bytes, ksn: Bytes, ctr: bv32, from: nat)
    requires from <= CounterWidth && Shifts(ctr, from) == []
    ensures Walk(round, key, ksn, ctr, from) == Ok(key)
    decreases CounterWidth - from
  {
    if from < CounterWidth {
      WalkWithoutShifts(round, key, ksn, ctr, from + 1);
    }
  }

  /** `DeriveKey` with the given round: read the counter, walk its bits from
      the starting key, then one last round on the original KSN. */
  function DeriveWith(round: Round, ipek: Bytes, ksn: Bytes): Outcome<Bytes> {
    var rest :- Suffix(ksn, 7);
    var cur :- Walk(round, ipek, ksn, Counter(rest), 0);
    round(cur, ksn)
  }

  /** For a KSN of at least 8 bytes the derivation is the chain of rounds over
      the set counter bits in ascending order, followed by the final round on
      the original KSN. */
  lemma DeriveWithIsChain(round: Round, ipek: Bytes, ksn: Bytes)
    requires |ksn| >= 8
    ensures DeriveWith(round, ipek, ksn) ==
              var cur :- Chain(round, ipek, Trace(ksn[..8], Shifts(Counter(ksn[7..]), 0)));
              round(cur, ksn)
  {
    ShiftsAreTheSetBits(Counter(ksn[7..]), 0);
    WalkIsChain(round, ipek, ksn, Counter(ksn[7..]), 0);
  }

  /** A KSN whose counter is the single bit `s` runs one loop round, on the
      working KSN for that bit, before the final round. */
  lemma DeriveWithOneBit(round: Round, ipek: Bytes, ksn: Bytes, s: nat)
    requires |ksn| >= 8 && s < CounterWidth
    requires Counter(ksn[7..]) == ShiftRegister(s)
    ensures DeriveWith(round, ipek, ksn) ==
              var once :- round(ipek, RoundKsn(ksn[..8], ShiftRegister(s)));
              round(once, ksn)
  {
    OneShiftForOneBit(s);
    DeriveWithIsChain(round, ipek, ksn);
    var trace := Trace(ksn[..8], [s]);
    assert trace == [RoundKsn(ksn[..8], ShiftRegister(s))];
    assert trace[1..] == [];
  }

  /** A KSN whose counter field is all zero runs no loop round: the derivation
      is the single final round on the starting key. */
  lemma DeriveWithZeroCounter(round: Round, ipek: Bytes, ksn: Bytes)
    requires |ksn| >= 7
    requires ByteAt(ksn, 7) & 0x1F == 0 && ByteAt(ksn, 8) == 0 && ByteAt(ksn, 9) == 0
    ensures DeriveWith(round, ipek, ksn) == round(ipek, ksn)
  {
    var rest := ksn[7..];
    assert ByteAt(rest, 0) == ByteAt(ksn, 7) && ByteAt(rest, 1) == ByteAt(ksn, 8) && ByteAt(rest, 2) == ByteAt(ksn, 9);
    NoShiftsForZero(0);
    WalkWithoutShifts(round, ipek, ksn, Counter(rest), 0);
  }

  /** A seven-byte KSN has an all-zero counter field. */
  lemma SevenByteKsnHasZeroCounter(ksn: Bytes)
    requires |ksn| == 7
    ensures Counter(ksn[7..]) == 0
  {
  }
}
