/** Byte strings and the pieces of Go's slice semantics that the DUKPT helpers
    rely on: slice expressions that panic when a bound is out of range, the
    `make` + `copy` idiom that yields a fresh zero-filled buffer, and the
    runtime panics themselves, carried as a failure value.

    Slice capacity is not modelled: a bound is in range when it is at most the
    length of the operand. */
module GoRuntime {

  type Byte = bv8
  type Bytes = seq<Byte>

  /** The panics the helpers can raise. */
  datatype Panic =
    | SliceOutOfRange            // s[lo:hi] with a bound beyond len(s)
    | XorLengthMismatch          // "Xor: lengths do not match"
    | InvalidKeySize(size: nat)  // des.NewTripleDESCipher given a key that is not 24 bytes
    | InputNotFullBlock          // Block.Encrypt/Decrypt given fewer than 8 bytes

  /** Either the value a Go function returns or the panic that stopped it. */
  datatype Outcome<+T> = Ok(value: T) | Panicked(panic: Panic) {

    predicate IsFailure() {
      Panicked?
    }

    function PropagateFailure<U>(): Outcome<U>
      requires Panicked?
    {
      Panicked(panic)
    }

    function Extract(): T
      requires Ok?
    {
      value
    }
  }

  /** The byte at index `i`, or zero past the end: what a zero-filled
      destination holds after `copy` from a shorter source. */
  function ByteAt(s: Bytes, i: nat): Byte {
    if i < |s| then s[i] else 0
  }

  /** `s[:n]` */
  function Prefix(s: Bytes, n: nat): (r: Outcome<Bytes>)
    ensures r.Ok? <==> n <= |s|
    ensures r.Ok? ==> |r.value| == n && r.value == s[..n]
    ensures r.Panicked? ==> r.panic == SliceOutOfRange
  {
    if n <= |s| then Ok(s[..n]) else Panicked(SliceOutOfRange)
  }

  /** `s[n:]` */
  function Suffix(s: Bytes, n: nat): (r: Outcome<Bytes>)
    ensures r.Ok? <==> n <= |s|
    ensures r.Ok? ==> |r.value| == |s| - n && r.value == s[n..]
    ensures r.Panicked? ==> r.panic == SliceOutOfRange
  {
    if n <= |s| then Ok(s[n..]) else Panicked(SliceOutOfRange)
  }

  /** `s[lo:hi]` */
  function Slice(s: Bytes, lo: nat, hi: nat): (r: Outcome<Bytes>)
    ensures r.Ok? <==> lo <= hi <= |s|
    ensures r.Ok? ==> |r.value| == hi - lo && r.value == s[lo..hi]
    ensures r.Panicked? ==> r.panic == SliceOutOfRange
  {
    if lo <= hi <= |s| then Ok(s[lo..hi]) else Panicked(SliceOutOfRange)
  }

  /** `dst := make([]byte, n); copy(dst, src)`: the first min(n, len(src))
      bytes come from `src`, the rest stay zero. */
  function Fresh(n: nat, src: Bytes): (r: Bytes)
    ensures |r| == n
    ensures forall i :: 0 <= i < n ==> r[i] == ByteAt(src, i)
    ensures n <= |src| ==> r == src[..n]
  {
    seq(n, i requires 0 <= i < n => ByteAt(src, i))
  }
}
