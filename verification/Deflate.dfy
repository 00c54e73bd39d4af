/**
 * A gzip file and the decoder that reads it.
 *
 * Huffman decoding is not modelled.  `Deflate` says what a file decodes to and where its blocks begin
 * (section 3.2.3 of RFC 1951); the decoder is a nondeterministic step that moves forward through it by
 * any amount that its input and output space allow.
 */
module DeflateStream {
  import opened Bytes

  const WINDOW_SIZE: nat := 32768

  /** Where a block begins: bit address in the file, byte address in the decompressed stream. */
  datatype Cut = Cut(bit: nat, raw: nat) {
    /** Address of the first compressed byte that holds no bit before the cut. */
    function ByteAddress(): (r: nat)
      ensures bit <= 8 * r < bit + 8
    {
      (bit + 7) / 8
    }
  }

  /** `cuts[i]` is the start of block `i`; the last cut is the end of the last block. */
  datatype Deflate = Deflate(file: seq<byte>, raw: seq<byte>, cuts: seq<Cut>) {
    function Blocks(): int { |cuts| - 1 }

    // The shortest block has 10 bits (header and end-of-block code); the trailer has 8 bytes.
    predicate WellFormed() {
      && |cuts| >= 2 && cuts[0].raw == 0 && cuts[0].bit >= 80 && cuts[0].bit % 8 == 0
      && cuts[Blocks()].raw == |raw|
      && cuts[Blocks()].ByteAddress() + 8 <= |file|
      && (forall i: nat, j: nat {:trigger Ascend(i, j)} :: i < j < |cuts| ==> Ascend(i, j))
    }

    lemma BlockFits(b: nat)
      requires WellFormed() && b < Blocks()
      ensures cuts[b].bit + 10 <= cuts[b + 1].bit && cuts[b].raw <= cuts[b + 1].raw <= |raw|
      ensures cuts[b + 1].ByteAddress() + 8 <= |file|
      ensures cuts[0].bit <= cuts[b].bit
    {
      assert Ascend(b, b + 1);
      assert b + 1 < Blocks() ==> Ascend(b + 1, Blocks());
      assert b > 0 ==> Ascend(0, b);
    }

    predicate Ascend(i: nat, j: nat)
      requires i < j < |cuts|
    {
      cuts[i].bit + 10 <= cuts[j].bit && cuts[i].raw <= cuts[j].raw
    }
  }

  /** The last 32 KiB before `at`, or all there is, are in the back of `context`. */
  predicate WindowHolds(context: seq<byte>, raw: seq<byte>, at: nat) {
    && |context| == WINDOW_SIZE && at <= |raw|
    && forall k :: WINDOW_SIZE - Min(at, WINDOW_SIZE) <= k < WINDOW_SIZE ==> context[k] == raw[at - WINDOW_SIZE + k]
  }

  /** The `n` highest bits of a byte. */
  function HighBits(b: byte, n: nat): nat
    requires n <= 8
  {
    b / [256, 128, 64, 32, 16, 8, 4, 2, 1][n]
  }

  const POW2: seq<nat> := [1, 2, 4, 8, 16, 32, 64, 128, 256]

  /** Bit `i` of a number, counted from the lowest. */
  function Bit(b: nat, i: nat): nat {
    if i == 0 then b % 2 else Bit(b / 2, i - 1)
  }

  /** The number that the bits of `b` from `i` up to `n` make. */
  function FromBits(b: nat, i: nat, n: nat): nat
    requires i <= n
    decreases n - i
  {
    if i == n then 0 else Bit(b, i) + 2 * FromBits(b, i + 1, n)
  }

  /** A number below 2^n is made of its first `n` bits. */
  lemma {:induction false} NumberIsBits(b: nat, n: nat)
    requires n <= 8 && b < POW2[n]
    ensures FromBits(b, 0, n) == b
  {
    if n > 0 {
      assert POW2[n] == 2 * POW2[n - 1];
      NumberIsBits(b / 2, n - 1);
      BitsOfHalf(b, 0, n - 1);
    }
  }

  lemma {:induction false} BitsOfHalf(b: nat, i: nat, n: nat)
    requires i <= n
    ensures FromBits(b, i + 1, n + 1) == FromBits(b / 2, i, n)
    decreases n - i
  {
    if i < n { BitsOfHalf(b, i + 1, n); }
  }

  lemma HalfFirst(b: nat, k: nat)
    requires 0 < k <= 8
    ensures b / POW2[k] == b / 2 / POW2[k - 1]
  {
    assert k == 1 || k == 2 || k == 3 || k == 4 || k == 5 || k == 6 || k == 7 || k == 8;
  }

  /** Bit `i` after a shift by `k` is bit `k + i` before it. */
  lemma {:induction false} ShiftedBit(b: nat, k: nat, i: nat)
    requires k <= 8
    ensures Bit(b / POW2[k], i) == Bit(b, k + i)
    decreases k
  {
    if k > 0 {
      HalfFirst(b, k);
      ShiftedBit(b / 2, k - 1, i);
    }
  }

  /** The highest bits of a byte, in order, are its highest bits as a number. */
  lemma HighBitsAre(b: byte, n: nat)
    requires n <= 8
    ensures HighBits(b, n) < POW2[n] && forall i :: 0 <= i < n ==> Bit(HighBits(b, n), i) == Bit(b, 8 - n + i)
  {
    forall i | 0 <= i < n ensures Bit(HighBits(b, n), i) == Bit(b, 8 - n + i) {
      ShiftedBit(b, 8 - n, i);
    }
  }

  /** Bit `at` of a file, in the order in which a decoder takes them: from the lowest bit of each byte on. */
  function FileBit(file: seq<byte>, at: nat): nat
    requires at / 8 < |file|
  {
    Bit(file[at / 8], at % 8)
  }

  datatype ZReturn = Z_OK | Z_STREAM_END | Z_BUF_ERROR | Z_DATA_ERROR

  /**
   * Position of a decoder: `fed` compressed bytes taken, `raw` bytes put out, and the block it is in
   * (-1 in the gzip header, `Blocks()` after the last block).  `boundary`, `last` and `bits` are what
   * it reports about the place where it stopped.
   */
  datatype Decoder = Decoder(wrapped: bool, fed: nat, raw: nat, block: int,
                             boundary: bool, last: bool, bits: nat, done: bool)

  predicate Placed(d: Deflate, s: Decoder)
    requires d.WellFormed()
  {
    match s
    case Decoder(wrapped, fed, raw, block, boundary, last, bits, done) =>
      && -1 <= block <= d.Blocks() && fed <= |d.file| && raw <= |d.raw|
      && (block == -1 ==> wrapped && raw == 0 && fed < d.cuts[0].ByteAddress())
      && (0 <= block < d.Blocks() ==>
            && d.cuts[block].raw <= raw <= d.cuts[block + 1].raw
            && d.cuts[block].ByteAddress() <= fed <= d.cuts[block + 1].ByteAddress()
            && (raw < d.cuts[block + 1].raw || fed < d.cuts[block + 1].ByteAddress()))
      && (block == d.Blocks() ==>
            && raw == |d.raw|
            && (if wrapped then d.cuts[block].ByteAddress() <= fed else fed == d.cuts[block].ByteAddress()))
      && (boundary ==> 0 <= block && AtCut(d, s))
      && (if done then block == d.Blocks() else fed < |d.file|)
  }

  /** The decoder stands at the start of its block, and reports it. */
  predicate AtCut(d: Deflate, s: Decoder)
    requires 0 <= s.block < |d.cuts|
  {
    var cut := d.cuts[s.block];
    && s.raw == cut.raw && s.fed == cut.ByteAddress()
    && s.bits == 8 * s.fed - cut.bit
    && (s.last <==> s.block == d.Blocks())
  }

  /**
   * One call of the decoder with `availIn` bytes of input and room for `availOut` bytes.  In block mode
   * it stops, and reports, at every block boundary.
   */
  predicate Step(d: Deflate, s: Decoder, availIn: nat, availOut: nat, blockMode: bool, t: Decoder, ret: ZReturn)
    requires d.WellFormed()
  {
    && Placed(d, t) && t.wrapped == s.wrapped
    && s.fed <= t.fed <= s.fed + availIn && s.raw <= t.raw <= s.raw + availOut && s.block <= t.block
    && (t.done <==> ret == Z_STREAM_END)
    && ret != Z_DATA_ERROR
    && (ret == Z_OK ==> t.fed > s.fed || t.raw > s.raw)
    && (ret == Z_BUF_ERROR ==> t.fed == s.fed && t.raw == s.raw && (availIn == 0 || availOut == 0))
    && (blockMode && !s.done ==>
          && t.block <= s.block + 1 && (t.boundary <==> t.block > s.block)
          && (ret == Z_STREAM_END ==> s.block == d.Blocks()))
    && (s.done ==> t == s && ret == Z_STREAM_END)
  }

  /** There is always a step: the decoder is never stuck. */
  lemma StepExists(d: Deflate, s: Decoder, availIn: nat, availOut: nat, blockMode: bool) returns (t: Decoder, ret: ZReturn)
    requires d.WellFormed() && Placed(d, s) && (!s.done ==> s.fed + availIn <= |d.file|)
    ensures Step(d, s, availIn, availOut, blockMode, t, ret)
  {
    var here := s.(boundary := false);
    if s.done {
      return s, Z_STREAM_END;
    } else if availIn == 0 || availOut == 0 {
      return here, Z_BUF_ERROR;
    } else if s.block == d.Blocks() {
      if !s.wrapped {
        return here.(done := true), Z_STREAM_END;
      } else if s.fed + availIn == |d.file| {
        return here.(fed := |d.file|, done := true), Z_STREAM_END;
      }
      return here.(fed := s.fed + availIn), Z_OK;
    }
    var next := d.cuts[s.block + 1];
    d.BlockFits(if s.block == -1 then 0 else s.block);
    if s.block + 1 < d.Blocks() { d.BlockFits(s.block + 1); }
    if s.fed + availIn < next.ByteAddress() {
      return here.(fed := s.fed + availIn), Z_OK;
    } else if s.raw + availOut < next.raw {
      return here.(raw := s.raw + availOut), Z_OK;
    }
    t := Decoder(s.wrapped, next.ByteAddress(), next.raw, s.block + 1, true, s.block + 1 == d.Blocks(),
                 8 * next.ByteAddress() - next.bit, false);
    return t, Z_OK;
  }

  /** Takes some step, any one. */
  method AnyStep(d: Deflate, s: Decoder, availIn: nat, availOut: nat, blockMode: bool) returns (t: Decoder, ret: ZReturn)
    requires d.WellFormed() && Placed(d, s) && (!s.done ==> s.fed + availIn <= |d.file|)
    ensures Step(d, s, availIn, availOut, blockMode, t, ret)
  {
    ghost var t0, ret0 := StepExists(d, s, availIn, availOut, blockMode);
    t, ret :| Step(d, s, availIn, availOut, blockMode, t, ret);
  }

  /** `input` is what the file holds at `at`. */
  ghost predicate FromFile(d: Deflate, at: nat, input: seq<byte>) {
    at + |input| <= |d.file| && forall k :: 0 <= k < |input| ==> input[k] == d.file[at + k]
  }

  function Rest(input: seq<byte>, n: nat): seq<byte>
    requires n <= |input|
  {
    seq(|input| - n, i requires 0 <= i < |input| - n => input[n + i])
  }

  /** The block that begins at a bit address. */
  method BlockAt(d: Deflate, bit: nat, ghost block: nat) returns (i: nat)
    requires d.WellFormed() && block < d.Blocks() && d.cuts[block].bit == bit
    ensures i == block
  {
    i := 0;
    while d.cuts[i].bit != bit
      invariant i <= block
      decreases block - i
    {
      i := i + 1;
    }
    assert i < block ==> d.Ascend(i, block);
  }

  /** Writes the next `n` bytes of the stream, or any `n` bytes, to `out`. */
  method Emit(d: Deflate, trusted: bool, raw: nat, n: nat, out: array<byte>, at: nat)
    requires raw + n <= |d.raw| && at + n <= out.Length
    modifies out
    ensures forall j :: 0 <= j < out.Length && !(at <= j < at + n) ==> out[j] == old(out[j])
    ensures trusted ==> forall j :: at <= j < at + n ==> out[j] == d.raw[raw + j - at]
  {
    var before := out[..];
    if trusted {
      CopyBytes(d.raw, raw, n, out, at);
    } else {
      var anything := new byte[n];
      CopyBytes(anything[..], 0, n, out, at);
    }
    assert forall j :: 0 <= j < out.Length ==> out[j] == out[..][j] && before[j] == old(out[j]);
  }

  /** The decompression state that a caller shares with the decoder. */
  class ZStream {
    var nextIn: seq<byte>  // input not yet taken
    var nextOut: nat       // index of the next output byte in the caller's buffer
    var availOut: nat
    var s: Decoder
    var trusted: bool      // the dictionary was the true window, so that the output is the true stream

    ghost predicate Valid(d: Deflate)
      requires d.WellFormed()
      reads this
    {
      Placed(d, s) && (!s.done ==> FromFile(d, s.fed, nextIn))
    }

    /** A decoder for a whole gzip file. */
    constructor InflateInit(d: Deflate)
      requires d.WellFormed()
      ensures Valid(d) && trusted && nextIn == [] && !s.done && availOut == 0
      ensures s.block == -1 && s.fed == 0 && s.raw == 0
    {
      nextIn, nextOut, availOut, trusted := [], 0, 0, true;
      s := Decoder(true, 0, 0, -1, false, false, 0, false);
    }

    /**
     * A raw decoder that starts inside a file, at a block: `primed` are the `bits` bits of the byte
     * before `address` with which the block begins, and `context` becomes the dictionary.
     */
    constructor InflateInitAt(d: Deflate, address: nat, bits: nat, primed: nat, context: seq<byte>, ghost block: nat)
      requires d.WellFormed() && block < d.Blocks() && |context| == WINDOW_SIZE
      requires address == d.cuts[block].ByteAddress() && bits == 8 * address - d.cuts[block].bit
      requires bits > 0 ==> 0 < address <= |d.file| && bits <= 8 && primed < POW2[bits]
      requires forall i :: 0 <= i < bits ==> d.cuts[block].bit + i < 8 * |d.file| && Bit(primed, i) == FileBit(d.file, d.cuts[block].bit + i)
      ensures Valid(d) && nextIn == [] && !s.done && availOut == 0
      ensures s.block == block && s.fed == address && s.raw == d.cuts[block].raw
      ensures trusted <==> WindowHolds(context, d.raw, d.cuts[block].raw)
    {
      d.BlockFits(block);
      var i := BlockAt(d, 8 * address - bits, block);
      nextIn, nextOut, availOut := [], 0, 0;
      trusted := WindowHolds(context, d.raw, d.cuts[i].raw);
      s := Decoder(false, address, d.cuts[i].raw, i, false, false, 0, false);
    }

    /**
     * Decompresses some input into `out`.  What a trusted decoder writes is the true stream; the output
     * of another has the same length, since lengths do not depend on the dictionary.
     */
    method Inflate(d: Deflate, blockMode: bool, out: array<byte>) returns (ret: ZReturn)
      requires d.WellFormed() && Valid(d) && nextOut + availOut <= out.Length
      modifies this`nextIn, this`nextOut, this`availOut, this`s, out
      ensures Valid(d) && Step(d, old(s), |old(nextIn)|, old(availOut), blockMode, s, ret)
      ensures |nextIn| == |old(nextIn)| - (s.fed - old(s).fed)
      ensures availOut == old(availOut) - (s.raw - old(s).raw) && nextOut == old(nextOut) + (s.raw - old(s).raw)
      ensures forall j :: 0 <= j < out.Length && !(old(nextOut) <= j < nextOut) ==> out[j] == old(out[j])
      ensures trusted ==> forall j :: old(nextOut) <= j < nextOut ==> out[j] == d.raw[old(s).raw + j - old(nextOut)]
    {
      var t;
      t, ret := AnyStep(d, s, |nextIn|, availOut, blockMode);
      var produced := t.raw - s.raw;
      Emit(d, trusted, s.raw, produced, out, nextOut);
      nextIn := Rest(nextIn, t.fed - s.fed);
      nextOut, availOut, s := nextOut + produced, availOut - produced, t;
    }
  }
}
