/** Capture bookkeeping: the checks DDR3.read_adc_block makes before a block
    read, and the way DDR3.save_data grows its (channel x reading) dataset one
    chunk of readings per block read. The block transfers themselves are
    inputs: each read is the byte buffer the transport filled. */
module Capture {
  import opened Results
  import opened Words
  import opened StreamDecode
  import Bits
  import Waveform

  /** DDR3.BLOCK_SIZE: bytes per block of the block pipes. */
  const BlockSize: nat := 2048

  /** DDR3.NUM_ADC_CHANNELS: 16-bit words per sample group in the DDR. */
  const NumAdcChannels: nat := 8

  datatype Pipe = AdcPipe | FgPipe

  /** The three failures of read_adc_block and the codes it returns for them. */
  datatype ReadError = BlockNotMultipleOf16 | BlockTooLarge | UnknownSource

  function ReadErrorCode(e: ReadError): int
  {
    match e
    case BlockNotMultipleOf16 => -1
    case BlockTooLarge => -2
    case UnknownSource => -11
  }

  /** The block read read_adc_block asks the transport for. */
  datatype BlockRead = BlockRead(pipe: Pipe, bufferLength: nat, blockSize: nat)

  /** The buffer read_adc_block reads into: `sampleSize` bytes, or without one
      a `bytearray` of `SAMPLE_SIZE` 64-bit zeros. */
  function BufferLength(sampleSize: Option<nat>): (n: nat)
    ensures sampleSize.Some? ==> n == sampleSize.value
    ensures sampleSize.None? ==> n == 8 * Waveform.SampleSize
  {
    match sampleSize
    case Some(n) => n
    case None => 8 * Waveform.SampleSize
  }

  /** DDR3.read_adc_block: the block size is checked first (a multiple of 16,
      at most 16384), then the source ('ADC' or 'FG'). */
  function ReadAdcBlock(blockSize: nat, source: string, sampleSize: Option<nat>): (r: Result<BlockRead, ReadError>)
    ensures r == Err(BlockNotMultipleOf16) <==> blockSize % 16 != 0
    ensures r == Err(BlockTooLarge) <==> blockSize % 16 == 0 && blockSize > 16384
    ensures r == Err(UnknownSource) <==>
      blockSize % 16 == 0 && blockSize <= 16384 && source != "ADC" && source != "FG"
    ensures r.Ok? ==> (r.value.blockSize == blockSize &&
      r.value.bufferLength == BufferLength(sampleSize) &&
      (r.value.pipe == AdcPipe <==> source == "ADC"))
  {
    if blockSize % 16 != 0 then Err(BlockNotMultipleOf16)
    else if blockSize > 16384 then Err(BlockTooLarge)
    else if source == "ADC" then Ok(BlockRead(AdcPipe, BufferLength(sampleSize), blockSize))
    else if source == "FG" then Ok(BlockRead(FgPipe, BufferLength(sampleSize), blockSize))
    else Err(UnknownSource)
  }

  /** The driver's own block size always passes both block checks, so only
      an unknown source can fail. */
  lemma ConfiguredBlockAccepted(source: string, sampleSize: Option<nat>)
    ensures ReadAdcBlock(BlockSize, source, sampleSize).Ok? <==> source == "ADC" || source == "FG"
  {
  }

  /** The checks accept block sizes that are not powers of two, such as 48,
      although the transport documents powers of two from 16 to 16384. */
  lemma NonPowerOfTwoAccepted()
    ensures ReadAdcBlock(48, "ADC", None).Ok?
    ensures ReadAdcBlock(0, "ADC", None).Ok?
  {
  }

  /** Every multiple of 16 up to 16384 passes the block checks, power of two
      or not; only the source can then fail. */
  lemma MultiplesOf16Accepted(blockSize: nat, source: string, sampleSize: Option<nat>)
    requires blockSize % 16 == 0 && blockSize <= 16384
    ensures ReadAdcBlock(blockSize, source, sampleSize).Ok? <==> source == "ADC" || source == "FG"
  {
  }

  /** Readings per ADC channel in one block read of `blkMultiples` blocks:
      `int(BLOCK_SIZE * blkMultiples / (NUM_ADC_CHANNELS * 2))`. */
  function ChunkSize(blkMultiples: nat): (c: nat)
    ensures c * 2 * NumAdcChannels == BlockSize * blkMultiples
  {
    BlockSize * blkMultiples / (NumAdcChannels * 2)
  }

  /** The stored dataset: one column of eight channel readings per sample,
      tagged with the bitfile version it was recorded with. */
  datatype Dataset = Dataset(columns: seq<seq<int>>, version: int)

  predicate Shaped(columns: seq<seq<int>>)
  {
    forall k :: 0 <= k < |columns| ==> |columns[k]| == NumAdcChannels
  }

  datatype SaveError =
    | VersionMismatch(stored: int, fpga: int)  // the exception before any resize
    | MissingChannel                           // KeyError: the legacy layout has four channels
    | EmptyChunkWrite                          // chunk 0: `data_set[:, -0:]` selects every stored column

  /** What save_data leaves behind: the dataset as stored, and either the new
      columns or the failure. */
  datatype SaveOutcome = SaveOutcome(dataset: Dataset, result: Result<seq<seq<int>>, SaveError>)

  function Zeros(count: nat): (z: seq<seq<int>>)
    ensures |z| == count && Shaped(z)
    ensures forall k :: 0 <= k < count ==> z[k] == seq(NumAdcChannels, _ => 0)
  {
    seq(count, _ => seq(NumAdcChannels, _ => 0))
  }

  /** The columns one block read contributes: column `j` holds sample `j` of
      each deswizzled TIMESTAMPS channel. */
  function BlockColumns(read: seq<Byte>, chunk: nat): (cols: seq<seq<int>>)
    requires |read| == GroupSize(Timestamps) * chunk
    ensures |cols| == chunk && Shaped(cols)
  {
    WholeBlock(read, chunk);
    var channels := Unswizzle(Timestamps, read).value;
    seq(chunk, j requires 0 <= j < chunk => seq(NumAdcChannels, c requires 0 <= c < NumAdcChannels => channels[c][j] as int))
  }

  lemma WholeBlock(read: seq<Byte>, chunk: nat)
    requires |read| == GroupSize(Timestamps) * chunk
    ensures Unswizzle(Timestamps, read).Ok?
    ensures forall c :: 0 <= c < NumAdcChannels ==> |Unswizzle(Timestamps, read).value[c]| == chunk
  {
    assert |read| % GroupSize(Timestamps) == 0 && |read| / GroupSize(Timestamps) == chunk by {
      Bits.DivModUnique(|read|, GroupSize(Timestamps), chunk, 0);
    }
    WholeGroupsDecode(Timestamps, read);
  }

  /** Reading `c` of column `j` is the little-endian word at the bytes the
      TIMESTAMPS layout assigns to channel `c`, sample `j`. */
  lemma BlockColumnsMeaning(read: seq<Byte>, chunk: nat, j: nat, c: nat)
    requires |read| == GroupSize(Timestamps) * chunk && j < chunk && c < NumAdcChannels
    ensures var at := Offset(Timestamps, Source(Timestamps, c), j);
      at + 1 < |read| && BlockColumns(read, chunk)[j][c] == Join(read[at], read[at + 1])
  {
    WholeBlock(read, chunk);
  }

  /** The number of chunks save_data writes: at least one, since the dataset
      is sized for the first chunk before the loop. */
  function Chunks(numRepeats: int): nat
  {
    if numRepeats < 1 then 1 else numRepeats
  }

  /** The columns of the first `n` block reads, in order. */
  function Blocks(buffers: seq<seq<Byte>>, chunk: nat, n: nat): (cols: seq<seq<int>>)
    requires n <= |buffers|
    requires forall r :: 0 <= r < |buffers| ==> |buffers[r]| == GroupSize(Timestamps) * chunk
    ensures |cols| == chunk * n && Shaped(cols)
  {
    if n == 0 then [] else Blocks(buffers, chunk, n - 1) + BlockColumns(buffers[n - 1], chunk)
  }

  /** Block read `r` occupies columns `r*chunk` to `(r+1)*chunk` of the new data. */
  lemma {:induction false} BlockAt(buffers: seq<seq<Byte>>, chunk: nat, n: nat, r: nat)
    requires n <= |buffers| && r < n
    requires forall i :: 0 <= i < |buffers| ==> |buffers[i]| == GroupSize(Timestamps) * chunk
    ensures r * chunk + chunk <= |Blocks(buffers, chunk, n)|
    ensures Blocks(buffers, chunk, n)[r * chunk .. r * chunk + chunk] == BlockColumns(buffers[r], chunk)
  {
    SpanBounds(r, n, chunk);
    var lo: nat := r * chunk;
    var prev := Blocks(buffers, chunk, n - 1);
    var last := BlockColumns(buffers[n - 1], chunk);
    var all := Blocks(buffers, chunk, n);
    assert all == prev + last;
    if r < n - 1 {
      BlockAt(buffers, chunk, n - 1, r);
      SliceOfPrefix(prev, last, lo, lo + chunk);
      assert all[lo .. lo + chunk] == prev[lo .. lo + chunk];
    } else {
      assert lo == |prev|;
      SliceAfterPrefix(prev, last, 0, chunk);
      assert all[lo .. lo + chunk] == last[0 .. chunk] == last;
    }
  }

  /** Where block `r` of `n` starts and ends, as offsets into the columns. */
  lemma SpanBounds(r: nat, n: nat, chunk: nat)
    requires r < n
    ensures r * chunk + chunk <= chunk * n
    ensures r < n - 1 ==> r * chunk + chunk <= chunk * (n - 1)
    ensures r == n - 1 ==> r * chunk == chunk * (n - 1)
  {
    Bits.MulMonotone(chunk, r + 1, n);
    if r < n - 1 {
      Bits.MulMonotone(chunk, r + 1, n - 1);
    }
  }

  /** A slice of the part after a prefix. */
  lemma SliceAfterPrefix<T>(a: seq<T>, b: seq<T>, lo: nat, hi: nat)
    requires lo <= hi <= |b|
    ensures (a + b)[|a| + lo .. |a| + hi] == b[lo .. hi]
  {
  }

  lemma SliceOfPrefix<T>(a: seq<T>, b: seq<T>, lo: nat, hi: nat)
    requires lo <= hi <= |a|
    ensures (a + b)[lo .. hi] == a[lo .. hi]
  {
  }

  /** The columns save_data adds: a chunk of zeros when no block is read,
      otherwise the columns of each block read in turn. */
  function NewColumns(buffers: seq<seq<Byte>>, chunk: nat, numRepeats: int): seq<seq<int>>
    requires numRepeats <= |buffers|
    requires forall r :: 0 <= r < |buffers| ==> |buffers[r]| == GroupSize(Timestamps) * chunk
  {
    if numRepeats < 1 then Zeros(chunk) else Blocks(buffers, chunk, numRepeats)
  }

  /** DDR3.save_data on the dataset `existing` (the 'adc' dataset of the file,
      if the file exists). `buffers[r]` is the buffer block read `r` filled.
      Appending checks the stored bitfile version before anything is resized;
      the ADC_NO_TIMESTAMPS layout fails at its first block, after the first
      chunk was allocated. With `blkMultiples == 0` the chunk is empty, and
      the first write to `data_set[:, -0:]`, which selects every column,
      fails on an appended dataset that already holds columns. Otherwise the dataset grows by one chunk per block
      read (one chunk when there are none), the stored columns are kept, and
      the new columns are returned. */
  method SaveData(existing: Option<Dataset>, append: bool, fpgaVersion: int, dialect: Dialect,
                  numRepeats: int, blkMultiples: nat, buffers: seq<seq<Byte>>)
    returns (out: SaveOutcome)
    requires existing.Some? ==> Shaped(existing.value.columns)
    requires numRepeats <= |buffers|
    requires forall r :: 0 <= r < |buffers| ==> |buffers[r]| == BlockSize * blkMultiples
    ensures var appending := append && existing.Some?;
      var base := if appending then existing.value.columns else [];
      var chunk := ChunkSize(blkMultiples);
      if appending && existing.value.version != fpgaVersion then
        out == SaveOutcome(existing.value, Err(VersionMismatch(existing.value.version, fpgaVersion)))
      else if dialect == AdcNoTimestamps && numRepeats >= 1 then
        out == SaveOutcome(Dataset(base + Zeros(chunk), fpgaVersion), Err(MissingChannel))
      else if chunk == 0 && numRepeats >= 1 && |base| > 0 then
        out == SaveOutcome(Dataset(base, fpgaVersion), Err(EmptyChunkWrite))
      else
        out == SaveOutcome(Dataset(base + NewColumns(buffers, chunk, numRepeats), fpgaVersion),
                           Ok(NewColumns(buffers, chunk, numRepeats)))
  {
    var chunk := ChunkSize(blkMultiples);
    assert forall r :: 0 <= r < |buffers| ==> |buffers[r]| == GroupSize(Timestamps) * chunk;
    var appending := append && existing.Some?;
    var base: seq<seq<int>>;
    if appending {
      if existing.value.version != fpgaVersion {
        return SaveOutcome(existing.value, Err(VersionMismatch(existing.value.version, fpgaVersion)));
      }
      base := existing.value.columns;
    } else {
      base := [];
    }
    var columns := base + Zeros(chunk);
    if dialect == AdcNoTimestamps && numRepeats >= 1 {
      return SaveOutcome(Dataset(columns, fpgaVersion), Err(MissingChannel));
    }
    if chunk == 0 && numRepeats >= 1 && |base| > 0 {
      assert columns == base;
      return SaveOutcome(Dataset(columns, fpgaVersion), Err(EmptyChunkWrite));
    }
    var repeat := 0;
    while repeat < numRepeats
      invariant 0 <= repeat <= |buffers| && (numRepeats >= 1 ==> repeat <= numRepeats)
      invariant numRepeats < 1 ==> repeat == 0
      invariant columns == base + Blocks(buffers, chunk, repeat) + Pending(chunk, repeat, numRepeats)
    {
      columns := base + Blocks(buffers, chunk, repeat + 1);
      repeat := repeat + 1;
      if repeat < numRepeats {
        columns := columns + Zeros(chunk);
      } else {
        EmptyTail(columns);
      }
    }
    PendingDone(base, buffers, chunk, numRepeats, repeat);
    assert columns[|base|..] == NewColumns(buffers, chunk, numRepeats);
    out := SaveOutcome(Dataset(columns, fpgaVersion), Ok(columns[|base|..]));
  }

  /** The chunk the dataset was last resized by and no block has filled yet. */
  function Pending(chunk: nat, repeat: nat, numRepeats: int): seq<seq<int>>
  {
    if repeat == 0 || repeat < numRepeats then Zeros(chunk) else []
  }

  lemma EmptyTail<T>(s: seq<T>)
    ensures s == s + []
  {
  }

  /** After the last block, the dataset is the stored columns and the new ones. */
  lemma PendingDone(base: seq<seq<int>>, buffers: seq<seq<Byte>>, chunk: nat, numRepeats: int, repeat: nat)
    requires repeat <= numRepeats <= |buffers| || (numRepeats < 1 && repeat == 0)
    requires numRepeats >= 1 ==> repeat == numRepeats
    requires forall r :: 0 <= r < |buffers| ==> |buffers[r]| == GroupSize(Timestamps) * chunk
    ensures base + Blocks(buffers, chunk, repeat) + Pending(chunk, repeat, numRepeats) ==
      base + NewColumns(buffers, chunk, numRepeats)
  {
    if numRepeats < 1 {
      assert Blocks(buffers, chunk, 0) == [];
      assert base + [] == base;
    } else {
      EmptyTail(base + Blocks(buffers, chunk, repeat));
    }
  }

  /** The columns save_data adds: one chunk per block read (one chunk when
      there are none), block `r` filling columns `r*chunk` to `(r+1)*chunk`. */
  lemma NewColumnsLayout(buffers: seq<seq<Byte>>, chunk: nat, numRepeats: int)
    requires numRepeats <= |buffers|
    requires forall r :: 0 <= r < |buffers| ==> |buffers[r]| == GroupSize(Timestamps) * chunk
    ensures var added := NewColumns(buffers, chunk, numRepeats);
      |added| == chunk * Chunks(numRepeats) && Shaped(added) &&
      forall r :: 0 <= r < numRepeats ==>
        r * chunk + chunk <= |added| && added[r * chunk .. r * chunk + chunk] == BlockColumns(buffers[r], chunk)
  {
    forall r | 0 <= r < numRepeats
      ensures r * chunk + chunk <= |NewColumns(buffers, chunk, numRepeats)|
      ensures NewColumns(buffers, chunk, numRepeats)[r * chunk .. r * chunk + chunk] == BlockColumns(buffers[r], chunk)
    {
      BlockAt(buffers, chunk, numRepeats, r);
    }
  }
}
