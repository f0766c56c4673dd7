/**
 * The upload step of the demo: when the first SDRAM word is not the marker
 * left by an earlier upload, the frame-buffer file is copied into SDRAM in
 * fixed-size chunks, each chunk being checked word by word as it arrives;
 * then the whole region is checked once more.
 */
module Transfer {
  import opened Validator

  /** Number of frame buffers held in SDRAM. */
  const NumFramebuffers: nat := 2

  /** Words per frame buffer: one word per pixel of a 640 x 480 frame. */
  const FramebufferSize: nat := 640 * 480

  /** Words per chunk read from the file. */
  const BufferTransferSize: nat := 4096

  /** Span of the address-span expander, in bytes, against which the total is asserted. */
  const BridgesSpan: nat := 256 * 1024 * 1024

  /** Value of SDRAM word 0 that marks the frame buffers as already uploaded. */
  const Sentinel: Word := 0x4001_0594

  /** Words uploaded and checked: both frame buffers. */
  const TotalWords: nat := NumFramebuffers * FramebufferSize

  /** The program's constants pass both of its assertions, in 150 chunks. */
  lemma ProgramConfiguration()
    ensures TotalWords <= BridgesSpan
    ensures TotalWords % BufferTransferSize == 0
    ensures TotalWords / BufferTransferSize == 150
  {
  }

  function Min(a: nat, b: nat): nat
  {
    if a <= b then a else b
  }

  // ---------------------------------------------------------------------
  // Counting failing words

  /**
   * The number of words of `s` that `accept` rejects; the model applies it
   * with `accept` = `IsValid`, the decision of `validate`.
   */
  function FailureCount(s: seq<Word>, accept: Word -> bool): (n: nat)
    ensures n <= |s|
  {
    if s == [] then 0
    else FailureCount(s[..|s| - 1], accept) + (if accept(s[|s| - 1]) then 0 else 1)
  }

  /** Failures of a concatenation add up. */
  lemma {:induction false} FailureCountAppend(a: seq<Word>, b: seq<Word>, accept: Word -> bool)
    ensures FailureCount(a + b, accept) == FailureCount(a, accept) + FailureCount(b, accept)
    decreases |b|
  {
    if b == [] {
      assert a + b == a;
    } else {
      assert (a + b)[..|a + b| - 1] == a + b[..|b| - 1];
      FailureCountAppend(a, b[..|b| - 1], accept);
    }
  }

  /** Extending a prefix by one word adds one failure exactly when that word is rejected. */
  lemma FailureCountStep(s: seq<Word>, j: nat, ok: bool, accept: Word -> bool)
    requires j < |s| && ok == accept(s[j])
    ensures FailureCount(s[..j + 1], accept) == FailureCount(s[..j], accept) + (if ok then 0 else 1)
  {
    assert s[..j + 1][..j] == s[..j];
  }

  /** No failures exactly when every word validates. */
  lemma {:induction false} FailureCountZero(s: seq<Word>, accept: Word -> bool)
    ensures FailureCount(s, accept) == 0 <==> forall k :: 0 <= k < |s| ==> accept(s[k])
  {
    if s != [] {
      var init, last := s[..|s| - 1], s[|s| - 1];
      assert FailureCount(s, accept) == FailureCount(init, accept) + (if accept(last) then 0 else 1);
      FailureCountZero(init, accept);
      assert forall k :: 0 <= k < |init| ==> s[k] == init[k];
      assert (forall k :: 0 <= k < |s| ==> accept(s[k])) <==>
             (forall k :: 0 <= k < |init| ==> accept(init[k])) && accept(last);
    }
  }

  /**
   * The counting loops of `main`: validate `len` words starting at `base`
   * and count the ones that fail.
   */
  method CountFailures(mem: array<Word>, base: nat, len: nat) returns (errors: nat)
    requires base + len <= mem.Length
    ensures errors == FailureCount(mem[base..base + len], IsValid)
  {
    ghost var words := mem[base..base + len];
    errors := 0;
    var j: nat := 0;
    while j < len
      invariant j <= len
      invariant errors == FailureCount(words[..j], IsValid)
    {
      var ok := Validate(mem[base + j]);
      assert words[j] == mem[base + j];
      FailureCountStep(words, j, ok, IsValid);
      if !ok {
        errors := errors + 1;
      }
      j := j + 1;
    }
    assert words[..len] == words;
  }

  // ---------------------------------------------------------------------
  // Per-chunk reports

  /**
   * The error counts reported for the consecutive chunks of
   * `BufferTransferSize` words that make up `s`, in order.  Chunks are cut
   * off from the end, so for a length that is not a multiple of the chunk
   * size the words before the first full chunk are not reported.
   */
  function ChunkErrors(s: seq<Word>, accept: Word -> bool): (r: seq<nat>)
    ensures forall i :: 0 <= i < |r| ==> r[i] <= BufferTransferSize
  {
    if |s| < BufferTransferSize then []
    else
      var b := |s| - BufferTransferSize;
      ChunkErrors(s[..b], accept) + [FailureCount(s[b..], accept)]
  }

  /** A region of `k` chunks gets one report per chunk. */
  lemma {:induction false} ChunkErrorsLength(s: seq<Word>, k: nat, accept: Word -> bool)
    requires |s| == k * BufferTransferSize
    ensures |ChunkErrors(s, accept)| == k
  {
    if k > 0 {
      ChunkErrorsLength(s[..|s| - BufferTransferSize], k - 1, accept);
    }
  }

  /** Report `i` of a region of `k` chunks counts the failures among words i*4096 .. (i+1)*4096-1. */
  lemma {:induction false} ChunkErrorsAt(s: seq<Word>, k: nat, i: nat, accept: Word -> bool)
    requires |s| == k * BufferTransferSize && i < k
    ensures |ChunkErrors(s, accept)| == k
    ensures ChunkErrors(s, accept)[i] ==
            FailureCount(s[i * BufferTransferSize..(i + 1) * BufferTransferSize], accept)
  {
    ChunkErrorsLength(s, k, accept);
    NextChunk(k - 1, k);
    var b := |s| - BufferTransferSize;
    if i < k - 1 {
      var prefix := s[..b];
      ChunkErrorsAt(prefix, k - 1, i, accept);
      NextChunk(i, k - 1);
      assert prefix[i * BufferTransferSize..(i + 1) * BufferTransferSize] ==
             s[i * BufferTransferSize..(i + 1) * BufferTransferSize];
    } else {
      assert s[b..] == s[i * BufferTransferSize..(i + 1) * BufferTransferSize];
    }
  }

  /** Both assertions together make `num_chunks` chunks cover the region exactly. */
  lemma ChunkCount(total: nat)
    requires total % BufferTransferSize == 0
    ensures (total / BufferTransferSize) * BufferTransferSize == total
  {
  }

  /** The per-chunk counts of a whole number of chunks add up to the failures of the region. */
  lemma {:induction false} SumChunkErrors(s: seq<Word>, k: nat, accept: Word -> bool)
    requires |s| == k * BufferTransferSize
    ensures Sum(ChunkErrors(s, accept)) == FailureCount(s, accept)
  {
    if k > 0 {
      var b := |s| - BufferTransferSize;
      var prefix, last := s[..b], s[b..];
      calc {
        Sum(ChunkErrors(s, accept));
        Sum(ChunkErrors(prefix, accept) + [FailureCount(last, accept)]);
        { SumSnoc(ChunkErrors(prefix, accept), FailureCount(last, accept)); }
        Sum(ChunkErrors(prefix, accept)) + FailureCount(last, accept);
        { SumChunkErrors(prefix, k - 1, accept); }
        FailureCount(prefix, accept) + FailureCount(last, accept);
        { FailureCountAppend(prefix, last, accept); assert prefix + last == s; }
        FailureCount(s, accept);
      }
    }
  }

  /** The sum of a sequence of counts. */
  function Sum(xs: seq<nat>): nat
  {
    if xs == [] then 0 else Sum(xs[..|xs| - 1]) + xs[|xs| - 1]
  }

  lemma SumSnoc(xs: seq<nat>, x: nat)
    ensures Sum(xs + [x]) == Sum(xs) + x
  {
    assert (xs + [x])[..|xs|] == xs;
  }

  /**
   * Both assertions of `main` together keep every chunk write inside the
   * region: word `j` of chunk `i` lies below `total`.
   */
  lemma ChunkWithinRegion(i: nat, j: nat, total: nat)
    requires total % BufferTransferSize == 0
    requires i < total / BufferTransferSize && j < BufferTransferSize
    ensures i * BufferTransferSize + j < total
  {
  }

  // ---------------------------------------------------------------------
  // The frame-buffer file

  /** An open file of 32-bit words with its read position (`FILE *`). */
  class WordStream {
    /** The file's contents, in the order `fread` delivers them. */
    const data: seq<Word>
    /** Words consumed so far. */
    var pos: nat

    ghost predicate Valid()
      reads this
    {
      pos <= |data|
    }

    /** `fopen` of a file that exists: reading starts at the beginning. */
    constructor Open(contents: seq<Word>)
      ensures Valid() && data == contents && pos == 0
    {
      data := contents;
      pos := 0;
    }

    /**
     * `fread(dst + offset, sizeof(uint32_t), count, file)`: copy up to
     * `count` words, fewer when the file ends first, verbatim into `dst`
     * from `offset` on, and advance the position past them.
     */
    method Read(dst: array<Word>, offset: nat, count: nat) returns (n: nat)
      requires Valid() && offset + count <= dst.Length
      modifies this, dst
      ensures Valid() && n == Min(count, |data| - old(pos)) && pos == old(pos) + n
      ensures dst[offset..offset + n] == data[old(pos)..pos]
      ensures forall k :: 0 <= k < dst.Length && !(offset <= k < offset + n) ==> dst[k] == old(dst[k])
    {
      n := Min(count, |data| - pos);
      forall k | offset <= k < offset + n {
        dst[k] := data[pos + (k - offset)];
      }
      pos := pos + n;
    }
  }

  /**
   * SDRAM contents `m` after its first `n` words were read from a file
   * holding `src`: a word is replaced when the file reaches it.
   */
  function Loaded(m: seq<Word>, src: seq<Word>, n: nat): seq<Word>
  {
    seq(|m|, k requires 0 <= k < |m| => if k < n && k < |src| then src[k] else m[k])
  }

  /** One more chunk read at position `b` extends the loaded prefix by one chunk. */
  lemma LoadedStep(m: seq<Word>, src: seq<Word>, b: nat, cur: seq<Word>, next: seq<Word>, n: nat)
    requires b + BufferTransferSize <= |m| && |next| == |m|
    requires cur == Loaded(m, src, b)
    requires n == Min(BufferTransferSize, |src| - Min(b, |src|))
    requires next[b..b + n] == src[Min(b, |src|)..Min(b, |src|) + n]
    requires forall k :: 0 <= k < |m| && !(b <= k < b + n) ==> next[k] == cur[k]
    ensures next == Loaded(m, src, b + BufferTransferSize)
  {
    var want := Loaded(m, src, b + BufferTransferSize);
    forall k | 0 <= k < |m|
      ensures next[k] == want[k]
    {
      if b <= k < b + n {
        assert next[k] == next[b..b + n][k - b];
      }
    }
  }

  /**
   * Writing chunk `i` while leaving the words before it alone appends that
   * chunk's failure count to the per-chunk reports.
   */
  lemma ChunkErrorsStep(cur: seq<Word>, next: seq<Word>, b: nat, accept: Word -> bool)
    requires b + BufferTransferSize <= |cur| == |next|
    requires next[..b] == cur[..b]
    ensures ChunkErrors(next[..b + BufferTransferSize], accept) ==
            ChunkErrors(cur[..b], accept) + [FailureCount(next[b..b + BufferTransferSize], accept)]
  {
    var s := next[..b + BufferTransferSize];
    assert s[..b] == cur[..b];
    assert s[b..] == next[b..b + BufferTransferSize];
  }

  /** The chunk after chunk `i` starts one chunk further on and, when `i` is not the last, still fits. */
  lemma NextChunk(i: nat, numChunks: nat)
    requires i < numChunks
    ensures (i + 1) * BufferTransferSize == i * BufferTransferSize + BufferTransferSize
    ensures (i + 1) * BufferTransferSize <= numChunks * BufferTransferSize
  {
  }

  /** A chunk read at offset `b` leaves the file position at the next chunk, or at the end. */
  lemma ReadAdvances(b: nat, len: nat, n: nat)
    requires n == Min(BufferTransferSize, len - Min(b, len))
    ensures Min(b, len) + n == Min(b + BufferTransferSize, len)
  {
  }

  /** Words at and beyond `n` keep their old value. */
  lemma LoadedKeepsRest(m: seq<Word>, src: seq<Word>, n: nat)
    requires n <= |m|
    ensures Loaded(m, src, n)[n..] == m[n..]
  {
  }

  /** A file holding at least `n` words replaces exactly the first `n` words. */
  lemma LoadedFromCompleteFile(m: seq<Word>, src: seq<Word>, n: nat)
    requires n <= |m| && n <= |src|
    ensures Loaded(m, src, n)[..n] == src[..n]
  {
  }

  // ---------------------------------------------------------------------
  // The upload

  /**
   * One iteration of the loop over chunks in `main`: read the chunk at word
   * offset `b` from the file into SDRAM and count its words that fail.
   */
  method TransferChunk(sdram: array<Word>, file: WordStream, b: nat, ghost initial: seq<Word>) returns (errors: nat)
    requires file.Valid() && b + BufferTransferSize <= sdram.Length
    requires file.pos == Min(b, |file.data|)
    requires sdram[..] == Loaded(initial, file.data, b)
    modifies sdram, file
    ensures file.Valid() && file.pos == Min(b + BufferTransferSize, |file.data|)
    ensures sdram[..] == Loaded(initial, file.data, b + BufferTransferSize)
    ensures sdram[..b] == old(sdram[..b])
    ensures errors == FailureCount(sdram[b..b + BufferTransferSize], IsValid)
  {
    ghost var before := sdram[..];
    var n := file.Read(sdram, b, BufferTransferSize);
    LoadedStep(initial, file.data, b, before, sdram[..], n);
    ReadAdvances(b, |file.data|, n);
    errors := CountFailures(sdram, b, BufferTransferSize);
  }

  /**
   * The loop over chunks in `main`: transfer and check `numChunks` chunks
   * of `BufferTransferSize` words, one after the other.
   */
  method TransferChunks(sdram: array<Word>, file: WordStream, numChunks: nat) returns (txErrors: seq<nat>)
    requires file.Valid() && file.pos == 0
    requires numChunks * BufferTransferSize <= sdram.Length
    modifies sdram, file
    ensures sdram[..] == Loaded(old(sdram[..]), file.data, numChunks * BufferTransferSize)
    ensures file.pos == Min(numChunks * BufferTransferSize, |file.data|)
    ensures txErrors == ChunkErrors(sdram[..numChunks * BufferTransferSize], IsValid)
  {
    ghost var initial := sdram[..];
    txErrors := [];
    var i, b := 0, 0;
    while i < numChunks
      invariant i <= numChunks && b == i * BufferTransferSize && b <= numChunks * BufferTransferSize
      invariant file.Valid() && file.pos == Min(b, |file.data|)
      invariant sdram[..] == Loaded(initial, file.data, b)
      invariant txErrors == ChunkErrors(sdram[..b], IsValid)
    {
      NextChunk(i, numChunks);
      ghost var before := sdram[..];
      var errors := TransferChunk(sdram, file, b, initial);
      ChunkErrorsStep(before, sdram[..], b, IsValid);
      txErrors := txErrors + [errors];
      i, b := i + 1, b + BufferTransferSize;
    }
  }

  /**
   * The upload and check part of `main`, for a region of `total` words.
   * `transferred` says whether the file was copied, `txErrors` holds the
   * count printed for each chunk, `sramErrors` the count printed for the
   * whole region.
   */
  method Upload(sdram: array<Word>, file: WordStream, total: nat)
    returns (transferred: bool, txErrors: seq<nat>, sramErrors: nat)
    requires file.Valid() && file.pos == 0
    requires 0 < sdram.Length && total <= sdram.Length
    requires total <= BridgesSpan && total % BufferTransferSize == 0
    modifies sdram, file
    ensures transferred == (old(sdram[0]) != Sentinel)
    ensures sdram[..] == if transferred then Loaded(old(sdram[..]), file.data, total) else old(sdram[..])
    ensures file.pos == if transferred then Min(total, |file.data|) else 0
    ensures txErrors == if transferred then ChunkErrors(sdram[..total], IsValid) else []
    ensures transferred ==> |txErrors| == total / BufferTransferSize && Sum(txErrors) == sramErrors
    ensures sramErrors == FailureCount(sdram[..total], IsValid)
  {
    transferred := sdram[0] != Sentinel;
    txErrors := [];
    if transferred {
      var numChunks := total / BufferTransferSize;
      ChunkCount(total);
      txErrors := TransferChunks(sdram, file, numChunks);
      SumChunkErrors(sdram[..total], numChunks, IsValid);
      ChunkErrorsLength(sdram[..total], numChunks, IsValid);
    }
    sramErrors := CountFailures(sdram, 0, total);
    assert sdram[0..total] == sdram[..total];
  }

  /**
   * `main`'s upload with the program's own constants: both frame buffers,
   * in 150 chunks.
   */
  method UploadFramebuffers(sdram: array<Word>, file: WordStream)
    returns (transferred: bool, txErrors: seq<nat>, sramErrors: nat)
    requires file.Valid() && file.pos == 0 && TotalWords <= sdram.Length
    modifies sdram, file
    ensures transferred == (old(sdram[0]) != Sentinel)
    ensures sdram[..] == if transferred then Loaded(old(sdram[..]), file.data, TotalWords) else old(sdram[..])
    ensures file.pos == if transferred then Min(TotalWords, |file.data|) else 0
    ensures txErrors == if transferred then ChunkErrors(sdram[..TotalWords], IsValid) else []
    ensures transferred ==> |txErrors| == 150 && Sum(txErrors) == sramErrors
    ensures sramErrors == FailureCount(sdram[..TotalWords], IsValid)
  {
    ProgramConfiguration();
    transferred, txErrors, sramErrors := Upload(sdram, file, TotalWords);
  }

  /**
   * A file whose first word is the marker leaves the marker in SDRAM word 0,
   * so the next start of the program skips the transfer.
   */
  lemma UploadLeavesMarker(m: seq<Word>, src: seq<Word>, n: nat)
    requires 0 < n <= |m| && 0 < |src| && src[0] == Sentinel
    ensures Loaded(m, src, n)[0] == Sentinel
  {
  }
}
