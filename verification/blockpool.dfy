/**
 * The block pool as objects: a `BlockPool` whose methods replace its cached
 * `BlockPoolReader` in place, and the reader and writer handles it allocates.
 * Each pool method is specified by the matching function of `PoolSpec`,
 * applied to the pool's abstract value `Abs()`; on top of that, the contracts
 * say which object comes back (the cached one, or a freshly allocated one).
 */
module Blockpool {
  import opened Wrappers
  import opened PoolSpec

  newtype byte = x: int | 0 <= x < 256

  /** A read cursor over one file of the container, with a one-block buffer.
      `Read` and `Seek` (which move `offset` and `blockIndex`) are not part of this model. */
  class BlockPoolReader {
    const pool: BlockPool
    const fileIndex: int
    var offset: int
    const size: int
    var blockIndex: int
    const blockBuf: array<byte>
    /** How many times `Close` has been called on this reader. */
    ghost var closeCount: nat

    function View(): ReaderState
      reads this
    {
      ReaderState(fileIndex, offset, size, blockIndex, blockBuf.Length)
    }

    constructor (pool: BlockPool, fileIndex: int, size: int, blockSize: int)
      requires blockSize >= 0
      ensures this.pool == pool && closeCount == 0
      ensures View() == ReaderState(fileIndex, 0, size, NoBlock, blockSize)
      ensures fresh(blockBuf) && forall k | 0 <= k < blockBuf.Length :: blockBuf[k] == 0
    {
      this.pool := pool;
      this.fileIndex := fileIndex;
      this.offset := 0;
      this.size := size;
      this.blockIndex := NoBlock;
      this.blockBuf := new byte[blockSize](_ => 0);
      closeCount := 0;
    }

    /** Closing reports `outcome`, which stands for whatever the reader's own
        `Close` returns. The model assumes that closing changes none of the
        reader's fields; only the ghost count of calls moves. */
    method Close(outcome: Outcome<CloseError>) returns (err: Outcome<CloseError>)
      modifies this`closeCount
      ensures err == outcome
      ensures closeCount == old(closeCount) + 1
    {
      closeCount := closeCount + 1;
      err := outcome;
    }
  }

  /** A sequential write cursor over one file of the container. `Write` and
      `Close` are not part of this model. */
  class BlockPoolWriter {
    const pool: BlockPool
    const fileIndex: int
    var offset: int
    const size: int
    const blockBuf: array<byte>

    function View(): WriterState
      reads this
    {
      WriterState(fileIndex, offset, size, blockBuf.Length)
    }

    constructor (pool: BlockPool, fileIndex: int, size: int, blockSize: int)
      requires blockSize >= 0
      ensures this.pool == pool
      ensures View() == WriterState(fileIndex, 0, size, blockSize)
      ensures fresh(blockBuf) && forall k | 0 <= k < blockBuf.Length :: blockBuf[k] == 0
    {
      this.pool := pool;
      this.fileIndex := fileIndex;
      this.offset := 0;
      this.size := size;
      this.blockBuf := new byte[blockSize](_ => 0);
    }
  }

  /** A pool mapping reads and writes of the container's files onto blocks.
      `files[k]` is the size of the k-th file; `hasUpstream` and `hasDownstream`
      say whether a Source and a Sink are configured. */
  class BlockPool {
    const files: seq<int>
    const blockSize: int
    const hasUpstream: bool
    const hasDownstream: bool
    var reader: BlockPoolReader?

    function Abs(): PoolState
      reads this, reader
    {
      PoolState(files, blockSize, hasUpstream, hasDownstream,
                if reader == null then None else Some(reader.View()))
    }

    ghost predicate Valid()
      reads this, reader
    {
      PoolSpec.Valid(Abs()) && (reader != null ==> reader.pool == this)
    }

    constructor (files: seq<int>, blockSize: int, hasUpstream: bool, hasDownstream: bool)
      ensures Valid()
      ensures Abs() == PoolState(files, blockSize, hasUpstream, hasDownstream, None)
    {
      this.files := files;
      this.blockSize := blockSize;
      this.hasUpstream := hasUpstream;
      this.hasDownstream := hasDownstream;
      this.reader := null;
    }

    method GetReadSeeker(fileIndex: int, closeOutcome: Outcome<CloseError>)
      returns (res: Result<BlockPoolReader, PoolError>)
      requires Valid()
      requires Creates(Abs(), fileIndex, closeOutcome) ==> CanAllocate(Abs(), fileIndex)
      modifies this, reader
      ensures Valid()
      ensures Abs() == PoolSpec.GetReadSeeker(old(Abs()), fileIndex, closeOutcome).after
      ensures res.Success? <==> PoolSpec.GetReadSeeker(old(Abs()), fileIndex, closeOutcome).result.Success?
      ensures res.Failure? ==> PoolSpec.GetReadSeeker(old(Abs()), fileIndex, closeOutcome).result == Failure(res.error)
      // the reader handed out is the one the pool now caches
      ensures res.Success? ==> res.value == reader
      // a failed call leaves the cached reader in place
      ensures res.Failure? ==> reader == old(reader)
      // the same file: the very same object comes back
      ensures hasUpstream && Caches(old(Abs()), fileIndex) ==> res == Success(old(reader))
      // another file: the old reader is closed exactly once, and nothing is closed otherwise
      ensures old(reader) != null ==>
                old(reader).closeCount ==
                old(reader.closeCount) + |PoolSpec.GetReadSeeker(old(Abs()), fileIndex, closeOutcome).closed|
      // a new reader is a new object with a new zeroed buffer, bound to this pool
      ensures Creates(old(Abs()), fileIndex, closeOutcome) ==>
                res.Success? && fresh(res.value) && fresh(res.value.blockBuf) && res.value.pool == this &&
                res.value.closeCount == 0 &&
                forall k | 0 <= k < res.value.blockBuf.Length :: res.value.blockBuf[k] == 0
    {
      if !hasUpstream {
        return Failure(NoUpstream);
      }
      if reader != null {
        if reader.fileIndex == fileIndex {
          return Success(reader);
        }
        var err := reader.Close(closeOutcome);
        if err.Fail? {
          return Failure(ReaderCloseFailed(err.error));
        }
        reader := null;
      }
      reader := new BlockPoolReader(this, fileIndex, files[fileIndex], blockSize);
      res := Success(reader);
    }

    method GetReader(fileIndex: int, closeOutcome: Outcome<CloseError>)
      returns (res: Result<BlockPoolReader, PoolError>)
      requires Valid()
      requires Creates(Abs(), fileIndex, closeOutcome) ==> CanAllocate(Abs(), fileIndex)
      modifies this, reader
      ensures Valid()
      ensures Abs() == PoolSpec.GetReader(old(Abs()), fileIndex, closeOutcome).after
      ensures res.Success? <==> PoolSpec.GetReader(old(Abs()), fileIndex, closeOutcome).result.Success?
      ensures res.Failure? ==> PoolSpec.GetReader(old(Abs()), fileIndex, closeOutcome).result == Failure(res.error)
      ensures res.Success? ==> res.value == reader
      ensures res.Failure? ==> reader == old(reader)
      ensures hasUpstream && Caches(old(Abs()), fileIndex) ==> res == Success(old(reader))
      ensures old(reader) != null ==>
                old(reader).closeCount ==
                old(reader.closeCount) + |PoolSpec.GetReader(old(Abs()), fileIndex, closeOutcome).closed|
      ensures Creates(old(Abs()), fileIndex, closeOutcome) ==>
                res.Success? && fresh(res.value) && fresh(res.value.blockBuf) && res.value.pool == this &&
                res.value.closeCount == 0 &&
                forall k | 0 <= k < res.value.blockBuf.Length :: res.value.blockBuf[k] == 0
    {
      res := GetReadSeeker(fileIndex, closeOutcome);
    }

    /** Builds a new writer on every call; the pool itself is not modified. */
    method GetWriter(fileIndex: int) returns (res: Result<BlockPoolWriter, PoolError>)
      requires hasDownstream ==> CanAllocate(Abs(), fileIndex)
      ensures res.Success? <==> PoolSpec.GetWriter(Abs(), fileIndex).result.Success?
      ensures res.Failure? ==> PoolSpec.GetWriter(Abs(), fileIndex).result == Failure(res.error)
      ensures res.Success? ==>
                res.value.View() == PoolSpec.GetWriter(Abs(), fileIndex).result.value &&
                fresh(res.value) && fresh(res.value.blockBuf) && res.value.pool == this &&
                forall k | 0 <= k < res.value.blockBuf.Length :: res.value.blockBuf[k] == 0
    {
      if !hasDownstream {
        return Failure(NoDownstream);
      }
      var w := new BlockPoolWriter(this, fileIndex, files[fileIndex], blockSize);
      res := Success(w);
    }

    method Close(closeOutcome: Outcome<CloseError>) returns (err: Outcome<PoolError>)
      requires Valid()
      modifies this, reader
      ensures Valid()
      ensures Abs() == PoolSpec.Close(old(Abs()), closeOutcome).after
      ensures err.Pass? <==> PoolSpec.Close(old(Abs()), closeOutcome).result.Success?
      ensures err.Fail? ==> PoolSpec.Close(old(Abs()), closeOutcome).result == Failure(err.error)
      ensures reader == null || reader == old(reader)
      ensures old(reader) != null ==> old(reader).closeCount == old(reader.closeCount) + 1
    {
      if reader != null {
        var e := reader.Close(closeOutcome);
        if e.Fail? {
          return Fail(ReaderCloseFailed(e.error));
        }
        reader := null;
      }
      return Pass;
    }
  }

  /** A client: reuse of the cached reader, a failed and a successful switch, a
      refused writer, and two closes, each outcome derived from the contracts. */
  method ReuseAndSwitch(files: seq<int>)
    requires |files| >= 2
  {
    var pool := new BlockPool(files, 4096, true, false);
    var a := pool.GetReadSeeker(0, Pass);
    assert a.Success? && a.value.View() == ReaderState(0, 0, files[0], NoBlock, 4096);
    var b := pool.GetReader(0, Fail(CloseError("unused")));
    assert b == a;
    var c := pool.GetReadSeeker(1, Fail(CloseError("busy")));
    assert c == Failure(ReaderCloseFailed(CloseError("busy")));
    assert pool.reader == a.value && a.value.closeCount == 1;
    var d := pool.GetReadSeeker(1, Pass);
    assert d.Success? && d.value != a.value && a.value.closeCount == 2 && d.value.View().fileIndex == 1;
    var w := pool.GetWriter(0);
    assert w == Failure(NoDownstream);
    var e := pool.Close(Pass);
    assert e.Pass? && pool.reader == null && d.value.closeCount == 1;
    var f := pool.Close(Fail(CloseError("unused")));
    assert f.Pass?;
  }
}
