# Block pool handle management

This project models the handle management of wharf's block pool (package
`blockpool`). A block pool lets the files of a multi-file container be read
and written as ordinary streams. Underneath, it moves whole fixed-size blocks
to and from a pluggable back end: an upstream Source for reads and a
downstream Sink for writes. The pool holds:

- the container manifest (the size of each file),
- the block size,
- whether a Source and a Sink are configured,
- at most one cached reader.

The modelled operations are these:

- `GetReadSeeker(fileIndex)` refuses to run without an upstream. It hands back
  the cached reader unchanged when that reader is for the same file. Otherwise
  it closes the cached reader and, unless that close fails, installs a fresh
  reader. The fresh reader starts at offset 0 with no block cached and a buffer
  of one block.
- `GetReader` is the same call.
- `GetWriter(fileIndex)` refuses to run without a downstream. Otherwise it
  always builds a new writer, which the pool does not remember.
- `Close` closes the cached reader and forgets it, unless closing it failed.

The model has two layers:

- `pool_spec.dfy` (module `PoolSpec`) is the pool as a state machine over
  values. Each operation maps the pool before the call to a `Step`: the pool
  after the call, the returned value or error, and the list of readers whose
  `Close` the call invoked. `Run` and `ClosedAlong` apply a sequence of calls.
  The lemmas about them state what holds across many calls.
- `blockpool.dfy` (module `Blockpool`) is the pool as objects. `BlockPool`
  keeps its cached `BlockPoolReader` in a mutable field. Readers and writers
  are allocated objects with fresh zero-filled block buffers. Each pool method
  is proved against the `PoolSpec` function of the same name, applied to the
  pool's abstract value `Abs()`. Its contract also states object identity: the
  same-file case returns the very object that is cached, and a new reader is a
  freshly allocated one. A ghost counter on each reader records how many times
  its `Close` was called.
- `wrappers.dfy` holds `Option`, `Result` and `Outcome`. They stand in for Go's
  nil pointers, `(value, error)` pairs and bare `error` returns.

The body of a reader's `Close` is not part of this model. Every operation that
may close a reader therefore takes, as a parameter, the outcome that `Close`
would report.

Facts about the code that the model follows:

- The code does not validate a file index: `Container.Files[fileIndex]`
  panics when the index is out of range. The model makes an in-range index a
  precondition, but only on the paths that index the container.
- The code does not check the block size: `make` panics only on a negative
  size. The model allows a block size of zero.
- The pool has no terminal closed state. After a successful `Close`, a
  later `GetReader` or `GetReadSeeker` opens a new reader
  (`PoolSpec.ReopenAfterClose`).

## Model

| member | source | states |
|---|---|---|
| PoolSpec.GetReadSeeker | vendor/github.com/itchio/wharf/pools/blockpool/blockpool.go:32-60 | With no upstream: the error `NoUpstream`, nothing closed, pool unchanged. Same file cached: that reader itself is returned, cursor untouched, nothing closed. Another file cached: that reader is closed exactly once. If that close fails, its error is returned verbatim, the same reader stays cached, and (since a reader's `Close` is taken to leave its fields alone) the pool is unchanged. On success the cached reader is the returned one. A newly created reader has the requested index, offset 0, block index -1, the file's size and a buffer of one block. The pool invariant and configuration are kept. |
| PoolSpec.GetReader | vendor/github.com/itchio/wharf/pools/blockpool/blockpool.go:28-30 | Is `PoolSpec.GetReadSeeker` by definition: the same pool afterwards, the same result and the same closed readers. `Blockpool.BlockPool.GetReader`'s contract relies on this. |
| PoolSpec.NewReader | vendor/github.com/itchio/wharf/pools/blockpool/blockpool.go:49-58 | The reader built for a file fits the container (index in range, that file's size, a buffer of `BlockSize`), has the requested index, is at offset 0 and has no block cached (block index -1). |
| PoolSpec.GetWriter | vendor/github.com/itchio/wharf/pools/blockpool/blockpool.go:62-76 | Fails with `NoDownstream` exactly when no Sink is set. Otherwise a writer for the index at offset 0, with the file's size and a buffer of one block. The pool, cached reader included, is unchanged and nothing is closed. |
| PoolSpec.Close | vendor/github.com/itchio/wharf/pools/blockpool/blockpool.go:78-88 | With no cached reader: success, nothing closed, nothing changed. With one: it is closed once. Failure happens exactly when that close fails; the error is passed on and the same reader stays cached, its fields as they were (see `Blockpool.BlockPoolReader.Close` under Left out). On success the cached reader becomes nil. |
| PoolSpec.Apply | vendor/github.com/itchio/wharf/pools/blockpool/blockpool.go:28-88 | Any single call keeps the configuration and the pool invariant and closes at most one reader. Without an upstream, a call can only keep the cached reader or drop it. |
| PoolSpec.Run | vendor/github.com/itchio/wharf/pools/blockpool/blockpool.go:28-88 | Any sequence of calls leaves the container, block size, Source and Sink as they were. It keeps the invariant that a cached reader belongs to a container file and carries that file's size and a one-block buffer. |
| PoolSpec.ClosedAlong | vendor/github.com/itchio/wharf/pools/blockpool/blockpool.go:41-46 | The log of readers closed along a sequence of calls is no longer than the sequence. The per-call bound of one close is `PoolSpec.Apply`'s. |
| PoolSpec.WritersAreInvisible | vendor/github.com/itchio/wharf/pools/blockpool/blockpool.go:62-76 | Removing every `GetWriter` call from a sequence changes neither the final pool nor the list of readers closed. |
| PoolSpec.NoUpstreamNoNewReader | vendor/github.com/itchio/wharf/pools/blockpool/blockpool.go:33-35 | Without an upstream, no sequence of calls ever installs a reader. The pool ends with the reader it started with, or with none. |
| PoolSpec.CachedReaderPersists | vendor/github.com/itchio/wharf/pools/blockpool/blockpool.go:37-40 | Once a reader for a file is cached, any sequence of `GetReader`/`GetReadSeeker` calls for that file, with writers in between, leaves the pool unchanged. The cursor is not reset and no reader is closed. |
| PoolSpec.SecondCloseIsNoOp | vendor/github.com/itchio/wharf/pools/blockpool/blockpool.go:78-88 | After a successful `Close`, another `Close` succeeds, closes nothing and changes nothing, whatever a reader's close would report. |
| PoolSpec.FailedSwitchClosesAgain | vendor/github.com/itchio/wharf/pools/blockpool/blockpool.go:41-46 | A failed close during a switch leaves the old reader cached, so the next switch to another file calls `Close` on that same reader again. |
| PoolSpec.ReopenAfterClose | vendor/github.com/itchio/wharf/pools/blockpool/blockpool.go:37-59 | After a successful `Close`, a reader request for any file (with an upstream) closes nothing and installs a new reader for it: the pool has no terminal closed state. |
| PoolSpec.WriterIgnoresCache | vendor/github.com/itchio/wharf/pools/blockpool/blockpool.go:67-75 | The writer returned does not depend on which reader, if any, is cached. |
| Blockpool.BlockPool.constructor | vendor/github.com/itchio/wharf/pools/blockpool/blockpool.go:14-23 | A pool starts with the given container, block size, Source and Sink presence and no cached reader. |
| Blockpool.BlockPool.GetReadSeeker | vendor/github.com/itchio/wharf/pools/blockpool/blockpool.go:32-60 | The new pool state, result and close count follow `PoolSpec.GetReadSeeker`. The returned reader is the object the pool now caches. Same file: the identical object is returned. Failure: the field is left pointing at the same reader, whose fields a failed `Close` is taken not to change. The old reader's close count rises by exactly the number of closes the step makes. A created reader is a fresh object bound to this pool, with a fresh zero-filled buffer. |
| Blockpool.BlockPool.GetReader | vendor/github.com/itchio/wharf/pools/blockpool/blockpool.go:28-30 | Exactly the same state change, result and object identity as `GetReadSeeker`. |
| Blockpool.BlockPool.GetWriter | vendor/github.com/itchio/wharf/pools/blockpool/blockpool.go:62-76 | Modifies nothing. The result follows `PoolSpec.GetWriter`. A writer is a freshly allocated object bound to this pool, with a fresh zero-filled buffer of one block. |
| Blockpool.BlockPool.Close | vendor/github.com/itchio/wharf/pools/blockpool/blockpool.go:78-88 | The new state and result follow `PoolSpec.Close`. The field ends nil or unchanged. A cached reader is closed exactly once. |
| Blockpool.BlockPoolReader.constructor | vendor/github.com/itchio/wharf/pools/blockpool/blockpool.go:49-58 | A reader is bound to its pool, at offset 0, with block index -1, the given size and a fresh zero-filled buffer of `BlockSize` bytes. |
| Blockpool.BlockPoolReader.Close | vendor/github.com/itchio/wharf/pools/blockpool/blockpool.go:42-45 | Reports the supplied outcome, counts one more close and leaves the cursor as it was. |
| Blockpool.BlockPoolWriter.constructor | vendor/github.com/itchio/wharf/pools/blockpool/blockpool.go:67-74 | A writer is bound to its pool, at offset 0, with the given size and a fresh zero-filled buffer of `BlockSize` bytes. |

## Left out

- `dl.go`, the resumable HTTP downloader. It is network and file-system glue
  (ranged GET/HEAD, truncation, progress reporting, process exit). It is not
  part of this model.
- `BlockPoolReader.Read`, `Seek` and `Close`, and `BlockPoolWriter.Write` and
  `Close`: their bodies are not part of this model. Readers and writers carry
  only the fields the pool sets when it builds them. A reader's close outcome
  is a parameter.
- `Source`, `Sink` and the `Consumer` (`pwr.StateConsumer`) are foreign types.
  The pool only tests Source and Sink for nil, so they are booleans. The
  consumer is not used by these methods.
- The container is modelled as the sequence of its file sizes. Paths are not
  modelled.
- The container, block size, Source and Sink are exported fields that a caller
  could reassign. No pool method does, so the model treats them as constants.
- `errors.Wrap` stack traces are left out, and so are the compile-time
  interface assertions (`sync.Pool`, `sync.WritablePool`).
- The 64-bit width of file indices, sizes and the block size is not modelled;
  all are unbounded integers.
- The source panics on an out-of-range file index or a negative block size.
  The model makes these preconditions (`PoolSpec.CanAllocate`) on the paths
  that index the container or allocate a buffer, and does not model panics.
- PoolSpec.Run: requires every file index in the sequence to be in range,
  and the block size not to be negative. This is stronger than what each call
  needs on its own. A call without an upstream, one that reuses the cached
  reader, or a `Close` never indexes the container or allocates a buffer, and
  a sequence made only of such calls needs neither condition. `PoolSpec.ClosedAlong` and the sequence lemmas share this
  precondition.
- Blockpool.BlockPoolReader.Close: the model assumes that a reader's `Close`
  changes none of the reader's fields (file index, offset, size, block index,
  buffer). It counts the call and reports the supplied outcome. Its body is not
  part of this model, and it may release the block buffer. The claims that a
  failed close leaves "the pool, cached reader included" unchanged
  (`PoolSpec.GetReadSeeker`, `PoolSpec.Close` and the `Blockpool.BlockPool`
  methods) rest on this. Without it, the code guarantees only that the `reader`
  field keeps pointing at the same reader.
