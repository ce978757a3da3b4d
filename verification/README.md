# simpleperf JIT debug reader: the sequential core, in Dafny

simpleperf's `JITDebugReader` collects the debug info of Java methods that ART
JIT-compiles, and of the dex files ART loads, in profiled processes. It hands
that info to the recorder. When the reader is built with the
`kSyncWithRecords` option, each `JITDebugInfo` waits in a priority queue,
`debug_info_q_`. `FlushDebugInfo(t)` then releases the entries created before
`t`, earliest first, so that they interleave correctly with the kernel's
records.

This project models the part of the reader that does not touch another
process:

- `base.dfy`: the fixed-width integers `pid_t`/`int` (`i32`), `uint32_t` and
  `uint64_t`, plus an `Option` type for null pointers and `npos`.
- `jit_debug_info.dfy`: the `JITDebugInfo` tagged record. It has one datatype
  constructor per tag. The model includes the record's two C++ constructors
  and `operator>`.
- `jit_debug_reader_impl.dfy`: the `Descriptor` and `Process` records and
  their default-initialised values.
- `sym_file_path.dfy`: `IsPathInJITSymFile`, built on a model of
  `std::string::find`.
- `debug_info_queue.dfy`: `std::priority_queue<JITDebugInfo, vector,
  std::greater>`. It is a class whose field `heap`, a sequence, is kept as a
  binary min-heap on timestamps, indexed as the standard library indexes its
  vector. `Top` is element 0. `Push` sifts up and `Pop` sifts down, with the
  textbook procedures (see "## Left out").
- `jit_debug_reader.dfy`: the `JITDebugReader` class. It keeps its options and
  the queue. `AddDebugInfo` pushes entries onto the queue. `FlushDebugInfo`
  pops while the top is earlier than the given time. The file also has lemmas
  showing that a flush's result is unique except for the order of entries with
  equal timestamps.

The header declares `FlushDebugInfo` as "flush all debug info registered
before timestamp" but does not give its body. The model reads "before" as
strictly earlier: an entry whose timestamp equals `t` stays queued.

## Model

| member | source | states |
|---|---|---|
| `DebugInfo.NewJitCode` | simpleperf/JITDebugReader.h:117-125 | The JIT-code constructor builds a JIT-code record. It holds exactly the given pid, timestamp, code address, code length, symfile path and file offset. It has no dex file map and no symbols. |
| `DebugInfo.NewDexFile` | simpleperf/JITDebugReader.h:127-137 | The dex-file constructor builds a dex-file record whose file offset is 0. It keeps the given pid, timestamp, dex file offset, path, map and symbols. |
| `DebugInfo.GreaterOnlyReadsTimestamps` | simpleperf/JITDebugReader.h:139 | `DebugInfo.Greater` models `operator>`. Records with the same timestamps compare the same under it, whatever their other fields are. |
| `DebugInfo.GreaterIsStrictWeakOrder` | simpleperf/JITDebugReader.h:139 | `DebugInfo.Greater` (`operator>`) is irreflexive, asymmetric and transitive, and incomparability under it is transitive. This is the strict weak ordering `std::greater` must give a priority queue. Two records are incomparable exactly when their timestamps are equal. |
| `JITDebugReaderImpl.DefaultDescriptor` | simpleperf/JITDebugReader.h:51-57 | A default Descriptor has version, action seqlock, action timestamp and first entry address all 0, so its seqlock reads as "not being changed". Its type is the one given, because the source leaves it uninitialised. |
| `JITDebugReaderImpl.DefaultProcess` | simpleperf/JITDebugReader.h:67-84 | A default Process has pid -1 and is neither initialised, dead nor 64-bit. Both remote descriptor addresses are 0. Both remembered descriptors are default ones, and it has no zygote cache ranges. |
| `SymFilePath.Marker` | simpleperf/JITDebugReader.h:188-189 | The searched marker is the cache file name between a leading `_` and a trailing `:`. |
| `SymFilePath.Find` | simpleperf/JITDebugReader.h:188-189 | `find` returns the first position at or after `from` where the pattern occurs, with no earlier occurrence. It returns `npos` (None) only when the pattern occurs nowhere from `from` on. |
| `SymFilePath.IsPathInJITSymFile` | simpleperf/JITDebugReader.h:187-190 | A path is a JIT symfile path exactly when it contains `_jit_app_cache:` or `_jit_zygote_cache:` as a substring. |
| `SymFilePath.MarkedPathIsSymFile` | simpleperf/JITDebugReader.h:39-40 | Any path of the form prefix + `_jit_app_cache:` or `_jit_zygote_cache:` + suffix is recognised. |
| `SymFilePath.PathWithoutUnderscoreIsNotSymFile` | simpleperf/JITDebugReader.h:187-190 | A path that contains no `_` is never recognised. |
| `DebugInfoQueue.HeapRootIsEarliest` | simpleperf/JITDebugReader.h:245-246 | In a heap ordered by `std::greater`, the root is a queued entry that is not `>` any queued entry. |
| `DebugInfoQueue.PriorityQueue.constructor` | simpleperf/JITDebugReader.h:245-246 | A new queue is empty and in heap order. |
| `DebugInfoQueue.PriorityQueue.Size` | simpleperf/JITDebugReader.h:245-246 | `size()` is the number of queued entries, counting duplicates. |
| `DebugInfoQueue.PriorityQueue.Empty` | simpleperf/JITDebugReader.h:245-246 | `empty()` holds exactly when nothing is queued. |
| `DebugInfoQueue.PriorityQueue.Top` | simpleperf/JITDebugReader.h:245-246 | `top()` is a queued entry whose timestamp is at most every queued entry's timestamp. Which of several tied entries it is, is not fixed. |
| `DebugInfoQueue.PriorityQueue.Push` | simpleperf/JITDebugReader.h:245-246 | `push(x)` adds exactly x to the queued multiset and keeps heap order. |
| `DebugInfoQueue.PriorityQueue.Pop` | simpleperf/JITDebugReader.h:245-246 | `pop()` removes exactly one copy of the previous `top()` and keeps heap order. |
| `Reader.JITDebugReader.constructor` | simpleperf/JITDebugReader.h:157-169 | The reader keeps the given prefix, symfile option and sync option, and starts with an empty queue. `Reader.JITDebugReader.SyncWithRecords` holds exactly when it was built with `kSyncWithRecords`. |
| `Reader.JITDebugReader.AddDebugInfo` | simpleperf/JITDebugReader.h:230 | Queueing a batch of debug info adds exactly the batch's entries, with their multiplicities, to the pending multiset. |
| `Reader.JITDebugReader.FlushDebugInfo` | simpleperf/JITDebugReader.h:184-185 | A flush releases exactly the pending entries with timestamp below `t`, in non-decreasing timestamp order. Every entry left pending has timestamp at least `t`. Released plus remaining equals what was pending before. |
| `Reader.SplitAtTimestampIsUnique` | simpleperf/JITDebugReader.h:184-185 | There is only one way to split the pending entries into those before `t` and the rest. |
| `Reader.OrderedTimestampsAreUnique` | simpleperf/JITDebugReader.h:245-246 | Any two orders of the same entries that keep timestamps non-decreasing have the same sequence of timestamps. Repeated pops can differ only in the order of entries with equal timestamps. |
| `Reader.FlushIsUniqueUpToTies` | simpleperf/JITDebugReader.h:184-185 | Any two results a flush may produce release the same entries, with the same timestamp sequence, and leave the same entries pending. |
| `Reader.SuccessiveFlushesStayOrdered` | simpleperf/JITDebugReader.h:157-160 | Suppose entries are flushed at t1, then entries none of which is earlier than t1 are queued, then a second flush runs. All the entries released by the two flushes come out in non-decreasing timestamp order. This is the ordering that syncing with records by monotonic timestamp relies on. |

## Left out

- Reading another process: `ReadAllProcesses`, `ReadProcess`, `ReadDebugInfo`, `IsDescriptorChanged`, `InitializeProcess`, `GetDescriptorsLocation`, `ReadRemoteMem`, `ReadDescriptors`, `ParseDescriptor`, `ReadNewCodeEntries`, `ReadJITCodeDebugInfo` and `ReadDexFileDebugInfo`. These functions read another process's memory and libart.so, and only their declarations are in the header. The `CodeEntry` and `DescriptorsLocation` records, `descriptors_location_cache_` and `kDexFileInMemoryPrefix` serve only these functions.
- `MonitorProcess`, `UpdateRecord`, `processes_` and `pids_with_art_lib_`: the header does not give their update rules.
- `RegisterDebugInfoCallback`, `IOEventLoop`/`IOEventRef` and the callback. This is event-loop plumbing.
- AddDebugInfo: models only the queueing half. The rule that chooses between queueing and calling the callback is in JITDebugReader.cpp, which is not part of this model, and so is the `sync_kernel_records` flag passed to the callback. The model therefore queues the entries whatever the sync option, including `NoSync`.
- FlushDebugInfo: returns the released entries instead of passing them to the callback and returning its `bool` result. "Before `t`" is read as strictly earlier than `t`.
- `TempSymFile`, `GetTempSymFile`, `ReadDexFileSymbolsInMemory` and the `app_symfile_`/`zygote_symfile_` members. This is temporary-file I/O and dex parsing. `symfilePrefix` and `symfileOption` are only stored.
- The destructor and resource release.
- The C++ union: in the source, `jit_code_addr` and `dex_file_offset` share storage, and a dex-file record leaves `jit_code_len` uninitialised. The model keeps the two payloads apart, so reading the other case's field is not expressible.
- `ThreadMmap` and `Symbol` are opaque types. The model does not capture that `dex_file_map` is a shared pointer, so two records may share one mapping.
- The heap procedures are the textbook sift-up and sift-down. libstdc++'s `pop_heap` first moves the hole down to a leaf and then sifts up. When both children have equal timestamps, `EarlierChild` picks the left one, where libstdc++ picks the right one. Either difference may order entries with equal timestamps differently. No contract depends on that order.
- The `Descriptor.type` field has no initialiser in the source, so `DefaultDescriptor` and `DefaultProcess` take it as a parameter.
- simpleperf/rust/lib.rs: thin FFI wrappers (`has_driver_support`, `record`, `process`, `set_log_file`, …) over functions that are not part of this model, plus a float conversion of a `Duration`.
