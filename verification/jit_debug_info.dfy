/** The debug info of one JIT-compiled Java method or one dex file, as handed from
    the JIT debug reader to the recorder, and its ordering by creation time. */
module DebugInfo {
  import opened Base

  /** A memory mapping of a thread; only carried along, never inspected here. */
  type ThreadMmap(==)

  /** A symbol read from a dex file; only carried along, never inspected here. */
  type Symbol(==)

  /** The C++ struct is a tagged record whose `type` field selects one of two
      payloads; each constructor is one tag. `timestamp` is the monotonic time the
      info was created at. */
  datatype JITDebugInfo =
    | JitCode(pid: i32, timestamp: u64,
              jitCodeAddr: u64,     // start address of the JIT-compiled code
              jitCodeLen: u64,      // length of the JIT-compiled code
              filePath: string,     // temporary ELF file holding its debug info
              fileOffset: u64)
    | DexFile(pid: i32, timestamp: u64,
              dexFileOffset: u64,   // offset of the dex file inside filePath
              filePath: string,     // file that contains the dex file
              dexFileMap: Option<ThreadMmap>,  // in-memory dex file, if any
              symbols: seq<Symbol>)
  {
    /** The struct's `file_offset`: the dex-file constructor always stores 0. */
    function FileOffset(): u64 {
      match this
      case JitCode(_, _, _, _, _, off) => off
      case DexFile(_, _, _, _, _, _) => 0
    }

    /** The struct's `dex_file_map`: a null shared pointer for JIT code. */
    function DexFileMap(): Option<ThreadMmap> {
      if JitCode? then None else dexFileMap
    }

    /** The struct's `symbols`: an empty vector for JIT code. */
    function Symbols(): seq<Symbol> {
      if JitCode? then [] else symbols
    }
  }

  /** The JIT-code constructor of the struct. */
  function NewJitCode(pid: i32, timestamp: u64, jitCodeAddr: u64, jitCodeLen: u64,
                      filePath: string, fileOffset: u64): (r: JITDebugInfo)
    ensures r.JitCode?
    ensures r.pid == pid && r.timestamp == timestamp
    ensures r.jitCodeAddr == jitCodeAddr && r.jitCodeLen == jitCodeLen
    ensures r.filePath == filePath && r.FileOffset() == fileOffset
    ensures r.DexFileMap() == None && r.Symbols() == []
  {
    JitCode(pid, timestamp, jitCodeAddr, jitCodeLen, filePath, fileOffset)
  }

  /** The dex-file constructor of the struct: `file_offset` is fixed to 0. */
  function NewDexFile(pid: i32, timestamp: u64, dexFileOffset: u64, filePath: string,
                      dexFileMap: Option<ThreadMmap>, symbols: seq<Symbol>): (r: JITDebugInfo)
    ensures r.DexFile?
    ensures r.pid == pid && r.timestamp == timestamp
    ensures r.dexFileOffset == dexFileOffset && r.filePath == filePath
    ensures r.FileOffset() == 0
    ensures r.DexFileMap() == dexFileMap && r.Symbols() == symbols
  {
    DexFile(pid, timestamp, dexFileOffset, filePath, dexFileMap, symbols)
  }

  /** `operator>`: compares creation timestamps only. `std::greater` applies it. */
  predicate Greater(a: JITDebugInfo, b: JITDebugInfo) {
    a.timestamp > b.timestamp
  }

  /** Only the timestamps decide `>`: every other field may differ. */
  lemma GreaterOnlyReadsTimestamps(a: JITDebugInfo, b: JITDebugInfo, a': JITDebugInfo, b': JITDebugInfo)
    requires a.timestamp == a'.timestamp && b.timestamp == b'.timestamp
    ensures Greater(a, b) <==> Greater(a', b')
  {
  }

  /** `>` is a strict weak ordering, as `std::priority_queue` requires of its
      comparator, and two entries are equivalent under it exactly when their
      timestamps are equal. */
  lemma GreaterIsStrictWeakOrder(a: JITDebugInfo, b: JITDebugInfo, c: JITDebugInfo)
    ensures !Greater(a, a)
    ensures Greater(a, b) ==> !Greater(b, a)
    ensures Greater(a, b) && Greater(b, c) ==> Greater(a, c)
    ensures (!Greater(a, b) && !Greater(b, a)) <==> a.timestamp == b.timestamp
    ensures ((!Greater(a, b) && !Greater(b, a)) && (!Greater(b, c) && !Greater(c, b)))
              ==> (!Greater(a, c) && !Greater(c, a))
  {
  }
}
