/** The reader's view of a monitored process and of the two debug descriptors
    (one for JIT code, one for dex files) that ART keeps in that process. */
module JITDebugReaderImpl {
  import opened Base

  datatype DescriptorType = Dex | Jit

  /** An architecture-independent copy of a JIT or dex debug descriptor.
      `actionSeqlock` is incremented before and after every change ART makes to
      the descriptor, so an odd value means a change is in progress. */
  datatype Descriptor = Descriptor(
    descriptorType: DescriptorType,
    version: i32,
    actionSeqlock: u32,
    actionTimestamp: u64,   // monotonic time of the last action
    firstEntryAddr: u64)

  /** The seqlock value of a descriptor that no one is changing. */
  predicate SeqlockStable(d: Descriptor) {
    d.actionSeqlock % 2 == 0
  }

  /** A default-initialised Descriptor. The source gives `type` no initialiser, so
      its value is whatever the caller had: here, a parameter. */
  function DefaultDescriptor(descriptorType: DescriptorType): (d: Descriptor)
    ensures d.descriptorType == descriptorType
    ensures d.version == 0 && d.actionSeqlock == 0
    ensures d.actionTimestamp == 0 && d.firstEntryAddr == 0
    ensures SeqlockStable(d)
  {
    Descriptor(descriptorType, 0, 0, 0, 0)
  }

  /** What the reader knows about one monitored process. */
  datatype Process = Process(
    pid: i32,
    initialized: bool,
    died: bool,
    is64bit: bool,
    jitDescriptorAddr: u64,    // remote address of the JIT descriptor
    dexDescriptorAddr: u64,    // remote address of the dex descriptor
    lastJitDescriptor: Descriptor,
    lastDexDescriptor: Descriptor,
    jitZygoteCacheRanges: seq<(u64, u64)>)

  /** A default-initialised Process: no pid yet (-1), not initialised, not dead,
      both remote descriptor addresses unknown (0), both remembered descriptors
      default-initialised and no zygote cache ranges. */
  function DefaultProcess(jitType: DescriptorType, dexType: DescriptorType): (p: Process)
    ensures p.pid == -1 && !p.initialized && !p.died && !p.is64bit
    ensures p.jitDescriptorAddr == 0 && p.dexDescriptorAddr == 0
    ensures p.lastJitDescriptor == DefaultDescriptor(jitType)
    ensures p.lastDexDescriptor == DefaultDescriptor(dexType)
    ensures p.jitZygoteCacheRanges == []
  {
    Process(-1, false, false, false, 0, 0,
            DefaultDescriptor(jitType), DefaultDescriptor(dexType), [])
  }
}
