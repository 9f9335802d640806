/** The registry generator: classification of every Known metric, and the text it writes. */
module Generator {
  import opened Base
  import opened Metrics
  import opened KernelRegistry

  const KERNEL_LIMITS: set<string> := {
    "kern.maxproc", "kern.maxprocperuid", "kern.maxfiles", "kern.maxfilesperproc", "kern.maxvnodes",
    "kern.maxnbuf", "kern.aiomax", "kern.aioprocmax", "kern.coredump"
  }
  const IPC_LIMITS: set<string> := {"kern.ipc.maxsockbuf", "kern.ipc.somaxconn"}
  const SCHEDULING: set<string> := {
    "kern.cpu_checkin_interval", "kern.wq_max_threads", "kern.wq_max_constrained_threads"
  }
  const MEMORY_PURGE: set<string> := {
    "kern.memorystatus_purge_on_warning", "kern.memorystatus_purge_on_urgent",
    "kern.memorystatus_purge_on_critical"
  }
  const MISC_TUNABLES: set<string> := {"kern.hostname", "kern.hibernatemode"}
  const VM_WIRE_LIMITS: set<string> := {
    "vm.global_user_wire_limit", "vm.user_wire_limit", "vm.global_no_user_wire_amount"
  }
  const TCP_CONFIG: set<string> := {
    "net.inet.tcp.mssdflt", "net.inet.tcp.v6mssdflt", "net.inet.tcp.keepidle", "net.inet.tcp.keepintvl",
    "net.inet.tcp.keepcnt", "net.inet.tcp.sendspace", "net.inet.tcp.recvspace", "net.inet.tcp.sack",
    "net.inet.tcp.delayed_ack", "net.inet.tcp.fastopen", "net.inet.tcp.ecn_initiate_out",
    "net.inet.tcp.ecn_negotiate_in", "net.inet.tcp.blackhole", "net.inet.tcp.always_keepalive",
    "net.inet.tcp.sack_globalmaxholes"
  }
  const UDP_CONFIG: set<string> := {"net.inet.udp.maxdgram", "net.inet.udp.recvspace", "net.inet.udp.checksum"}
  const IP_CONFIG: set<string> := {"net.inet.ip.forwarding", "net.inet.ip.ttl", "net.inet.ip.maxfragpackets"}
  const DEBUG_CONFIG: set<string> := {"debug.lowpri_throttle_enabled", "debug.bpf_bufsize", "debug.bpf_maxbufsize"}
  const IOGPU_CONFIG: set<string> := {"iogpu.wired_limit_mb", "iogpu.wired_lwm_mb", "iogpu.dynamic_lwm"}
  const KPC_CONFIG: set<string> := {"kperf.debug_level"}
  const MACHDEP_CONFIG: set<string> := {"machdep.user_idle_level"}

  /** Writable sysctls that an administrator tunes. */
  const WRITABLE_TUNABLES: set<string> :=
    KERNEL_LIMITS + IPC_LIMITS + SCHEDULING + MEMORY_PURGE + MISC_TUNABLES + VM_WIRE_LIMITS + TCP_CONFIG
    + UDP_CONFIG + IP_CONFIG + DEBUG_CONFIG + IOGPU_CONFIG + KPC_CONFIG + MACHDEP_CONFIG

  /** machdep names fixed by the processor. */
  const CPU_IDENTITY: set<string> := {
    "machdep.cpu.brand_string", "machdep.cpu.core_count", "machdep.cpu.thread_count",
    "machdep.cpu.cores_per_package", "machdep.cpu.logical_per_package", "machdep.ptrauth_enabled",
    "machdep.virtual_address_size"
  }

  /** kern.misc flags fixed at boot. */
  const BOOT_FLAGS: set<string> := {
    "kern.hv_support", "kern.secure_kernel", "kern.safeboot", "kern.slide", "kern.stack_size", "kern.stack_depth_max"
  }

  const CONNECTION_COUNTS: set<string> := {
    "net.inet.tcp.pcbcount", "net.inet.udp.pcbcount", "net.local.pcbcount", "net.soflow.count",
    "net.inet.mptcp.pcbcount", "net.inet.tcp.sack_globalholes", "net.inet.tcp.cubic_sockets"
  }

  /** Names recommended STATIC in any category. */
  const FIXED_NAMES: set<string> := {"kern.sched", "vm.swapfileprefix", "kern.boottime", "kern.clockrate"}

  predicate IsHardware(cat: Category) {
    cat in {CatHWCPU, CatHWMemory, CatHWCache, CatHWPerflevel, CatHWARM, CatHWMisc}
  }

  /** What the classification looks at besides the category. */
  datatype Traits = Traits(tunable: bool, cpuIdentity: bool, bootFlag: bool, clock: bool, fixed: bool)

  function TraitsOf(name: string): Traits {
    Traits(name in WRITABLE_TUNABLES, name in CPU_IDENTITY, name in BOOT_FLAGS,
           name == "kern.boottime" || name == "kern.clockrate", name in FIXED_NAMES)
  }

  function KernelPattern(t: Traits, cat: Category): AccessPattern {
    if IsHardware(cat) then Static
    else if cat == CatKernIdentity then
      if t.tunable then Constrained else Static
    else if cat == CatMachdep then
      if t.cpuIdentity then Static
      else if t.tunable then Constrained
      else Dynamic
    else if cat == CatKernTime then
      if t.clock then Static else Dynamic
    else if cat == CatKernMisc && t.bootFlag then Static
    else if t.tunable then Constrained
    else Dynamic
  }

  function ClassifyKernel(name: string, cat: Category): AccessPattern {
    KernelPattern(TraitsOf(name), cat)
  }

  function Every(pattern: AccessPattern, seconds: int): AccessConfig {
    AccessConfig(pattern, Some(Duration(seconds, 0)))
  }

  /** Refresh period in seconds of a counter that is neither fixed nor a tunable; earlier tests win. */
  function PollSeconds(name: string, cat: Category): Option<int> {
    if cat == CatComputed then Some(10)
    else if cat in {CatVMPages, CatVMPageout, CatVMPressure, CatKernProcess, CatSecurity} then Some(10)
    else if cat == CatVMCompressor then Some(10)
    else if name == "kern.memorystatus_level" then Some(10)
    else if name in CONNECTION_COUNTS then Some(10)
    else if cat == CatVFS then Some(10)
    else if cat == CatVMMisc then Some(10)
    else if name == "vm.swapusage" then Some(30)
    else if cat == CatVMSwap then Some(60)
    else if cat == CatVMWire then Some(60)
    else if cat == CatKernTime then Some(30)
    else if cat == CatMachdep then Some(30)
    else if cat == CatKernLimits then Some(60)
    else if cat == CatKernIPC then Some(60)
    else if cat == CatKernSched then Some(60)
    else if cat == CatKernMisc then Some(60)
    else if cat == CatKernMemory then Some(60)
    else if cat in {CatNetTCP, CatNetUDP, CatNetIP, CatNetMisc} then Some(60)
    else if cat in {CatDebug, CatKPC, CatIOGPU} then Some(60)
    else None
  }

  /** The order of the tests decides between overlapping rules; `poll` is the period that the last ones give. */
  function RecommendedConfig(t: Traits, cat: Category, poll: Option<int>): AccessConfig {
    if IsHardware(cat) then AccessConfig(Static, None)
    else if cat == CatKernIdentity then
      if t.tunable then Every(Constrained, 60) else AccessConfig(Static, None)
    else if cat == CatMachdep && t.cpuIdentity then AccessConfig(Static, None)
    else if t.fixed then AccessConfig(Static, None)
    else if t.tunable then Every(Constrained, 60)
    else
      match poll
      case Some(seconds) => Every(Polled, seconds)
      case None => AccessConfig(Dynamic, None)
  }

  /** Recommended pattern and TTL. */
  function ClassifyRecommended(name: string, cat: Category): AccessConfig {
    RecommendedConfig(TraitsOf(name), cat, PollSeconds(name, cat))
  }

  lemma PollPeriods(name: string, cat: Category)
    ensures PollSeconds(name, cat).Some? ==>
              var s := PollSeconds(name, cat).value; s == 10 || s == 30 || s == 60
  {
  }

  /** How often each pattern is refreshed, in the order of the access chain. */
  function Frequency(p: AccessPattern): nat {
    match p
    case Dynamic => 4
    case Polled => 3
    case Constrained => 2
    case Static => 1
    case Disabled => 0
    case Unspecified => 4
  }

  /** The chain over traits: a clock is among the fixed names, and no boot flag is. */
  lemma ChainOverTraits(t: Traits, cat: Category, poll: Option<int>)
    requires t.clock ==> t.fixed
    requires t.bootFlag ==> !t.fixed
    ensures Frequency(RecommendedConfig(t, cat, poll).pattern) <= Frequency(KernelPattern(t, cat)) <==>
            !(cat == CatKernMisc && t.bootFlag)
  {
  }

  /**
   * The documented chain says that a layer never refreshes more often than its source. The generator obeys it
   * exactly outside the boot flags, which it calls STATIC for the kernel and yet recommends polling.
   */
  lemma ChainHoldsOutsideBootFlags(name: string, cat: Category)
    ensures Frequency(ClassifyRecommended(name, cat).pattern) <= Frequency(ClassifyKernel(name, cat)) <==>
            !(cat == CatKernMisc && name in BOOT_FLAGS)
  {
    var t := TraitsOf(name);
    if t.bootFlag { BootFlagsAreNotStatic(name); }
    ChainOverTraits(t, cat, PollSeconds(name, cat));
  }

  /** One of the inputs on which the chain breaks. */
  lemma HvSupportBreaksTheChain()
    ensures Frequency(ClassifyRecommended("kern.hv_support", CatKernMisc).pattern)
            > Frequency(ClassifyKernel("kern.hv_support", CatKernMisc))
  {
    ChainHoldsOutsideBootFlags("kern.hv_support", CatKernMisc);
  }

  lemma BootFlagsAreNotStatic(name: string)
    requires name in BOOT_FLAGS
    ensures name !in FIXED_NAMES
  {
    assert "kern.sched"[5] == 's' && "kern.sched"[6] == 'c';
    assert name[5] == 's' ==> name[6] != 'c';
    assert "kern.boottime"[5] == 'b' && "kern.clockrate"[5] == 'c' && "vm.swapfileprefix"[0] == 'v';
  }

  /** Tunables over traits. */
  lemma TunableOverTraits(t: Traits, cat: Category, poll: Option<int>)
    requires t.tunable && !t.cpuIdentity && !t.bootFlag && !t.fixed && !t.clock
    ensures RecommendedConfig(t, cat, poll) == Every(Constrained, 60) <==> !IsHardware(cat)
    ensures KernelPattern(t, cat) == Constrained <==> !IsHardware(cat) && cat != CatKernTime
  {
  }

  /**
   * Rules overlap, but a writable tunable is never taken for a fixed value outside the hardware categories:
   * it is recommended at 60 seconds, and the kernel side calls it CONSTRAINED except among the time metrics.
   */
  lemma TunablesAreConstrained(name: string, cat: Category)
    ensures name in WRITABLE_TUNABLES ==>
              && (ClassifyRecommended(name, cat) == Every(Constrained, 60) <==> !IsHardware(cat))
              && (ClassifyKernel(name, cat) == Constrained <==> !IsHardware(cat) && cat != CatKernTime)
  {
    TunablesAreNotFixed(name);
    var t := TraitsOf(name);
    if t.tunable { TunableOverTraits(t, cat, PollSeconds(name, cat)); }
  }

  /** Letters that tell the tunables from the names fixed elsewhere. */
  predicate TunableLetters(name: string) {
    && |name| > 8
    && (name[0] == 'm' ==> name[8] == 'u')
    && (name[0] == 'v' ==> name[3] != 's')
    && (name[0] == 'k' && name[4] == '.' ==>
          && name[5] != 's' && name[5] != 'b'
          && (name[5] == 'h' ==> name[6] != 'v')
          && (name[5] == 'c' ==> name[6] != 'l'))
  }

  lemma LimitsHaveTheLetters(name: string)
    requires name in KERNEL_LIMITS + IPC_LIMITS
    ensures TunableLetters(name)
  {
  }

  lemma KernelTunablesHaveTheLetters(name: string)
    requires name in SCHEDULING + MEMORY_PURGE + MISC_TUNABLES + VM_WIRE_LIMITS
    ensures TunableLetters(name)
  {
  }

  lemma NetworkTunablesHaveTheLetters(name: string)
    requires name in TCP_CONFIG + UDP_CONFIG + IP_CONFIG
    ensures TunableLetters(name)
  {
    assert name[0] == 'n';
  }

  lemma DeviceTunablesHaveTheLetters(name: string)
    requires name in DEBUG_CONFIG + IOGPU_CONFIG + KPC_CONFIG + MACHDEP_CONFIG
    ensures TunableLetters(name)
  {
  }

  lemma TunablesHaveTheLetters(name: string)
    ensures name in WRITABLE_TUNABLES ==> TunableLetters(name)
  {
    if name !in WRITABLE_TUNABLES {
    } else if name in KERNEL_LIMITS + IPC_LIMITS {
      LimitsHaveTheLetters(name);
    } else if name in SCHEDULING + MEMORY_PURGE + MISC_TUNABLES + VM_WIRE_LIMITS {
      KernelTunablesHaveTheLetters(name);
    } else if name in TCP_CONFIG + UDP_CONFIG + IP_CONFIG {
      NetworkTunablesHaveTheLetters(name);
    } else {
      DeviceTunablesHaveTheLetters(name);
    }
  }

  lemma FixedNamesLackTheLetters(name: string)
    requires name in CPU_IDENTITY || name in BOOT_FLAGS || name in FIXED_NAMES
    ensures !TunableLetters(name)
  {
  }

  lemma TunablesAreNotFixed(name: string)
    ensures name in WRITABLE_TUNABLES ==> name !in CPU_IDENTITY && name !in BOOT_FLAGS && name !in FIXED_NAMES
  {
    TunablesHaveTheLetters(name);
    if name in CPU_IDENTITY || name in BOOT_FLAGS || name in FIXED_NAMES {
      FixedNamesLackTheLetters(name);
    }
  }

  lemma ConfigOverTraits(t: Traits, cat: Category, poll: Option<int>)
    requires poll.Some? ==> poll.value == 10 || poll.value == 30 || poll.value == 60
    ensures var rec := RecommendedConfig(t, cat, poll);
            && rec.pattern in {Static, Polled, Constrained, Dynamic}
            && (rec.ttl.Some? <==> NeedsTtl(rec.pattern))
            && (rec.pattern == Polled ==> rec.ttl.value.seconds in {10, 30, 60} && rec.ttl.value.nanos == 0)
            && (rec.pattern == Constrained ==> rec.ttl.value == Duration(60, 0) && t.tunable)
  {
  }

  /** Every classification is one of four kinds, and a TTL is given exactly to what is polled. */
  lemma ClassificationIsConfigured(name: string, cat: Category)
    ensures var rec := ClassifyRecommended(name, cat);
            && rec.pattern in {Static, Polled, Constrained, Dynamic}
            && (rec.ttl.Some? <==> NeedsTtl(rec.pattern))
            && (rec.pattern == Polled ==> rec.ttl.value.seconds in {10, 30, 60} && rec.ttl.value.nanos == 0)
            && (rec.pattern == Constrained ==> rec.ttl.value == Duration(60, 0))
            && (rec.pattern == Constrained ==> name in WRITABLE_TUNABLES)
  {
    PollPeriods(name, cat);
    ConfigOverTraits(TraitsOf(name), cat, PollSeconds(name, cat));
  }

  // ---------------------------------------------------------------- the classification, class by class

  lemma HardwareCategories(cat: Category)
    ensures IsHardware(cat) <==>
            cat == CatHWCPU || cat == CatHWMemory || cat == CatHWCache || cat == CatHWPerflevel || cat == CatHWARM
            || cat == CatHWMisc
  {
  }

  /** Values that stay what they are for as long as the system runs. */
  predicate NeverChanges(name: string, cat: Category) {
    || IsHardware(cat)
    || (cat == CatKernIdentity && name !in WRITABLE_TUNABLES)
    || (cat == CatMachdep && name in CPU_IDENTITY)
    || name in FIXED_NAMES
  }

  /** Counters that change fast, by category or by name. */
  predicate ChangesFast(name: string, cat: Category) {
    || cat in {
         CatComputed, CatVMPages, CatVMPageout, CatVMPressure, CatKernProcess, CatSecurity, CatVMCompressor,
         CatVFS, CatVMMisc
       }
    || name == "kern.memorystatus_level"
    || name in CONNECTION_COUNTS
  }

  predicate ChangesModerately(name: string, cat: Category) {
    name == "vm.swapusage" || cat == CatKernTime || cat == CatMachdep
  }

  predicate ChangesSlowly(cat: Category) {
    cat in {
      CatVMSwap, CatVMWire, CatKernLimits, CatKernIPC, CatKernSched, CatKernMisc, CatKernMemory,
      CatNetTCP, CatNetUDP, CatNetIP, CatNetMisc, CatDebug, CatKPC, CatIOGPU
    }
  }

  lemma PollSecondsByClass(name: string, cat: Category)
    ensures PollSeconds(name, cat) ==
            if ChangesFast(name, cat) then Some(10)
            else if ChangesModerately(name, cat) then Some(30)
            else if ChangesSlowly(cat) then Some(60)
            else None
  {
  }

  /** The six classes of recommended access: this is the whole condition for each of them. */
  lemma RecommendedClasses(name: string, cat: Category)
    ensures ClassifyRecommended(name, cat) ==
            if NeverChanges(name, cat) then AccessConfig(Static, None)
            else if name in WRITABLE_TUNABLES then AccessConfig(Constrained, Some(Duration(60, 0)))
            else if ChangesFast(name, cat) then AccessConfig(Polled, Some(Duration(10, 0)))
            else if ChangesModerately(name, cat) then AccessConfig(Polled, Some(Duration(30, 0)))
            else if ChangesSlowly(cat) then AccessConfig(Polled, Some(Duration(60, 0)))
            else AccessConfig(Dynamic, None)
  {
    var t, poll := TraitsOf(name), PollSeconds(name, cat);
    assert t.tunable ==> !t.cpuIdentity && !t.fixed by { TunablesAreNotFixed(name); }
    RecommendedOverTraits(t, cat, poll);
    FixedByTraits(name, cat);
    PollSecondsByClass(name, cat);
  }

  predicate FixedOverTraits(t: Traits, cat: Category) {
    IsHardware(cat) || (cat == CatKernIdentity && !t.tunable) || (cat == CatMachdep && t.cpuIdentity) || t.fixed
  }

  lemma FixedByTraits(name: string, cat: Category)
    ensures NeverChanges(name, cat) <==> FixedOverTraits(TraitsOf(name), cat)
  {
  }

  lemma RecommendedOverTraits(t: Traits, cat: Category, poll: Option<int>)
    requires t.tunable ==> !t.cpuIdentity && !t.fixed
    ensures RecommendedConfig(t, cat, poll) ==
            if FixedOverTraits(t, cat) then AccessConfig(Static, None)
            else if t.tunable then AccessConfig(Constrained, Some(Duration(60, 0)))
            else if poll.Some? then AccessConfig(Polled, Some(Duration(poll.value, 0)))
            else AccessConfig(Dynamic, None)
  {
  }

  /** Every metric of a built-in category is stored or polled; only foreign categories are left to live reads. */
  lemma OnlyForeignCategoriesAreDynamic(name: string, cat: Category)
    ensures ClassifyRecommended(name, cat).pattern == Dynamic ==> cat.CatOther?
  {
    RecommendedClasses(name, cat);
    ClassificationIsConfigured(name, cat);
  }

  /** What the kernel side holds fixed. */
  predicate KernelFixes(name: string, cat: Category) {
    || IsHardware(cat)
    || (cat == CatKernIdentity && name !in WRITABLE_TUNABLES)
    || (cat == CatMachdep && name in CPU_IDENTITY)
    || (cat == CatKernTime && (name == "kern.boottime" || name == "kern.clockrate"))
    || (cat == CatKernMisc && name in BOOT_FLAGS)
  }

  /** The three classes of kernel access: this is the whole condition for each of them. */
  lemma KernelClasses(name: string, cat: Category)
    ensures ClassifyKernel(name, cat) ==
            if KernelFixes(name, cat) then Static
            else if name in WRITABLE_TUNABLES && cat != CatKernTime then Constrained
            else Dynamic
  {
    var t := TraitsOf(name);
    assert t.tunable ==> !t.cpuIdentity && !t.bootFlag by { TunablesAreNotFixed(name); }
    KernelOverTraits(t, cat);
    KernelFixedByTraits(name, cat);
  }

  predicate KernelFixedOverTraits(t: Traits, cat: Category) {
    || IsHardware(cat) || (cat == CatKernIdentity && !t.tunable) || (cat == CatMachdep && t.cpuIdentity)
    || (cat == CatKernTime && t.clock) || (cat == CatKernMisc && t.bootFlag)
  }

  lemma KernelFixedByTraits(name: string, cat: Category)
    ensures KernelFixes(name, cat) <==> KernelFixedOverTraits(TraitsOf(name), cat)
  {
  }

  lemma KernelOverTraits(t: Traits, cat: Category)
    requires t.tunable ==> !t.cpuIdentity && !t.bootFlag
    ensures KernelPattern(t, cat) ==
            if KernelFixedOverTraits(t, cat) then Static
            else if t.tunable && cat != CatKernTime then Constrained
            else Dynamic
  {
  }

  /** The tables behind the classes, name by name. */
  lemma ListedNames()
    ensures CPU_IDENTITY == {
              "machdep.cpu.brand_string", "machdep.cpu.core_count", "machdep.cpu.thread_count",
              "machdep.cpu.cores_per_package", "machdep.cpu.logical_per_package", "machdep.ptrauth_enabled",
              "machdep.virtual_address_size"
            }
    ensures BOOT_FLAGS == {
              "kern.hv_support", "kern.secure_kernel", "kern.safeboot", "kern.slide", "kern.stack_size",
              "kern.stack_depth_max"
            }
    ensures FIXED_NAMES == {"kern.sched", "vm.swapfileprefix", "kern.boottime", "kern.clockrate"}
    ensures CONNECTION_COUNTS == {
              "net.inet.tcp.pcbcount", "net.inet.udp.pcbcount", "net.local.pcbcount", "net.soflow.count",
              "net.inet.mptcp.pcbcount", "net.inet.tcp.sack_globalholes", "net.inet.tcp.cubic_sockets"
            }
    ensures WRITABLE_TUNABLES ==
            {
                "kern.maxproc", "kern.maxprocperuid", "kern.maxfiles", "kern.maxfilesperproc",
                "kern.maxvnodes", "kern.maxnbuf", "kern.aiomax", "kern.aioprocmax", "kern.coredump"
              }
            + {"kern.ipc.maxsockbuf", "kern.ipc.somaxconn"}
            + {"kern.cpu_checkin_interval", "kern.wq_max_threads", "kern.wq_max_constrained_threads"}
            + {
                "kern.memorystatus_purge_on_warning", "kern.memorystatus_purge_on_urgent",
                "kern.memorystatus_purge_on_critical"
              }
            + {"kern.hostname", "kern.hibernatemode"}
            + {"vm.global_user_wire_limit", "vm.user_wire_limit", "vm.global_no_user_wire_amount"}
            + {
                "net.inet.tcp.mssdflt", "net.inet.tcp.v6mssdflt", "net.inet.tcp.keepidle",
                "net.inet.tcp.keepintvl", "net.inet.tcp.keepcnt", "net.inet.tcp.sendspace",
                "net.inet.tcp.recvspace", "net.inet.tcp.sack", "net.inet.tcp.delayed_ack",
                "net.inet.tcp.fastopen", "net.inet.tcp.ecn_initiate_out", "net.inet.tcp.ecn_negotiate_in",
                "net.inet.tcp.blackhole", "net.inet.tcp.always_keepalive", "net.inet.tcp.sack_globalmaxholes"
              }
            + {"net.inet.udp.maxdgram", "net.inet.udp.recvspace", "net.inet.udp.checksum"}
            + {"net.inet.ip.forwarding", "net.inet.ip.ttl", "net.inet.ip.maxfragpackets"}
            + {"debug.lowpri_throttle_enabled", "debug.bpf_bufsize", "debug.bpf_maxbufsize"}
            + {"iogpu.wired_limit_mb", "iogpu.wired_lwm_mb", "iogpu.dynamic_lwm"}
            + {"kperf.debug_level"}
            + {"machdep.user_idle_level"}
  {
  }

  // ---------------------------------------------------------------- the generated text

  /** The text at record level; reading it back keeps the records and drops the comments and blank lines. */
  datatype Line = Blank | CategoryHeader(cat: Category) | Record(km: KernelMetric)

  function GeneratedRecord(info: Info): KernelMetric {
    KernelMetric(info.name, "", None, None,
                 Some(AccessConfig(ClassifyKernel(info.name, info.category), None)),
                 Some(ClassifyRecommended(info.name, info.category)), "")
  }

  function Generated(known: seq<Info>): seq<KernelMetric> {
    seq(|known|, i requires 0 <= i < |known| => GeneratedRecord(known[i]))
  }

  /** The records among the first `n` lines. */
  function RecordsTo(text: seq<Line>, n: nat): seq<KernelMetric>
    requires n <= |text|
  {
    if n == 0 then []
    else RecordsTo(text, n - 1) + match text[n - 1] case Record(km) => [km] case _ => []
  }

  function Records(text: seq<Line>): seq<KernelMetric> {
    RecordsTo(text, |text|)
  }

  lemma {:induction false} RecordsOfPrefix(text: seq<Line>, more: seq<Line>, n: nat)
    requires n <= |text|
    ensures RecordsTo(text + more, n) == RecordsTo(text, n)
  {
    if n > 0 { RecordsOfPrefix(text, more, n - 1); }
  }

  lemma {:induction false} CommentsAddNothing(text: seq<Line>, comments: seq<Line>, n: nat)
    requires n <= |comments| && forall k :: 0 <= k < |comments| ==> !comments[k].Record?
    ensures RecordsTo(text + comments, |text| + n) == Records(text)
  {
    if n == 0 {
      RecordsOfPrefix(text, comments, |text|);
    } else {
      CommentsAddNothing(text, comments, n - 1);
      assert (text + comments)[|text| + n - 1] == comments[n - 1];
    }
  }

  /** The generated records, field by field: a name and two access configs, and nothing else. */
  lemma GeneratedFields(known: seq<Info>, i: nat)
    requires i < |known|
    ensures |Generated(known)| == |known|
    ensures var km := Generated(known)[i];
            && km.name == known[i].name
            && km.kernelAccess == Some(AccessConfig(ClassifyKernel(known[i].name, known[i].category), None))
            && km.recommended == Some(ClassifyRecommended(known[i].name, known[i].category))
            && km.description == km.notes == "" && km.valueType == None && km.category == None
  {
  }

  /** The lines before record `i`: a header where its category differs from that of the entry before it. */
  function Comments(known: seq<Info>, i: nat): (comments: seq<Line>)
    requires i < |known|
    ensures forall k :: 0 <= k < |comments| ==> !comments[k].Record?
  {
    var last := if i == 0 then CatOther("") else known[i - 1].category;
    if known[i].category == last then []
    else (if last == CatOther("") then [] else [Blank]) + [CategoryHeader(known[i].category)]
  }

  function Blocks(known: seq<Info>, n: nat, record: Info -> KernelMetric): seq<Line>
    requires n <= |known|
  {
    if n == 0 then []
    else Blocks(known, n - 1, record) + Comments(known, n - 1) + [Record(record(known[n - 1]))]
  }

  /** A record that keeps the category follows the text directly; any other one follows a blank line and a header. */
  lemma HeadersMarkChanges(known: seq<Info>, i: nat, record: Info -> KernelMetric)
    requires i < |known|
    ensures var text, cat := Blocks(known, i, record), known[i].category;
            Blocks(known, i + 1, record) ==
            if i > 0 && known[i - 1].category == cat then text + [Record(record(known[i]))]
            else if i > 0 && known[i - 1].category != CatOther("") then
              text + [Blank, CategoryHeader(cat), Record(record(known[i]))]
            else if cat == CatOther("") then text + [Record(record(known[i]))]
            else text + [CategoryHeader(cat), Record(record(known[i]))]
  {
  }

  /** Whatever comments precede it, a record adds itself. */
  lemma RecordsOfEntry(text: seq<Line>, comments: seq<Line>, km: KernelMetric)
    requires forall k :: 0 <= k < |comments| ==> !comments[k].Record?
    ensures Records(text + comments + [Record(km)]) == Records(text) + [km]
  {
    CommentsAddNothing(text, comments, |comments|);
    RecordsOfPrefix(text + comments, [Record(km)], |text + comments|);
  }

  lemma RecordsOfNextBlock(known: seq<Info>, n: nat, record: Info -> KernelMetric)
    requires n < |known|
    ensures Records(Blocks(known, n + 1, record)) == Records(Blocks(known, n, record)) + [record(known[n])]
  {
    RecordsOfEntry(Blocks(known, n, record), Comments(known, n), record(known[n]));
  }

  function RecordsOf(known: seq<Info>, n: nat, record: Info -> KernelMetric): seq<KernelMetric>
    requires n <= |known|
  {
    if n == 0 then [] else RecordsOf(known, n - 1, record) + [record(known[n - 1])]
  }

  lemma {:induction false} RecordsOfEach(known: seq<Info>, n: nat, record: Info -> KernelMetric)
    requires n <= |known|
    ensures |RecordsOf(known, n, record)| == n
    ensures forall i :: 0 <= i < n ==> RecordsOf(known, n, record)[i] == record(known[i])
  {
    if n > 0 { RecordsOfEach(known, n - 1, record); }
  }

  /** The blocks hold one record an entry, in order. */
  lemma {:induction false} RecordsOfBlocks(known: seq<Info>, n: nat, record: Info -> KernelMetric)
    requires n <= |known|
    ensures Records(Blocks(known, n, record)) == RecordsOf(known, n, record)
  {
    if n > 0 {
      RecordsOfBlocks(known, n - 1, record);
      RecordsOfNextBlock(known, n - 1, record);
    }
  }

  /** The generator's main loop: a header whenever the category changes, then the record. */
  method WriteText(known: seq<Info>, record: Info -> KernelMetric) returns (text: seq<Line>)
    ensures Records(text) == seq(|known|, i requires 0 <= i < |known| => record(known[i]))
    ensures text == Blocks(known, |known|, record)
  {
    text := [];
    var lastCat := CatOther("");
    for i := 0 to |known|
      invariant lastCat == if i == 0 then CatOther("") else known[i - 1].category
      invariant text == Blocks(known, i, record)
    {
      var info := known[i];
      var comments: seq<Line> := [];
      if info.category != lastCat {
        if lastCat != CatOther("") {
          comments := comments + [Blank];
        }
        comments := comments + [CategoryHeader(info.category)];
        lastCat := info.category;
      }
      assert comments == Comments(known, i);
      text := text + comments + [Record(record(info))];
    }
    RecordsOfBlocks(known, |known|, record);
    RecordsOfEach(known, |known|, record);
  }

  method Generate(known: seq<Info>) returns (text: seq<Line>)
    ensures Records(text) == Generated(known)
    ensures text == Blocks(known, |known|, (info: Info) => GeneratedRecord(info))
  {
    text := WriteText(known, (info: Info) => GeneratedRecord(info));
  }
}
