/** Per-cell memory accounting of the lattice Boltzmann solver's status
    module: what each compile-time feature costs in host memory, resident
    device memory and device traffic per time step, and how those per-cell
    costs become whole megabytes for the lattice. */
module Footprint {
  import opened MachineInts

  /** One mebibyte, the divisor of every "MB" figure. */
  const MIB: int := 1048576

  /** Totals below 2^52 bytes are exact in the 64-bit product and give a
      megabyte count below 2^32, so neither truncation changes the figure. */
  const EXACT_LIMIT: int := 0x10_0000_0000_0000

  /** Storage precision of the density distribution functions. */
  datatype Precision = FP32 | FP16S | FP16C

  /** `sizeof(fpxx)`: `float` in FP32 mode, `ushort` in both FP16 modes. */
  function StorageBytes(p: Precision): nat {
    if p == FP32 then 4 else 2
  }

  /** `count * sizeof(fpxx)`, the bytes of `count` stored values, written
      per precision so that it stays linear in `count`. */
  function FpxxBytes(count: int, p: Precision): int {
    if p == FP32 then 4 * count else 2 * count
  }

  lemma FpxxBytesProduct(count: int, p: Precision)
    ensures FpxxBytes(count, p) == count * StorageBytes(p)
  {
  }

  /** The feature macros that change the memory accounting. */
  datatype Config = Config(
    updateFields: bool,       // UPDATE_FIELDS: density and velocity are written each step
    movingBoundaries: bool,   // MOVING_BOUNDARIES
    surface: bool,            // SURFACE: free-surface extension
    temperature: bool,        // TEMPERATURE: thermal extension
    precision: Precision)     // FP16S / FP16C / FP32

  /** The velocity sets the solver offers: D2Q9, D3Q15, D3Q19, D3Q27. */
  predicate IsVelocitySet(vs: int) {
    vs == 9 || vs == 15 || vs == 19 || vs == 27
  }

  /** Neighbour flags must be loaded by any of these three extensions. */
  predicate LoadsNeighbourFlags(cfg: Config) {
    cfg.movingBoundaries || cfg.surface || cfg.temperature
  }

  /** Bytes per cell and step moved by the four free-surface kernels:
      flags, populations, mass and excess mass; flags; flags; density,
      flags, mass, excess mass and fill level. */
  function SurfaceTransfer(vs: int, p: Precision): (r: int)
    // in closed form: 2vs-1 stored populations, plus 5vs + 23 bytes
    ensures r == FpxxBytes(2 * vs - 1, p) + 5 * vs + 23
  {
    (1 + FpxxBytes(2 * vs - 1, p) + 8 + (vs - 1) * 4) + 1 + 1 + (4 + vs + 4 + 4 + 4)
  }

  /** Per-cell byte costs: what `initialize` adds to the host allocation,
      and the device allocation and device transfer it sets. */
  datatype CellCost = CellCost(hostIncrement: nat, deviceAllocation: nat, deviceTransfer: nat)

  function CellFootprint(cfg: Config, vs: nat): (f: CellCost)
    requires IsVelocitySet(vs)
    // the populations plus flags, density and velocity are always resident
    ensures f.deviceAllocation >= FpxxBytes(vs, cfg.precision) + 17
    // both population buffers are always moved
    ensures f.deviceTransfer >= FpxxBytes(2 * vs, cfg.precision) + 1
    // the host side only ever grows by the fill-level and temperature mirrors
    ensures f.hostIncrement <= 8
    ensures f.deviceAllocation < UINT32_LIMIT && f.deviceTransfer < UINT32_LIMIT
  {
    var p := cfg.precision;
    CellCost(
      (if cfg.surface then 4 else 0) + (if cfg.temperature then 4 else 0),
      FpxxBytes(vs, p) + 17
        + (if cfg.surface then 12 else 0)
        + (if cfg.temperature then FpxxBytes(7, p) + 4 else 0),
      FpxxBytes(2 * vs, p) + 17
        - (if cfg.updateFields then 0 else 16)
        + (if LoadsNeighbourFlags(cfg) then vs - 1 else 0)
        + (if cfg.surface then SurfaceTransfer(vs, p) else 0)
        + (if cfg.temperature then FpxxBytes(7 * 2, p) + 4 else 0))
  }

  /** `(uint)((ulong)n * (ulong)bytes / 1048576ull)`: whole megabytes of
      `n` cells of `bytes` each, with the 64-bit product and the narrowing
      to `uint` of the source. */
  function Megabytes(n: uint64, bytes: uint64): (r: uint32)
    // the truncations can only understate the true size
    ensures r <= n * bytes / MIB
    // below the exact limit it is the floor of the size in megabytes
    ensures n * bytes < EXACT_LIMIT ==> r * MIB <= n * bytes < (r + 1) * MIB
  {
    var wrapped := MulUint64(n, bytes);
    DivMonotone(wrapped, n * bytes);
    ToUint32(wrapped / MIB)
  }

  /** The "Max Alloc Size" figure: megabytes of one population buffer,
      `n * (vs * sizeof(fpxx))`, the largest single device buffer. */
  function MaxAllocSize(n: uint64, vs: nat, p: Precision): (r: uint32)
    requires IsVelocitySet(vs)
    ensures r <= n * FpxxBytes(vs, p) / MIB
  {
    Megabytes(n, FpxxBytes(vs, p))
  }

  lemma DivMonotone(a: int, b: int)
    requires 0 <= a <= b
    ensures a / MIB <= b / MIB
  {
  }

  lemma {:induction false} MulMonotone(a: nat, b: nat, c: nat, d: nat)
    requires a <= c && b <= d
    ensures a * b <= c * d
  {
    assert a * b <= c * b;
    assert c * b <= c * d;
  }

  lemma ModAddLeft(x: nat, y: nat)
    ensures (x % UINT32_LIMIT + y) % UINT32_LIMIT == (x + y) % UINT32_LIMIT
  {
    var q := x / UINT32_LIMIT;
    assert x == q * UINT32_LIMIT + x % UINT32_LIMIT;
  }

  /** Two optional `+= 4u` steps on a `uint` add up modulo 2^32. */
  lemma HostSteps(h: uint32, h1: uint32, h2: uint32, first: bool, second: bool)
    requires h1 == if first then ToUint32(h + 4) else h
    requires h2 == if second then ToUint32(h1 + 4) else h1
    ensures h2 == ToUint32(h + (if first then 4 else 0) + (if second then 4 else 0))
  {
    if first && second {
      ModAddLeft(h + 4, 4);
    }
  }

  /** The accounting fields of `Info` that `initialize` writes. */
  datatype Accounting = Accounting(
    hostAllocation: uint32,
    deviceAllocation: uint32,
    deviceTransfer: uint32,
    cpuMemRequired: uint32,
    gpuMemRequired: uint32)

  /** The accounting after the per-cell part of `initialize`: the device
      counters are set, the host counter grows by the host increment. */
  function Accumulated(a: Accounting, cfg: Config, vs: nat): (r: Accounting)
    requires IsVelocitySet(vs)
    // in 32-bit arithmetic the host counter advances by exactly the increment
    ensures (r.hostAllocation - a.hostAllocation) % UINT32_LIMIT == CellFootprint(cfg, vs).hostIncrement
    // the megabyte figures are not touched by the per-cell part
    ensures r.cpuMemRequired == a.cpuMemRequired && r.gpuMemRequired == a.gpuMemRequired
  {
    var f := CellFootprint(cfg, vs);
    a.(hostAllocation := ToUint32(a.hostAllocation + f.hostIncrement),
       deviceAllocation := f.deviceAllocation,
       deviceTransfer := f.deviceTransfer)
  }

  /** The accounting after `initialize` on a lattice of `n` cells with
      velocity set `vs`, from the accounting `a` before it. */
  function Initialized(a: Accounting, cfg: Config, vs: nat, n: uint64): (r: Accounting)
    requires IsVelocitySet(vs)
    // the reported figures never overstate the memory the lattice needs
    ensures r.cpuMemRequired <= n * r.hostAllocation / MIB
    ensures r.gpuMemRequired <= n * r.deviceAllocation / MIB
  {
    var b := Accumulated(a, cfg, vs);
    b.(cpuMemRequired := Megabytes(n, b.hostAllocation),
       gpuMemRequired := Megabytes(n, b.deviceAllocation))
  }

  /** The segment bookkeeping of `Info`. */
  datatype Progress = Progress(
    steps: uint64,       // target step count of the segment, or MAX_ULONG
    stepsLast: uint64,   // step counter when the segment started
    runtime: real,       // cumulative wall-clock time
    runtimeLast: real,   // runtime when the segment started
    dt: real,            // last measured time per step
    dtSmooth: real)      // smoothed time per step

  /** `append(steps, t)`: a new segment's target and baselines. */
  function Appended(p: Progress, steps: uint64, t: uint64): (r: Progress)
    // the target and both baselines are taken from the call and the runtime
    ensures r.steps == steps && r.stepsLast == t && r.runtimeLast == p.runtime
    // the runtime and the step-time estimates carry over
    ensures r.runtime == p.runtime && r.dt == p.dt && r.dtSmooth == p.dtSmooth
    // the segment is open-ended exactly when the target is the sentinel
    ensures RunsIndefinitely(r) <==> steps == MAX_ULONG
  {
    p.(steps := steps, stepsLast := t, runtimeLast := p.runtime)
  }

  /** The segment runs without a step target. */
  predicate RunsIndefinitely(p: Progress) {
    p.steps == MAX_ULONG
  }

  // ---------------------------------------------------------------------
  // Per-feature contributions to the cell footprint

  /** The configuration with every optional extension switched off. */
  function Plain(p: Precision): Config {
    Config(true, false, false, false, p)
  }

  /** The device allocation is the populations plus 17 bytes, plus 12 for
      the free surface and 7s+4 for temperature, and nothing else. */
  lemma {:induction false} DeviceAllocationParts(cfg: Config, other: Config, vs: nat)
    requires IsVelocitySet(vs)
    requires other.surface == cfg.surface && other.temperature == cfg.temperature
    requires other.precision == cfg.precision
    ensures CellFootprint(other, vs).deviceAllocation == CellFootprint(cfg, vs).deviceAllocation
    ensures var s := StorageBytes(cfg.precision);
      CellFootprint(cfg, vs).deviceAllocation
        == vs * s + 17 + (if cfg.surface then 12 else 0) + (if cfg.temperature then 7 * s + 4 else 0)
  {
    FpxxBytesProduct(vs, cfg.precision);
    FpxxBytesProduct(7, cfg.precision);
  }

  /** Without UPDATE_FIELDS the transfer is exactly 16 bytes less, and
      nothing else differs. */
  lemma FieldsDiscount(cfg: Config, vs: nat)
    requires IsVelocitySet(vs)
    ensures CellFootprint(cfg.(updateFields := false), vs).deviceTransfer + 16
         == CellFootprint(cfg.(updateFields := true), vs).deviceTransfer
    ensures CellFootprint(cfg.(updateFields := false), vs).deviceAllocation
         == CellFootprint(cfg.(updateFields := true), vs).deviceAllocation
    ensures CellFootprint(cfg.(updateFields := false), vs).hostIncrement
         == CellFootprint(cfg.(updateFields := true), vs).hostIncrement
  {
  }

  /** The neighbour-flag surcharge of vs-1 bytes is paid once: moving
      boundaries add it only when neither other extension already did, and
      add nothing else. */
  lemma MovingBoundariesContribution(cfg: Config, vs: nat)
    requires IsVelocitySet(vs)
    ensures var on := CellFootprint(cfg.(movingBoundaries := true), vs);
      var off := CellFootprint(cfg.(movingBoundaries := false), vs);
      on.deviceTransfer == off.deviceTransfer + (if cfg.surface || cfg.temperature then 0 else vs - 1)
      && on.deviceAllocation == off.deviceAllocation
      && on.hostIncrement == off.hostIncrement
  {
  }

  /** With no extension the transfer is the two population buffers plus
      17 bytes (1 without UPDATE_FIELDS). In every configuration the
      transfer is that base, the vs-1 neighbour-flag bytes once if any of
      the three extensions is on (however many are), and the surface and
      temperature traffic of those that are on. */
  lemma {:induction false} NeighbourSurchargeOnce(cfg: Config, vs: nat)
    requires IsVelocitySet(vs)
    ensures var none := cfg.(movingBoundaries := false, surface := false, temperature := false);
      var s := StorageBytes(cfg.precision);
      CellFootprint(none, vs).deviceTransfer == vs * 2 * s + (if cfg.updateFields then 17 else 1)
      && CellFootprint(none.(movingBoundaries := true), vs).deviceTransfer
         == CellFootprint(none, vs).deviceTransfer + (vs - 1)
    ensures var none := cfg.(movingBoundaries := false, surface := false, temperature := false);
      var s := StorageBytes(cfg.precision);
      CellFootprint(cfg, vs).deviceTransfer
        == CellFootprint(none, vs).deviceTransfer
           + (if LoadsNeighbourFlags(cfg) then vs - 1 else 0)
           + (if cfg.surface then SurfaceTransfer(vs, cfg.precision) else 0)
           + (if cfg.temperature then 14 * s + 4 else 0)
  {
    FpxxBytesProduct(2 * vs, cfg.precision);
    FpxxBytesProduct(14, cfg.precision);
  }

  /** SURFACE adds 4 host bytes, 12 device bytes and the four surface
      kernels' traffic, plus the surcharge if nothing else paid it. */
  lemma SurfaceContribution(cfg: Config, vs: nat)
    requires IsVelocitySet(vs)
    ensures var on := CellFootprint(cfg.(surface := true), vs);
      var off := CellFootprint(cfg.(surface := false), vs);
      on.hostIncrement == off.hostIncrement + 4
      && on.deviceAllocation == off.deviceAllocation + 12
      && on.deviceTransfer == off.deviceTransfer + SurfaceTransfer(vs, cfg.precision)
                              + (if cfg.movingBoundaries || cfg.temperature then 0 else vs - 1)
  {
  }

  /** The surface kernels' traffic with the storage size spelled out:
      (2vs-1)s + 5vs + 23. */
  lemma {:induction false} SurfaceTransferClosedForm(vs: nat, p: Precision)
    requires IsVelocitySet(vs)
    ensures SurfaceTransfer(vs, p) == (2 * vs - 1) * StorageBytes(p) + 5 * vs + 23
  {
    FpxxBytesProduct(2 * vs - 1, p);
  }

  /** TEMPERATURE adds 4 host bytes, 7s+4 device bytes and 14s+4 bytes of
      traffic, plus the surcharge if nothing else paid it. */
  lemma {:induction false} TemperatureContribution(cfg: Config, vs: nat)
    requires IsVelocitySet(vs)
    ensures var s := StorageBytes(cfg.precision);
      var on := CellFootprint(cfg.(temperature := true), vs);
      var off := CellFootprint(cfg.(temperature := false), vs);
      on.hostIncrement == off.hostIncrement + 4
      && on.deviceAllocation == off.deviceAllocation + 7 * s + 4
      && on.deviceTransfer == off.deviceTransfer + 14 * s + 4
                              + (if cfg.movingBoundaries || cfg.surface then 0 else vs - 1)
  {
    FpxxBytesProduct(7, cfg.precision);
    FpxxBytesProduct(14, cfg.precision);
  }

  /** Only SURFACE and TEMPERATURE touch the host allocation. */
  lemma HostIncrementOnlyFromExtensions(cfg: Config, vs: nat)
    requires IsVelocitySet(vs)
    ensures CellFootprint(cfg, vs).hostIncrement == 0 <==> !cfg.surface && !cfg.temperature
  {
  }

  /** D3Q19 in FP32 with no extensions on a million cells: 93 bytes per
      cell and 88 MB, and 55 bytes per cell in either FP16 mode. */
  lemma D3Q19Example()
    ensures CellFootprint(Plain(FP32), 19).deviceAllocation == 93
    ensures Megabytes(1000000, 93) == 88
    ensures CellFootprint(Plain(FP16S), 19).deviceAllocation == 55
    ensures CellFootprint(Plain(FP16C), 19) == CellFootprint(Plain(FP16S), 19)
  {
  }

  // ---------------------------------------------------------------------
  // Megabyte conversion

  /** Below the exact limit the figure never decreases when the lattice
      or the per-cell cost grows. */
  lemma {:induction false} MegabytesMonotone(n1: uint64, b1: uint64, n2: uint64, b2: uint64)
    requires n1 <= n2 && b1 <= b2
    requires n2 * b2 < EXACT_LIMIT
    ensures Megabytes(n1, b1) <= Megabytes(n2, b2)
  {
    MulMonotone(n1, b1, n2, b2);
    var m1, m2 := Megabytes(n1, b1), Megabytes(n2, b2);
    assert m1 * MIB <= n1 * b1 <= n2 * b2 < (m2 + 1) * MIB;
  }

  /** Doubling the lattice gives twice the megabytes, or one more. */
  lemma {:induction false} MegabytesDoubling(n: uint64, bytes: uint64)
    requires 2 * n < UINT64_LIMIT
    requires 2 * n * bytes < EXACT_LIMIT
    ensures var m := Megabytes(n, bytes);
      2 * m <= Megabytes(2 * n, bytes) <= 2 * m + 1
  {
    var t := n * bytes;
    var m, m2 := Megabytes(n, bytes), Megabytes(2 * n, bytes);
    assert (2 * n) * bytes == 2 * t;
    assert m * MIB <= t < (m + 1) * MIB;
    assert m2 * MIB <= 2 * t < (m2 + 1) * MIB;
    assert 2 * m * MIB <= 2 * t < (2 * m + 2) * MIB;
  }

  /** The "Max Alloc Size" never exceeds the GPU megabytes before their
      narrowing to `uint`, since one population buffer is part of the
      device allocation. */
  lemma {:induction false} MaxAllocWithinDevice(cfg: Config, vs: nat, n: uint64)
    requires IsVelocitySet(vs)
    ensures MaxAllocSize(n, vs, cfg.precision) <= n * CellFootprint(cfg, vs).deviceAllocation / MIB
  {
    var buffer, device := FpxxBytes(vs, cfg.precision), CellFootprint(cfg, vs).deviceAllocation;
    MulMonotone(n, buffer, n, device);
    DivMonotone(n * buffer, n * device);
  }

  /** Below the exact limit the same holds of the reported GPU figure. */
  lemma {:induction false} MaxAllocWithinGpu(a: Accounting, cfg: Config, vs: nat, n: uint64)
    requires IsVelocitySet(vs)
    requires n * CellFootprint(cfg, vs).deviceAllocation < EXACT_LIMIT
    ensures MaxAllocSize(n, vs, cfg.precision) <= Initialized(a, cfg, vs, n).gpuMemRequired
  {
    var device := CellFootprint(cfg, vs).deviceAllocation;
    MaxAllocWithinDevice(cfg, vs, n);
    var g := Initialized(a, cfg, vs, n).gpuMemRequired;
    assert g == Megabytes(n, device);
    assert g * MIB <= n * device < (g + 1) * MIB;
  }

  // ---------------------------------------------------------------------
  // Repeated initialisation and chained segments

  /** The device side is reassigned from scratch: any two prior states
      give the same device allocation, transfer and GPU figure. */
  lemma InitializeDeviceFromScratch(a: Accounting, b: Accounting, cfg: Config, vs: nat, n: uint64)
    requires IsVelocitySet(vs)
    ensures var x, y := Initialized(a, cfg, vs, n), Initialized(b, cfg, vs, n);
      x.deviceAllocation == y.deviceAllocation && x.deviceTransfer == y.deviceTransfer
      && x.gpuMemRequired == y.gpuMemRequired
  {
  }

  /** The host allocation is only incremented: a second initialisation
      adds the increment again (modulo 2^32), and with neither SURFACE nor
      TEMPERATURE it is left as it was. */
  lemma {:induction false} InitializeHostAccumulates(a: Accounting, cfg: Config, vs: nat, n: uint64)
    requires IsVelocitySet(vs)
    ensures var once := Initialized(a, cfg, vs, n);
      var twice := Initialized(once, cfg, vs, n);
      twice.hostAllocation == (a.hostAllocation + 2 * CellFootprint(cfg, vs).hostIncrement) % UINT32_LIMIT
      && twice.deviceAllocation == once.deviceAllocation
      && twice.deviceTransfer == once.deviceTransfer
    ensures !cfg.surface && !cfg.temperature ==>
      Initialized(a, cfg, vs, n).hostAllocation == a.hostAllocation
  {
    RepeatedInitialize(a, cfg, vs, n, 1);
    RepeatedAccumulate(a, cfg, vs, 1);
    RepeatedInitialize(a, cfg, vs, n, 2);
    RepeatedAccumulate(a, cfg, vs, 2);
  }

  /** `k` consecutive initialisations of the one status object, as when a
      process sets up `k` simulations in turn. */
  function InitializedTimes(a: Accounting, cfg: Config, vs: nat, n: uint64, k: nat): Accounting
    requires IsVelocitySet(vs)
    decreases k
  {
    if k == 0 then a else Initialized(InitializedTimes(a, cfg, vs, n, k - 1), cfg, vs, n)
  }

  /** The per-cell part alone, `k` times over. */
  function AccumulatedTimes(a: Accounting, cfg: Config, vs: nat, k: nat): Accounting
    requires IsVelocitySet(vs)
    decreases k
  {
    if k == 0 then a else Accumulated(AccumulatedTimes(a, cfg, vs, k - 1), cfg, vs)
  }

  /** After `k` passes the host counter has grown by `k` times the host
      increment (modulo 2^32), while the device counters hold the
      footprint of one cell whatever `k` is. */
  lemma {:induction false} RepeatedAccumulate(a: Accounting, cfg: Config, vs: nat, k: nat)
    requires IsVelocitySet(vs)
    ensures var r := AccumulatedTimes(a, cfg, vs, k);
      r.hostAllocation == (a.hostAllocation + k * CellFootprint(cfg, vs).hostIncrement) % UINT32_LIMIT
    ensures var r := AccumulatedTimes(a, cfg, vs, k);
      k > 0 ==> r.deviceAllocation == CellFootprint(cfg, vs).deviceAllocation
                && r.deviceTransfer == CellFootprint(cfg, vs).deviceTransfer
  {
    if k > 0 {
      var inc := CellFootprint(cfg, vs).hostIncrement;
      var prev := AccumulatedTimes(a, cfg, vs, k - 1);
      RepeatedAccumulate(a, cfg, vs, k - 1);
      assert AccumulatedTimes(a, cfg, vs, k).hostAllocation == ToUint32(prev.hostAllocation + inc);
      AddAgain(a.hostAllocation, inc, k);
    }
  }

  /** `k` initialisations leave the host and device counters where `k`
      per-cell passes do: the megabyte figures never feed back into them. */
  lemma {:induction false} RepeatedInitialize(a: Accounting, cfg: Config, vs: nat, n: uint64, k: nat)
    requires IsVelocitySet(vs)
    ensures var r, s := InitializedTimes(a, cfg, vs, n, k), AccumulatedTimes(a, cfg, vs, k);
      r.hostAllocation == s.hostAllocation && r.deviceAllocation == s.deviceAllocation
      && r.deviceTransfer == s.deviceTransfer
  {
    if k > 0 {
      RepeatedInitialize(a, cfg, vs, n, k - 1);
    }
  }

  /** One more increment on top of `k-1` of them, modulo 2^32. */
  lemma AddAgain(h: nat, inc: nat, k: nat)
    requires k > 0
    ensures ((h + (k - 1) * inc) % UINT32_LIMIT + inc) % UINT32_LIMIT == (h + k * inc) % UINT32_LIMIT
  {
    ModAddLeft(h + (k - 1) * inc, inc);
    assert h + (k - 1) * inc + inc == h + k * inc;
  }

  /** A second `append` overwrites every baseline the first one set. */
  lemma AppendOverwrites(p: Progress, s1: uint64, t1: uint64, s2: uint64, t2: uint64)
    ensures Appended(Appended(p, s1, t1), s2, t2) == Appended(p, s2, t2)
  {
  }
}
