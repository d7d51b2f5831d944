/** The solver's status object: the accounting fields that `initialize`
    fills in before a run and the segment bookkeeping that `append` resets
    when consecutive runs are chained. */
module InfoState {
  import opened MachineInts
  import opened Footprint

  class Info {
    var runtime: real
    var dt: real
    var dtSmooth: real
    var steps: uint64
    var stepsLast: uint64
    var runtimeLast: real
    var hostAllocation: uint32
    var deviceAllocation: uint32
    var deviceTransfer: uint32
    var cpuMemRequired: uint32
    var gpuMemRequired: uint32

    function Accounts(): Accounting
      reads this
    {
      Accounting(hostAllocation, deviceAllocation, deviceTransfer, cpuMemRequired, gpuMemRequired)
    }

    function Segment(): Progress
      reads this
    {
      Progress(steps, stepsLast, runtime, runtimeLast, dt, dtSmooth)
    }

    /** Fills in the per-cell byte costs of the configured features for a
        lattice of `n` cells with velocity set `vs`, then converts them to
        megabytes for the whole lattice. */
    method Initialize(cfg: Config, vs: uint32, n: uint64)
      requires IsVelocitySet(vs)
      modifies this`hostAllocation, this`deviceAllocation, this`deviceTransfer
      modifies this`cpuMemRequired, this`gpuMemRequired
      ensures Accounts() == Initialized(old(Accounts()), cfg, vs, n)
      ensures Segment() == old(Segment())
    {
      AccumulateCellCosts(cfg, vs);
      var host, device := hostAllocation, deviceAllocation;
      cpuMemRequired := Megabytes(n, host);
      gpuMemRequired := Megabytes(n, device);
    }

    /** The per-cell part of `Initialize`: the device fields start over from
        the base costs, the host field only grows by the extension costs. */
    method AccumulateCellCosts(cfg: Config, vs: uint32)
      requires IsVelocitySet(vs)
      modifies this`hostAllocation, this`deviceAllocation, this`deviceTransfer
      ensures deviceAllocation == CellFootprint(cfg, vs).deviceAllocation
      ensures deviceTransfer == CellFootprint(cfg, vs).deviceTransfer
      ensures hostAllocation == ToUint32(old(hostAllocation) + CellFootprint(cfg, vs).hostIncrement)
    {
      var p := cfg.precision;
      var device: uint32 := FpxxBytes(vs, p) + 17;
      var transfer: uint32 := FpxxBytes(2 * vs, p) + 17;
      if !cfg.updateFields {
        transfer := transfer - 16;  // density and velocity are not written
      }
      if cfg.movingBoundaries || cfg.surface || cfg.temperature {
        transfer := transfer + (vs - 1) * 1;  // neighbour flags
      }
      ghost var h1 := hostAllocation;
      if cfg.surface {
        hostAllocation := ToUint32(hostAllocation + 4);
        device := device + 12;
        transfer := transfer
          + (1 + FpxxBytes(2 * vs - 1, p) + 8 + (vs - 1) * 4) + 1 + 1 + (4 + vs + 4 + 4 + 4);
      }
      ghost var h2 := hostAllocation;
      if cfg.temperature {
        hostAllocation := ToUint32(hostAllocation + 4);
        device := device + FpxxBytes(7, p) + 4;
        transfer := transfer + FpxxBytes(7 * 2, p) + 4;
      }
      deviceAllocation, deviceTransfer := device, transfer;
      HostSteps(h1, h2, hostAllocation, cfg.surface, cfg.temperature);
    }

    /** Starts a run segment: records its step target `steps` and takes the
        step counter `t` and the current runtime as its baselines. */
    method Append(steps: uint64, t: uint64)
      modifies this`steps, this`stepsLast, this`runtimeLast
      ensures Segment() == Appended(old(Segment()), steps, t)
      ensures Accounts() == old(Accounts())
    {
      this.steps := steps;
      this.stepsLast := t;
      this.runtimeLast := runtime;
    }
  }
}
