# FluidX3D status accounting, in Dafny

FluidX3D is a lattice Boltzmann fluid solver for GPUs. Its `Info` object
reports, before a run, how much memory the simulation needs. `initialize`
adds up what one lattice cell costs in host memory, in resident device
memory and in device traffic per time step, for the chosen velocity set
(D2Q9, D3Q15, D3Q19 or D3Q27), storage precision (FP32, FP16S, FP16C) and
compile-time extensions (UPDATE_FIELDS, MOVING_BOUNDARIES, SURFACE,
TEMPERATURE). It then turns the host and device costs into whole
megabytes for the `N` cells of the lattice, using a 64-bit product that
is narrowed to a 32-bit `uint`. `append` starts a run segment: it records
the step target and takes the current step counter and runtime as the
segment's baselines. The start-up table also shows a "Max Alloc Size":
the megabytes of one population buffer.

The project has three files:

- `machine_ints.dfy` (module `MachineInts`) defines the source's `uint`
  and `ulong` widths and their wrap-around. It also defines `max_ulong`,
  the step target that means "run indefinitely".
- `footprint.dfy` (module `Footprint`) holds the pure specification:
  - `CellFootprint` gives the per-cell byte costs of a configuration;
  - `Megabytes` is the truncating megabyte conversion;
  - `MaxAllocSize` is the "Max Alloc Size" figure;
  - `Initialized` and `Appended` are the state after each operation;
  - the lemmas state what each feature contributes and how the megabyte
    figures behave.
- `info.dfy` (module `InfoState`) holds the class `Info`. Its fields are
  updated in place. Its methods are proved against the functions of
  `Footprint`.

Every extension is a field of a `Config` value rather than a preprocessor
macro, so one proof covers every build of the solver. The accessors of
the solver object (`get_velocity_set()`, `get_N()`) become the parameters
`vs` and `n`.

## Model

| member | source | states |
|---|---|---|
| InfoState.Info.Initialize | src/info.cpp:6-40 | The accounting fields become `Initialized(old accounting)`: device allocation and transfer are set to the cell footprint, the host allocation grows by the extensions' increment (modulo 2^32), and both megabyte figures are recomputed from the new per-cell costs. The segment fields are left unchanged. |
| InfoState.Info.AccumulateCellCosts | src/info.cpp:8-37 | After the per-cell part of `initialize`, device allocation and device transfer equal `CellFootprint`, and the host allocation is its old value plus the host increment, wrapped to 32 bits. |
| InfoState.Info.Append | src/info.cpp:41-45 | The segment becomes `Appended(old segment, steps, t)`: the target is `steps`, the step baseline is `t`, and the runtime baseline is the current runtime. The accounting fields are left unchanged. |
| Footprint.CellFootprint | src/info.cpp:8-37 | The device allocation is at least the populations plus 17 bytes. The transfer is at least both population buffers plus 1 byte, so the UPDATE_FIELDS discount of 16 never underflows. The host increment is at most 8 bytes. Both device figures fit a `uint`. |
| Footprint.Megabytes | src/info.cpp:38-39 | The result never exceeds the true size in megabytes, `n*bytes/2^20`. When the product is below 2^52 it is exactly the floor: `r*2^20 <= n*bytes < (r+1)*2^20`. |
| Footprint.MaxAllocSize | src/info.cpp:91 | The "Max Alloc Size" never exceeds the megabytes of `n` cells of `vs` stored populations. |
| Footprint.DeviceAllocationParts | src/info.cpp:8-35 | The device allocation is `vs*s + 17`, plus 12 with SURFACE and `7s+4` with TEMPERATURE, where `s` is the storage size. No other flag changes it. |
| Footprint.FieldsDiscount | src/info.cpp:9-12 | Switching UPDATE_FIELDS off lowers the transfer by exactly 16 bytes. It changes neither the device allocation nor the host increment. |
| Footprint.MovingBoundariesContribution | src/info.cpp:25-27 | MOVING_BOUNDARIES adds the `vs-1` neighbour-flag bytes only when neither SURFACE nor TEMPERATURE already did. It adds nothing else. |
| Footprint.NeighbourSurchargeOnce | src/info.cpp:8-37 | With no extension the transfer is `2*vs*s + 17`, or `+ 1` without UPDATE_FIELDS. In every configuration the transfer is that base plus the `vs-1` neighbour-flag bytes exactly once if any extension is on, however many are, plus the surface traffic and the `14s+4` temperature traffic of the extensions that are on. |
| Footprint.SurfaceContribution | src/info.cpp:25-32 | SURFACE adds 4 host bytes, 12 device bytes and the four surface kernels' traffic. It also adds the neighbour surcharge when no other extension paid it. |
| Footprint.SurfaceTransfer | src/info.cpp:31 | The four surface kernels move `2vs-1` stored populations plus `5vs + 23` bytes per cell. |
| Footprint.SurfaceTransferClosedForm | src/info.cpp:31 | The surface kernels move `(2vs-1)*s + 5vs + 23` bytes per cell. |
| Footprint.TemperatureContribution | src/info.cpp:25-37 | TEMPERATURE adds 4 host bytes, `7s+4` device bytes and `14s+4` transfer bytes. It also adds the neighbour surcharge when no other extension paid it. |
| Footprint.HostIncrementOnlyFromExtensions | src/info.cpp:29-34 | The host increment is zero exactly when neither SURFACE nor TEMPERATURE is on. |
| Footprint.D3Q19Example | src/info.cpp:8-39 | D3Q19 in FP32 with no extension costs 93 bytes per cell, and a million cells report 88 MB. Both FP16 modes cost 55 bytes per cell and give the same footprint. |
| Footprint.MegabytesMonotone | src/info.cpp:38-39 | Below 2^52 bytes, a larger lattice or a larger per-cell cost never reports fewer megabytes. |
| Footprint.MegabytesDoubling | src/info.cpp:38-39 | Below 2^52 bytes, doubling the lattice gives twice the megabytes or one more. |
| Footprint.MaxAllocWithinDevice | src/info.cpp:91 | The "Max Alloc Size" never exceeds the exact device megabytes `n*deviceAllocation/2^20`. |
| Footprint.MaxAllocWithinGpu | src/info.cpp:91 | Below 2^52 bytes, the "Max Alloc Size" never exceeds the reported GPU figure. |
| Footprint.InitializeDeviceFromScratch | src/info.cpp:8-39 | Device allocation, device transfer and the GPU figure after `initialize` do not depend on the state before it. |
| Footprint.Accumulated | src/info.cpp:8-37 | The per-cell part of `initialize` advances the host counter by exactly the host increment in 32-bit arithmetic (`(new - old) mod 2^32 == inc`), and it does not touch the megabyte figures. |
| Footprint.Initialized | src/info.cpp:6-39 | Neither reported figure overstates what the lattice needs: the CPU figure is at most `n*hostAllocation/2^20`, the GPU figure at most `n*deviceAllocation/2^20`. |
| Footprint.InitializeHostAccumulates | src/info.cpp:29-38 | A second `initialize` adds the host increment again, so the host allocation is `(h + 2*inc) mod 2^32` while the device fields stay the same. With neither SURFACE nor TEMPERATURE the host allocation is untouched. |
| Footprint.RepeatedAccumulate | src/info.cpp:8-37 | After `k` passes of the per-cell accounting the host allocation is `(h + k*inc) mod 2^32`, and for `k > 0` the device allocation and transfer are those of a single cell, whatever `k` is. |
| Footprint.RepeatedInitialize | src/info.cpp:6-39 | `k` consecutive `initialize` calls leave the host and device byte counters exactly where `k` per-cell passes do: the megabyte figures never feed back into them. |
| Footprint.Appended | src/info.cpp:41-45 | `append` sets the target to `steps`, the step baseline to `t` and the runtime baseline to the current runtime. It keeps the runtime, `dt` and `dt_smooth`. The segment runs indefinitely exactly when the target is `max_ulong`. |
| Footprint.AppendOverwrites | src/info.cpp:41-45 | A second `append` overwrites every baseline the first one set. |
| Footprint.RunsIndefinitely | src/info.cpp:52 | The "no step target" test of `time` and of the Time Steps line (src/info.cpp:92): the target equals `max_ulong`. |

## Left out

- `update` and `time` (src/info.cpp:46-54) work in double-precision
  floating point, and `time` divides without a guard. Only their fields
  and the `max_ulong` sentinel (`Footprint.RunsIndefinitely`) are
  modelled.
- The console routines `print_logo`, `print_initialize`, `print_update`
  and `print_finalize` are not modelled, because they are output only.
  The one exception is the "Max Alloc Size" arithmetic of line 91.
- The collision and precision label strings (src/info.cpp:13-24) are not
  modelled, because they only feed the printed table.
- The stored solver pointer (line 7) and the global `info` instance
  (line 4) are not modelled. The solver's accessors are parameters.
- The class declaration and its field defaults live in `info.hpp`, which
  is not part of this model. Field widths follow the casts in
  src/info.cpp: byte and megabyte counters are `uint`, steps are `ulong`.
- `sizeof(fpxx)` is taken as 4 bytes in FP32 and 2 bytes (`ushort`) in
  both FP16 modes. The type definition is not part of this model.
- The velocity set is restricted to 9, 15, 19 or 27, the sets the solver
  offers.
- InfoState.Info.AccumulateCellCosts adds up the device costs in local
  `uint` variables and stores them in the fields once at the end, where
  the source adds in place. Every intermediate sum is range-checked as a
  `uint`, so the stored values are the source's.
- Footprint.Megabytes: the 64-bit wrap and the narrowing to `uint` are
  modelled. The floor, monotonicity and doubling properties are proved
  only below 2^52 bytes, where neither truncation applies.
