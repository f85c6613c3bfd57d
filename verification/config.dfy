/** The parameters a deconvolution object is built with, and the quantities
    derived from them once in its constructor. */
module EngineConfig {
  import opened Upsampling

  datatype Config = Config(
    nTime: nat,      // samples per template
    nUnit: nat,      // base units before upsampling (`orig_n_unit`)
    upFactor: nat,   // upsampled variants per base unit
    rank: nat,       // SVD components kept per unit
    refrac: nat,     // refractory radius in samples (`refrac_period`)
    threshold: real, // minimum objective value of an accepted spike
    maxIter: nat)

  /** The parameters for which every index the engine builds stays inside
      the objective: `argrelmax` rejects an order below one, and the
      windows read around a candidate and switched off after it must not
      reach past either end of the objective row. */
  predicate Valid(cfg: Config) {
    && cfg.nTime >= 1 && cfg.nUnit >= 1 && cfg.upFactor >= 1 && cfg.rank >= 1
    && cfg.refrac >= 1
    && Radius(cfg.upFactor) < 2 * cfg.nTime
    && cfg.refrac <= 2 * cfg.nTime
  }

  /** `obj_len = data_len + n_time - 1`, the length of a full convolution. */
  function ObjLen(cfg: Config, dataLen: nat): nat
    requires cfg.nTime >= 1
  {
    dataLen + cfg.nTime - 1
  }

  /** `n_unit = orig_n_unit * up_factor`. */
  function UpUnits(cfg: Config): nat {
    cfg.nUnit * cfg.upFactor
  }

  /** `adjusted_refrac_radius = max(1, refrac_period - up_factor // 2)`:
      shortened by half the upsampling factor so that a valid spike's
      upsampling window does not run into its own masked cells. */
  function AdjustedRefrac(cfg: Config): (a: nat)
    ensures a >= 1
    ensures a >= cfg.refrac - cfg.upFactor / 2
    ensures a == 1 || a == cfg.refrac - cfg.upFactor / 2
  {
    if cfg.refrac - cfg.upFactor / 2 > 1 then cfg.refrac - cfg.upFactor / 2 else 1
  }
}
