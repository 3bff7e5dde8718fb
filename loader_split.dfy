/**
  The per-process loader settings of `Tester.start` (ssseg/test.py lines
  63-69): in distributed mode the configured batch size and worker count are
  each divided by the number of processes on the node, and the run stops
  unless both divide exactly.
*/
module LoaderSplit {
  import opened Wrappers

  datatype LoaderCfg = LoaderCfg(batchSize: nat, numWorkers: nat)

  datatype ConfigError =
    | NoProcesses           // zero processes: the integer division itself fails
    | UnsuitableBatchSize   // the assertion of line 67
    | UnsuitableNumWorkers  // the assertion of line 68

  /** The settings each process uses, or why there are none. */
  function PerProcess(cfg: LoaderCfg, distributed: bool, procs: nat): (r: Result<LoaderCfg, ConfigError>)
    ensures !distributed ==> r == Success(cfg)
    ensures distributed && procs == 0 ==> r == Failure(NoProcesses)
    ensures distributed && procs > 0 ==>
      (r.Success? <==> cfg.batchSize % procs == 0 && cfg.numWorkers % procs == 0)
    ensures distributed && procs > 0 && cfg.batchSize % procs != 0 ==> r == Failure(UnsuitableBatchSize)
    ensures distributed && procs > 0 && cfg.batchSize % procs == 0 && cfg.numWorkers % procs != 0 ==>
      r == Failure(UnsuitableNumWorkers)
    ensures distributed && r.Success? ==>
      r.value.batchSize * procs == cfg.batchSize && r.value.numWorkers * procs == cfg.numWorkers
  {
    if !distributed then Success(cfg)
    else if procs == 0 then Failure(NoProcesses)
    else
      var batchSize := cfg.batchSize / procs;
      var numWorkers := cfg.numWorkers / procs;
      if batchSize * procs != cfg.batchSize then Failure(UnsuitableBatchSize)
      else if numWorkers * procs != cfg.numWorkers then Failure(UnsuitableNumWorkers)
      else Success(LoaderCfg(batchSize, numWorkers))
  }

  /** A batch of 5 cannot be split across 4 processes. */
  lemma FiveAcrossFourFails()
    ensures PerProcess(LoaderCfg(5, 4), true, 4) == Failure(UnsuitableBatchSize)
  {
  }
}
