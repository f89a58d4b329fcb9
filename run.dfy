/** What one invocation of the script does, as the sequence of steps it takes:
    `backup_mongodb_to_gcs()` (dump, then upload only if the dump succeeded)
    followed by `prune_bucket()` with its default policy. */
module Run {
  import opened BackupName

  /** The defaults of `prune_bucket(days=7, minimum_backups=7)`. */
  const DEFAULT_DAYS := 7
  const DEFAULT_MINIMUM_BACKUPS := 7

  /** How the external dump process ended: `check=True` turns a non-zero exit
      status into an error carrying its message. */
  datatype DumpStatus = DumpSucceeded | DumpFailed(error: string)

  /** An observable step of a run. */
  datatype Step =
    | Dump
    | ReportDumpError(error: string)
    | Upload(name: string)
    | Prune(days: int, minimumBackups: int)

  /** The names of the objects a trace uploads, in order. */
  function Uploads(trace: seq<Step>): (names: seq<string>)
    ensures |names| <= |trace|
  {
    if trace == [] then []
    else (if trace[0].Upload? then [trace[0].name] else []) + Uploads(trace[1..])
  }

  /** The prune steps of a trace, in order. */
  function Prunes(trace: seq<Step>): (steps: seq<Step>)
    ensures |steps| <= |trace|
    ensures forall s :: s in steps ==> s in trace && s.Prune?
  {
    if trace == [] then []
    else (if trace[0].Prune? then [trace[0]] else []) + Prunes(trace[1..])
  }

  lemma {:induction false} UploadsOfConcat(a: seq<Step>, b: seq<Step>)
    ensures Uploads(a + b) == Uploads(a) + Uploads(b)
  {
    if a == [] {
      assert a + b == b;
    } else {
      assert (a + b)[0] == a[0] && (a + b)[1..] == a[1..] + b;
      UploadsOfConcat(a[1..], b);
    }
  }

  lemma {:induction false} PrunesOfConcat(a: seq<Step>, b: seq<Step>)
    ensures Prunes(a + b) == Prunes(a) + Prunes(b)
  {
    if a == [] {
      assert a + b == b;
    } else {
      assert (a + b)[0] == a[0] && (a + b)[1..] == a[1..] + b;
      PrunesOfConcat(a[1..], b);
    }
  }

  /** `backup_mongodb_to_gcs()` started at clock reading `started`: it always
      dumps; it uploads exactly one object, under the backup name, exactly when
      the dump succeeded; on failure it reports the error and returns normally. */
  function BackupToGcs(prefix: string, started: DateTime, status: DumpStatus): (trace: seq<Step>)
    requires Valid(started)
    ensures |trace| == 2 && trace[0] == Dump
    ensures Uploads(trace) == if status.DumpSucceeded? then [FileName(prefix, started)] else []
    ensures status.DumpFailed? ==> trace[1] == ReportDumpError(status.error)
    ensures Prunes(trace) == []
  {
    match status
    case DumpSucceeded => [Dump, Upload(FileName(prefix, started))]
    case DumpFailed(e) => [Dump, ReportDumpError(e)]
  }

  /** The `__main__` block: back up, then prune with the defaults, whatever
      became of the dump. */
  function Script(prefix: string, started: DateTime, status: DumpStatus): (trace: seq<Step>)
    requires Valid(started)
    ensures |trace| == 3 && trace[0] == Dump
    ensures trace[|trace| - 1] == Prune(DEFAULT_DAYS, DEFAULT_MINIMUM_BACKUPS)
    ensures Prunes(trace) == [Prune(DEFAULT_DAYS, DEFAULT_MINIMUM_BACKUPS)]
    ensures Uploads(trace) == if status.DumpSucceeded? then [FileName(prefix, started)] else []
  {
    var backup := BackupToGcs(prefix, started, status);
    var trace := backup + [Prune(DEFAULT_DAYS, DEFAULT_MINIMUM_BACKUPS)];
    UploadsOfConcat(backup, [Prune(DEFAULT_DAYS, DEFAULT_MINIMUM_BACKUPS)]);
    PrunesOfConcat(backup, [Prune(DEFAULT_DAYS, DEFAULT_MINIMUM_BACKUPS)]);
    trace
  }

  /** Upload, when it happens, comes after the dump and before the prune. */
  lemma UploadBetweenDumpAndPrune(prefix: string, started: DateTime, status: DumpStatus)
    requires Valid(started)
    ensures var trace := Script(prefix, started, status);
      forall i :: 0 <= i < |trace| && trace[i].Upload? ==> 0 < i < |trace| - 1 && status.DumpSucceeded?
  {
  }
}
