# mongodb-backup-to-gcs, modelled in Dafny

The original is a single Python script, `backup.py`. It dumps a MongoDB database with
`mongodump` into a gzip archive and uploads the archive to a Google Cloud Storage bucket
as `<prefix>-<YYYYMMDDHHMMSS>.gz`. Then it prunes the bucket: if the bucket holds more
than `minimum_backups` objects, every object created more than `days` days ago is deleted.

The model has three parts:

- `Retention` (`retention.dfy`) is the prune rule. A `Bucket` class holds the bucket's
  objects as a `seq<Blob>` in listing order; its invariant is that no two objects share a
  name. `Bucket.Prune` is `prune_bucket`. It takes a snapshot of the listing and
  applies the single count gate. Its loop, `Bucket.DeleteOld`, then walks the snapshot
  and, one turn at a time (`Bucket.Visit`), calls `Delete` on every object created
  strictly before `now - days * 86400`. It returns the deleted names.
  Its contract ties the new bucket contents and the returned names to the pure
  function `PruneOutcome`. The lemmas state the retention properties about that function:
  the gate, the exact deletion condition, order, partition and idempotence.
- `BackupName` (`backup_name.dfy`) is the object name. `Timestamp` prints a clock reading
  the way `strftime("%Y%m%d%H%M%S")` does, using zero-padded fields. `FileName` builds
  `prefix + "-" + timestamp + ".gz"`. The matching parsers and round-trip lemmas in both
  directions show that the name encodes the clock reading exactly.
- `Run` (`run.dfy`) is the run sequence as a trace of abstract steps. The dump result is
  a parameter. Upload happens only when the dump succeeded. Prune runs afterwards with
  the defaults 7/7 in either case, because `backup_mongodb_to_gcs` returns normally when
  the dump fails.
- `Wrappers` (`wrappers.dfy`) holds only the `Option` type used by the parsers.

A reader might take `minimum_backups` as a floor that pruning never goes below. The
code does not keep it. The count check at `backup.py:70` is one gate on the total
listing, made before any deletion. Once a bucket holds more than the minimum, every old
object goes, even if fewer than the minimum remain. `Retention.GateIsNotAFloor` and
`Retention.EightOldWithMinimumSevenLeavesNone` state this literal behaviour.

Creation times and the prune's current time `now` are integer seconds since the epoch,
in UTC, as the cutoff at `backup.py:73` is. The name is printed from a different clock
reading: the naive local wall-clock `datetime.now()` at `backup.py:28`. The name's
`DateTime` parameter is that local reading, not a UTC one. Both are parameters. The dump's outcome is a
parameter too.

## Model

| member | source | states |
|---|---|---|
| `Retention.Bucket.Prune` | backup.py:65-79 | the bucket afterwards and the returned names are the outcome of the prune decision on the bucket as it was listed; at or below the minimum count nothing is deleted and the bucket is unchanged; the bucket's unique-name invariant is kept |
| `Retention.Bucket.Delete` | backup.py:78 | deleting removes exactly the object of that name and nothing else; it reports whether such an object existed; names stay unique |
| `Retention.Bucket.ListBlobs` | backup.py:69 | the listing is the bucket's current contents in order, and its names are unique |
| `Retention.Bucket.DeleteOld` | backup.py:76-79 | walking the listing taken before the loop and deleting each old object leaves exactly the survivors of the listing, in order, with unique names, and the deleted names are the names of the old objects in listing order |
| `Retention.Bucket.Visit` | backup.py:77-78 | one turn of the loop deletes the current object when it was created strictly before the cutoff and leaves the bucket unchanged otherwise; it reports the name it deleted, if any |
| `Retention.SurvivorsMembers` | backup.py:76-77 | an object is kept exactly when it is in the listing and was created at or after the cutoff |
| `Retention.CasualtiesMembers` | backup.py:76-79 | an object is deleted exactly when it is in the listing and was created strictly before the cutoff |
| `Retention.RemoveNameMembers` | backup.py:78 | after a deletion an object remains exactly when it was there before and has a different name |
| `Retention.NothingDeletedAtOrBelowMinimum` | backup.py:70-72 | with at most `minimum_backups` objects, no name is deleted and the remaining objects are the whole listing, whatever their ages |
| `Retention.DeletedExactlyTheOld` | backup.py:73-78 | above the minimum count, an object's name is deleted if and only if it was created strictly before `now - days`; it remains if and only if it was created at or after `now - days`, so an object created exactly at the cutoff is kept |
| `Retention.PruneKeepsOrder` | backup.py:76-79 | the remaining objects are a subsequence of the listing; the deleted names are a subsequence of the listed names; together they account for every listed object |
| `Retention.SurvivorsCasualtiesPartition` | backup.py:76-78 | kept and deleted objects together are the listing as a multiset, and their counts add up to the listing's |
| `Retention.SurvivorsInOrder` | backup.py:76-77 | the kept objects are a subsequence of the listing |
| `Retention.CasualtiesInOrder` | backup.py:76-79 | the deleted objects are taken in listing order |
| `Retention.GateIsNotAFloor` | backup.py:69-79 | above the minimum count with every object old, nothing remains and every listed object is deleted, so the bucket can drop below `minimum_backups` |
| `Retention.EightOldWithMinimumSevenLeavesNone` | backup.py:69-79 | eight objects all older than a week with the default minimum of seven: all eight are deleted, none remains |
| `Retention.PruneIdempotent` | backup.py:70-79 | pruning again with the same `now` what a prune left deletes nothing and leaves it as it was |
| `Retention.SurvivorsIdempotent` | backup.py:76-77 | what survives once survives again and contains nothing old |
| `Retention.UniqueNamesOfSubsequence` | backup.py:76-78 | dropping objects from a bucket with unique names keeps names unique |
| `BackupName.ZeroPad` | backup.py:28 | a field is printed in exactly `width` decimal digits whose value is the field |
| `BackupName.ZeroPadOfValue` | backup.py:28 | every digit string is the zero-padded print of its own value, so a padded field has one spelling only |
| `BackupName.Timestamp` | backup.py:28 | the timestamp is exactly 14 decimal digits |
| `BackupName.TimestampFields` | backup.py:28 | year (4 digits), month, day, hour, minute and second (2 digits each) sit at fixed places, each zero-padded |
| `BackupName.TimestampRoundTrip` | backup.py:28 | parsing the 14 digits back recovers the original clock reading |
| `BackupName.TimestampCanonical` | backup.py:28 | a string that parses is the print of the reading it parses to and that reading is valid |
| `BackupName.FileName` | backup.py:29 | the object name starts with `prefix + "-"`, ends with `".gz"`, and has exactly 14 decimal digits between them |
| `BackupName.FileNameRoundTrip` | backup.py:28-29 | the clock reading can be recovered from the object name given the prefix |
| `BackupName.FileNameCanonical` | backup.py:28-29 | a name that parses is the backup name of the reading it parses to |
| `BackupName.FileNameInjective` | backup.py:28-29 | runs with the same prefix at different clock readings write different objects |
| `BackupName.DefaultPrefixExample` | backup.py:28-29 | a run at 2024-01-15 09:30:00 with prefix `backup` uploads `backup-20240115093000.gz` |
| `Run.BackupToGcs` | backup.py:24-42 | the dump always runs; exactly one upload, under the backup name, happens if and only if the dump succeeded; on failure the error is reported and the function returns without pruning or uploading |
| `Run.Script` | backup.py:93-95 | a run starts with the dump, ends with exactly one prune using the defaults 7 days / 7 backups, and uploads the backup name only when the dump succeeded |
| `Run.UploadBetweenDumpAndPrune` | backup.py:33-42 | an upload step comes strictly after the dump and strictly before the prune, and only on a successful dump |

## Left out

- The `mongodump` subprocess, its shell command line, the host and the extra options are left out. They are an external process, so the model has only its outcome, as `Run.DumpStatus`.
- The temporary file's creation and removal are left out. They are filesystem I/O.
- The logged file size in MB is left out. It is floating point, used only in a log line.
- `get_storage_client` is left out: the base64 and JSON decoding of the credential and building the client. These are foreign library calls. Their failures end the process, and that path is not modelled.
- `upload_to_gcs` is an abstract `Upload` step in `Run`. The network transfer, its 20-minute timeout and overwriting an existing object are not modelled. Upload failures end the process, and that path is not modelled either.
- `list_bucket` is left out. It only logs each name. The listing itself is `Bucket.ListBlobs`.
- `log` and `print` are left out. They produce output only.
- `datetime.now()` becomes parameters: a `now` for the prune and a `DateTime` for the name.
- Environment-variable configuration is left out. The prefix, days and minimum are parameters.
- Timezone conversion is left out. Creation times and `now` are integer UTC seconds, and the name's `DateTime` is taken as given.
- `Retention.Bucket.Prune`: creation times have whole-second precision here. The storage service and `datetime` keep microseconds, so sub-second comparisons against the cutoff are not captured.
- `Retention.Bucket.Prune`: it assumes that nothing else changes the bucket during the loop. With concurrent runs, a `delete` can raise NotFound. Concurrent runs are not modelled; `Delete` still reports the missing case, and `Bucket.Visit` proves that it never arises when nothing else changes the bucket.
- `Retention.Bucket.Prune`: a listing or a deletion that fails for another reason (network, permission, time-out) ends the process partway through the loop, leaving the bucket somewhere between the listing and its survivors. The model's `ListBlobs` and `Delete` never fail, so that path is not modelled.
- `Retention.Bucket.Prune`: `days` is an integer here. `timedelta(days=days)` at `backup.py:73` also accepts fractional days; the only caller passes the default 7.
- `BackupName.Timestamp`: years are limited to 1000..9999. For years below 1000, how `%Y` pads is platform-specific.
- The process exit status is left out. The script exits 0 even after a failed dump. The trace model shows this: a failed run ends with a prune just like a successful one.
