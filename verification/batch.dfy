/**
  The sequential loop of `handleUpload` as a left fold over the selected
  files, and the end-of-batch summary chosen by its two counters.

  The storage `upload` call and the clock and random token used for the key
  are supplied by an environment `env`: `env(i)` answers for the file at
  position `i`, and is consulted only when that file passes validation.
  Each file's outcome depends only on the file and its answers, so the loop
  is a fold of `Step` over the sequence of per-file outcomes; the fold
  decides which of them are reached (an exception ends the loop).
 */
module Batch {
  import opened Wrappers
  import opened Strings
  import opened Validation
  import opened Progress
  import opened StorageKey

  /** What the storage `upload` call did: no error, an error value, or an exception. */
  datatype PutReply = Stored | PutError(message: string) | PutThrew

  /** `Date.now()`, the random token and the `upload` reply while a file is handled. */
  datatype FileEnv = FileEnv(now: nat, token: string, put: PutReply)

  /** One `upload` call: the position of the file in the batch and the key used. */
  datatype Put = Put(index: nat, path: string)

  /**
    The loop state: `completedFiles`, `failedUploads`, `errorMessages`, the
    values passed to `setUploadProgress`, the `upload` calls made, and
    whether an exception left the loop.
   */
  datatype Tally = Tally(completed: nat, failed: nat, errors: seq<string>, progress: seq<nat>,
                         puts: seq<Put>, aborted: bool)

  const Start: Tally := Tally(0, 0, [], [], [], false)

  /** The message recorded when `upload` returns an error. */
  function PutErrorMessage(name: string, message: string): string {
    "Error uploading " + name + ": " + message
  }

  /** What happens to one file, judged on its own: the body of one loop iteration. */
  datatype Outcome =
    | Skipped(message: string)
    | Uploaded(path: string)
    | Failed(path: string, message: string)
    | Crashed(path: string)

  /** Validation first; only an accepted file reaches `upload`, under its generated key. */
  function OutcomeOf(f: FileInfo, e: FileEnv, coupleNames: string): (o: Outcome)
    ensures o.Skipped? <==> !Validate(f).Accepted?
    ensures o.Uploaded? <==> Validate(f).Accepted? && e.put.Stored?
    ensures o.Crashed? <==> Validate(f).Accepted? && e.put.PutThrew?
    ensures !o.Skipped? ==> o.path == ObjectKey(coupleNames, e.now, e.token, Validate(f).ext)
    ensures o.Skipped? && f.size > MaxUploadBytes ==>
              o.message == "File " + f.name + " exceeds 50MB limit and will be skipped"
    ensures o.Skipped? && f.size <= MaxUploadBytes ==>
              o.message == "File " + f.name + " has invalid type and will be skipped"
    ensures o.Failed? ==> e.put.PutError? && o.message == "Error uploading " + f.name + ": " + e.put.message
  {
    match Validate(f)
    case Accepted(ext) =>
      var path := ObjectKey(coupleNames, e.now, e.token, ext);
      (match e.put
       case Stored => Uploaded(path)
       case PutError(m) => Failed(path, PutErrorMessage(f.name, m))
       case PutThrew => Crashed(path))
    case v => Skipped(RejectionMessage(f.name, v))
  }

  /** The outcome of every selected file, in order. */
  function Outcomes(files: seq<FileInfo>, env: nat -> FileEnv, coupleNames: string): (os: seq<Outcome>)
    ensures |os| == |files|
  {
    seq(|files|, i requires 0 <= i < |files| => OutcomeOf(files[i], env(i), coupleNames))
  }

  /** The loop variables updated for the outcome of the file at position `i`. */
  function Step(t: Tally, o: Outcome, i: nat, total: nat): Tally
    requires i < total && t.completed + t.failed <= i
  {
    if t.aborted then t
    else
      match o
      case Skipped(m) => t.(failed := t.failed + 1, errors := t.errors + [m])
      case Uploaded(p) =>
        t.(completed := t.completed + 1,
           progress := t.progress + [Percent(t.completed + 1, total)],
           puts := t.puts + [Put(i, p)])
      case Failed(p, m) => t.(failed := t.failed + 1, errors := t.errors + [m], puts := t.puts + [Put(i, p)])
      case Crashed(p) => t.(puts := t.puts + [Put(i, p)], aborted := true)
  }

  /**
    The loop state after the files whose outcomes are `os`, in a batch of
    `total` files: every file before an exception bumps exactly one counter, the progress
    values are the percentages of 1, 2, ... stored files, and `upload` is
    called at most once per file, in order, only for files that passed
    validation, under that file's key.
   */
  function Run(os: seq<Outcome>, total: nat): (t: Tally)
    requires |os| <= total
    ensures t.completed + t.failed <= |os|
    ensures !t.aborted ==> t.completed + t.failed == |os|
    ensures |t.errors| == t.failed
    ensures |t.progress| == t.completed
    ensures forall k :: 0 <= k < |t.progress| ==> t.progress[k] == Percent(k + 1, total)
    ensures forall k :: 0 <= k < |t.puts| ==>
              t.puts[k].index < |os| && !os[t.puts[k].index].Skipped? && t.puts[k].path == os[t.puts[k].index].path
    ensures forall j, k :: 0 <= j < k < |t.puts| ==> t.puts[j].index < t.puts[k].index
    decreases |os|
  {
    if |os| == 0 then Start
    else
      var prefix := os[..|os| - 1];
      assert forall i :: 0 <= i < |prefix| ==> prefix[i] == os[i];
      Step(Run(prefix, total), os[|os| - 1], |os| - 1, total)
  }

  /** Once an exception has left the loop, later files change nothing. */
  lemma {:induction false} RunStopsAfterAbort(os: seq<Outcome>, total: nat, m: nat)
    requires m <= |os| <= total
    requires Run(os[..m], total).aborted
    ensures Run(os, total) == Run(os[..m], total)
    decreases |os|
  {
    if |os| > m {
      var prefix := os[..|os| - 1];
      assert prefix[..m] == os[..m];
      RunStopsAfterAbort(prefix, total, m);
    } else {
      assert os[..m] == os;
    }
  }

  /** The progress values passed during a batch never decrease and stay within 0..100. */
  lemma ProgressNonDecreasing(os: seq<Outcome>, total: nat)
    requires |os| <= total
    ensures var p := Run(os, total).progress;
            forall j, k :: 0 <= j <= k < |p| ==> p[j] <= p[k] <= 100
  {
    var p := Run(os, total).progress;
    forall j, k | 0 <= j <= k < |p|
      ensures p[j] <= p[k] <= 100
    {
      PercentMonotone(j + 1, k + 1, total);
    }
  }

  // ---------------------------------------------------------------------------
  // An independent account of the batch, by filtering the outcomes.

  predicate NoCrash(os: seq<Outcome>) {
    forall i :: 0 <= i < |os| ==> !os[i].Crashed?
  }

  /** How many outcomes are uploads. */
  function Uploads(os: seq<Outcome>): (n: nat)
    ensures n <= |os|
  {
    if |os| == 0 then 0
    else Uploads(os[..|os| - 1]) + (if os[|os| - 1].Uploaded? then 1 else 0)
  }

  /** The messages of skipped and failed files, in order. */
  function Messages(os: seq<Outcome>): seq<string> {
    if |os| == 0 then []
    else
      var o := os[|os| - 1];
      Messages(os[..|os| - 1]) + (if o.Skipped? || o.Failed? then [o.message] else [])
  }

  /** The keys of every file that reached `upload`, in order. */
  function Paths(os: seq<Outcome>): seq<string> {
    if |os| == 0 then []
    else
      var o := os[|os| - 1];
      Paths(os[..|os| - 1]) + (if o.Skipped? then [] else [o.path])
  }

  function PutPaths(puts: seq<Put>): (r: seq<string>)
    ensures |r| == |puts|
    ensures forall k :: 0 <= k < |puts| ==> r[k] == puts[k].path
  {
    seq(|puts|, k requires 0 <= k < |puts| => puts[k].path)
  }

  /**
    While no exception occurs, the fold agrees with the filtered account:
    `completedFiles` counts the uploads, `failedUploads` the rest,
    `errorMessages` holds one message per skipped or failed file in file
    order, and `upload` is called, in order, for every accepted file.
   */
  lemma {:induction false} RunMatchesOutcomes(os: seq<Outcome>, total: nat)
    requires |os| <= total
    requires NoCrash(os)
    ensures var t := Run(os, total);
            && !t.aborted
            && t.completed == Uploads(os)
            && t.failed == |os| - Uploads(os)
            && t.errors == Messages(os)
            && PutPaths(t.puts) == Paths(os)
    decreases |os|
  {
    if |os| > 0 {
      var prefix := os[..|os| - 1];
      RunMatchesOutcomes(prefix, total);
      var t0 := Run(prefix, total);
      var t := Run(os, total);
      assert PutPaths(t.puts) == Paths(os) by {
        if os[|os| - 1].Skipped? {
          assert t.puts == t0.puts;
        } else {
          assert PutPaths(t.puts) == PutPaths(t0.puts) + [t.puts[|t.puts| - 1].path];
        }
      }
    }
  }

  /**
    When the first exception comes from the `upload` of file `k`, the loop
    ends there: the counters and messages are those of the files before `k`,
    and the last `upload` call is the one for file `k`.
   */
  lemma RunAbortsAtFirstCrash(os: seq<Outcome>, total: nat, k: nat)
    requires k < |os| <= total
    requires NoCrash(os[..k]) && os[k].Crashed?
    ensures var t := Run(os, total);
            && t.aborted
            && t.completed == Uploads(os[..k])
            && t.failed == k - Uploads(os[..k])
            && t.errors == Messages(os[..k])
            && PutPaths(t.puts) == Paths(os[..k + 1])
  {
    RunMatchesOutcomes(os[..k], total);
    var t0 := Run(os[..k], total);
    var t1 := Run(os[..k + 1], total);
    assert os[..k + 1][..k] == os[..k];
    assert PutPaths(t1.puts) == PutPaths(t0.puts) + [t1.puts[|t1.puts| - 1].path];
    RunStopsAfterAbort(os, total, k + 1);
  }

  /** A batch in which some `upload` throws has a first such file. */
  lemma {:induction false} FirstCrash(os: seq<Outcome>) returns (k: nat)
    requires !NoCrash(os)
    ensures k < |os| && os[k].Crashed? && NoCrash(os[..k])
    decreases |os|
  {
    var prefix := os[..|os| - 1];
    if NoCrash(prefix) {
      k := |os| - 1;
      assert os[..k] == prefix;
    } else {
      k := FirstCrash(prefix);
      assert os[..k] == prefix[..k];
    }
  }

  /** The message of every skipped or failed outcome is among the collected messages. */
  lemma {:induction false} MessageCollected(os: seq<Outcome>, i: nat)
    requires i < |os| && (os[i].Skipped? || os[i].Failed?)
    ensures os[i].message in Messages(os)
    decreases |os|
  {
    if i < |os| - 1 {
      var prefix := os[..|os| - 1];
      assert prefix[i] == os[i];
      MessageCollected(prefix, i);
    }
  }

  /** The messages collected over a prefix of the files begin the messages collected over all of them. */
  lemma {:induction false} ErrorsGrow(os: seq<Outcome>, total: nat, m: nat)
    requires m <= |os| <= total
    ensures Run(os[..m], total).errors <= Run(os, total).errors
    decreases |os|
  {
    if |os| == m {
      assert os[..m] == os;
    } else {
      var prefix := os[..|os| - 1];
      assert prefix[..m] == os[..m];
      ErrorsGrow(prefix, total, m);
    }
  }

  /**
    Every rejected or refused file that the loop reaches before an `upload`
    throws is reported in `errorMessages`: an oversized file by the size
    message, a file of another type by the type message, and a file whose
    `upload` returns an error by that error, each naming the file.
   */
  lemma {:induction false} EveryFailureReported(files: seq<FileInfo>, env: nat -> FileEnv, coupleNames: string, i: nat)
    requires i < |files|
    requires NoCrash(Outcomes(files, env, coupleNames)[..i])
    ensures files[i].size > MaxUploadBytes ==>
              "File " + files[i].name + " exceeds 50MB limit and will be skipped"
                in Run(Outcomes(files, env, coupleNames), |files|).errors
    ensures files[i].size <= MaxUploadBytes && !Validate(files[i]).Accepted? ==>
              "File " + files[i].name + " has invalid type and will be skipped"
                in Run(Outcomes(files, env, coupleNames), |files|).errors
    ensures Validate(files[i]).Accepted? && env(i).put.PutError? ==>
              "Error uploading " + files[i].name + ": " + env(i).put.message
                in Run(Outcomes(files, env, coupleNames), |files|).errors
  {
    var os := Outcomes(files, env, coupleNames);
    assert os[i] == OutcomeOf(files[i], env(i), coupleNames);
    if !os[i].Uploaded? && !os[i].Crashed? {
      FailureCollected(os, |files|, i);
    }
  }

  /** A skipped or failed file with no exception before it has its message in `errorMessages`. */
  lemma FailureCollected(os: seq<Outcome>, total: nat, i: nat)
    requires i < |os| <= total
    requires NoCrash(os[..i]) && (os[i].Skipped? || os[i].Failed?)
    ensures os[i].message in Run(os, total).errors
  {
    var upto := os[..i + 1];
    assert upto[i] == os[i];
    assert NoCrash(upto) by {
      forall j | 0 <= j < |upto|
        ensures !upto[j].Crashed?
      {
        if j < i {
          assert upto[j] == os[..i][j];
        }
      }
    }
    RunMatchesOutcomes(upto, total);
    MessageCollected(upto, i);
    ErrorsGrow(os, total, i + 1);
  }

  /**
    Over a whole selection, `upload` is called only for files that passed
    both checks, under the key built from that file's clock reading, token
    and validated extension.
   */
  lemma PutsOnlyForAccepted(files: seq<FileInfo>, env: nat -> FileEnv, coupleNames: string)
    ensures var puts := Run(Outcomes(files, env, coupleNames), |files|).puts;
            forall k :: 0 <= k < |puts| ==>
              var i := puts[k].index;
              && i < |files|
              && Validate(files[i]).Accepted?
              && puts[k].path == ObjectKey(coupleNames, env(i).now, env(i).token, Validate(files[i]).ext)
  {
    var os := Outcomes(files, env, coupleNames);
    var puts := Run(os, |files|).puts;
    forall k | 0 <= k < |puts|
      ensures Validate(files[puts[k].index]).Accepted?
    {
      assert os[puts[k].index] == OutcomeOf(files[puts[k].index], env(puts[k].index), coupleNames);
    }
  }

  // ---------------------------------------------------------------------------
  // The end-of-batch summary.

  /** At most this many messages are shown. */
  const ShownErrors: nat := 3

  /** Which of the three endings the counters select, with its text. */
  datatype Summary = AllFailed(detail: string) | SomeFailed(message: string) | AllStored

  /** The line appended when more than three files failed. */
  function MoreErrorsLine(failed: nat): string
    requires failed > ShownErrors
  {
    "...and " + NatToString(failed - ShownErrors) + " more errors"
  }

  /** `errorMessages.slice(0, 3).join('\n')` followed by the "more errors" suffix. */
  function ErrorDigest(failed: nat, errors: seq<string>): string {
    var shown := if |errors| <= ShownErrors then errors else errors[..ShownErrors];
    Join(shown, '\n') + (if failed > ShownErrors then "\n" + MoreErrorsLine(failed) else "")
  }

  function Summarize(completed: nat, failed: nat, errors: seq<string>): Summary {
    if failed > 0 && completed == 0 then
      AllFailed("Failed to upload any files: " + ErrorDigest(failed, errors))
    else if failed > 0 then
      SomeFailed(NatToString(completed) + " files uploaded successfully, but " + NatToString(failed) +
                 " files failed:\n" + ErrorDigest(failed, errors))
    else AllStored
  }

  lemma NumberHasNoNewline(n: nat)
    ensures '\n' !in NatToString(n)
  {
    var s := NatToString(n);
    assert forall i :: 0 <= i < |s| ==> IsDigit(s[i]);
  }

  /**
    With some files stored and some failed, the message shows, one per line:
    the counts, the first three messages (all of them when there are fewer),
    and a final "...and N more errors" line exactly when more than three
    files failed.
   */
  lemma {:induction false} PartialSummaryLines(completed: nat, failed: nat, errors: seq<string>)
    requires completed > 0 && failed > 0 && |errors| == failed
    requires forall i :: 0 <= i < |errors| ==> '\n' !in errors[i]
    ensures Summarize(completed, failed, errors).SomeFailed?
    ensures Split(Summarize(completed, failed, errors).message, '\n') ==
              [NatToString(completed) + " files uploaded successfully, but " + NatToString(failed) + " files failed:"]
              + (if failed <= 3 then errors else errors[..3])
              + (if failed > 3 then ["...and " + NatToString(failed - 3) + " more errors"] else [])
  {
    var header := NatToString(completed) + " files uploaded successfully, but " + NatToString(failed) + " files failed:";
    var lines := DigestLines(failed, errors);
    NumberHasNoNewline(completed);
    NumberHasNoNewline(failed);
    assert '\n' !in header;
    JoinCons(header, lines, '\n');
    assert Summarize(completed, failed, errors).message == header + "\n" + ErrorDigest(failed, errors);
    SplitJoin([header] + lines, '\n');
  }

  /** The lines `ErrorDigest` joins: the first three messages, then the "more errors" line if any. */
  function DigestLines(failed: nat, errors: seq<string>): (lines: seq<string>)
    requires |errors| == failed
    requires forall i :: 0 <= i < |errors| ==> '\n' !in errors[i]
    ensures lines == (if failed <= 3 then errors else errors[..3])
                     + (if failed > 3 then ["...and " + NatToString(failed - 3) + " more errors"] else [])
    ensures Join(lines, '\n') == ErrorDigest(failed, errors)
    ensures forall i :: 0 <= i < |lines| ==> '\n' !in lines[i]
  {
    if failed <= 3 then
      assert errors + [] == errors;
      errors
    else
      NumberHasNoNewline(failed - 3);
      JoinSnoc(errors[..3], MoreErrorsLine(failed), '\n');
      errors[..3] + [MoreErrorsLine(failed)]
  }
}
