/**
  The `FileUploader` component as a state machine: its state variables, the
  storage check run once at mount, `handleFileChange` and `handleUpload`,
  each one sequential transition. The storage service answers through
  explicit reply values.
 */
module Uploader {
  import opened Wrappers
  import opened Strings
  import opened Validation
  import opened Progress
  import opened StorageKey
  import opened Batch

  const BucketName: string := "wedding-uploads"

  /** The `fileSizeLimit` the bucket is created with: 100 MiB. */
  const BucketSizeLimit: nat := 100 * 1024 * 1024

  /** The object written after creating the bucket, to confirm write access. */
  const MarkerPath: string := "test-folder/.gitkeep"

  const NoFilesMessage: string := "Please select at least one file to upload"
  const NotReadyMessage: string := "Storage is not ready yet. Please try again in a moment."
  const UploadFailedMessage: string := "Failed to upload. Please try again."
  const CreateFailedMessage: string := "Failed to initialize storage. Please try again later."
  const ConnectFailedMessage: string := "Failed to connect to storage. Please try again later."
  const InitFailedMessage: string := "Failed to initialize. Please check your connection."

  /** The component's `useState` variables. */
  datatype UiState = UiState(
    files: Option<seq<FileInfo>>,
    uploading: bool,
    success: bool,
    error: string,
    progress: nat,
    bucketReady: bool,
    checkingStorage: bool)

  /** The initial values of the state variables. */
  const Initial: UiState := UiState(None, false, false, "", 0, false, true)

  /** The storage readiness the two flags encode. */
  datatype Readiness = Checking | Ready | Unavailable

  function ReadinessOf(s: UiState): Readiness {
    if s.checkingStorage then Checking else if s.bucketReady then Ready else Unavailable
  }

  // ---------------------------------------------------------------------------
  // The storage check run at mount.

  /** What a storage call did: returned no error, returned an error, or threw. */
  datatype Reply = Ok | Err(message: string) | Threw

  /** The replies of `getBucket`, `createBucket`, the marker `upload` and `list`. */
  datatype StorageReplies = StorageReplies(getBucket: Reply, createBucket: Reply, marker: Reply, list: Reply)

  /** A call made on the storage service. */
  datatype StorageCall =
    | GetBucket(bucket: string)
    | CreateBucket(bucket: string, isPublic: bool, fileSizeLimit: nat)
    | UploadObject(bucket: string, path: string)
    | ListBucket(bucket: string)

  datatype MountResult = MountResult(state: UiState, calls: seq<StorageCall>)

  /** `getBucket` reported that the bucket does not exist. */
  predicate BucketMissing(r: StorageReplies) {
    r.getBucket.Err? && Contains(r.getBucket.message, "not found")
  }

  /**
    The storage becomes usable in two ways: the bucket exists (and listing
    it does not throw), or it was missing and was created (and writing the
    marker does not throw). An error returned by `list` or by the marker
    upload is only logged.
   */
  predicate StorageUsable(r: StorageReplies) {
    || (r.getBucket.Ok? && !r.list.Threw?)
    || (BucketMissing(r) && r.createBucket.Ok? && !r.marker.Threw?)
  }

  /** `checkAndCreateBucket`: the exits by `return`, by the `catch`, and the normal end. */
  function CheckStorage(s: UiState, r: StorageReplies): (out: MountResult)
    ensures !out.state.checkingStorage
    ensures out.state.bucketReady <==> s.bucketReady || StorageUsable(r)
    ensures out.state.(error := s.error, bucketReady := s.bucketReady, checkingStorage := s.checkingStorage) == s
    ensures StorageUsable(r) ==> out.state.error == s.error
    ensures !StorageUsable(r) ==> out.state.error in {CreateFailedMessage, ConnectFailedMessage, InitFailedMessage}
    ensures |out.calls| >= 1 && out.calls[0] == GetBucket(BucketName)
    ensures CreateBucket(BucketName, false, BucketSizeLimit) in out.calls <==> BucketMissing(r)
    ensures forall c :: c in out.calls && c.CreateBucket? ==> c == CreateBucket(BucketName, false, BucketSizeLimit)
  {
    var checking := s.(checkingStorage := true);
    var get := GetBucket(BucketName);
    match r.getBucket
    case Threw =>
      MountResult(checking.(error := InitFailedMessage, checkingStorage := false), [get])
    case Err(m) =>
      if Contains(m, "not found") then
        var create := CreateBucket(BucketName, false, BucketSizeLimit);
        match r.createBucket
        case Threw =>
          MountResult(checking.(error := InitFailedMessage, checkingStorage := false), [get, create])
        case Err(_) =>
          MountResult(checking.(error := CreateFailedMessage, checkingStorage := false), [get, create])
        case Ok =>
          var marker := UploadObject(BucketName, MarkerPath);
          if r.marker.Threw? then
            MountResult(checking.(error := InitFailedMessage, checkingStorage := false), [get, create, marker])
          else
            MountResult(checking.(bucketReady := true, checkingStorage := false), [get, create, marker])
      else
        MountResult(checking.(error := ConnectFailedMessage, checkingStorage := false), [get])
    case Ok =>
      var list := ListBucket(BucketName);
      if r.list.Threw? then
        MountResult(checking.(error := InitFailedMessage, checkingStorage := false), [get, list])
      else
        MountResult(checking.(bucketReady := true, checkingStorage := false), [get, list])
  }

  /**
    From the initial state the check leaves `Checking` for `Ready` exactly
    when the storage is usable, and for `Unavailable` otherwise, each failure
    with its own message.
   */
  lemma MountReadiness(r: StorageReplies)
    ensures ReadinessOf(Initial) == Checking
    ensures var s := CheckStorage(Initial, r).state;
            && (ReadinessOf(s) == Ready <==> StorageUsable(r))
            && (ReadinessOf(s) == Unavailable <==> !StorageUsable(r))
            && (StorageUsable(r) ==> s.error == "")
            && (BucketMissing(r) && r.createBucket.Err? ==> s.error == CreateFailedMessage)
            && (r.getBucket.Err? && !BucketMissing(r) ==> s.error == ConnectFailedMessage)
            && (r.getBucket.Threw? ==> s.error == InitFailedMessage)
            && (BucketMissing(r) && r.createBucket.Threw? ==> s.error == InitFailedMessage)
            && (BucketMissing(r) && r.createBucket.Ok? && r.marker.Threw? ==> s.error == InitFailedMessage)
            && (r.getBucket.Ok? && r.list.Threw? ==> s.error == InitFailedMessage)
  {
  }

  // ---------------------------------------------------------------------------
  // The two event handlers.

  /** `handleFileChange`: only a non-empty selection is taken. */
  function HandleFileChange(s: UiState, selection: Option<seq<FileInfo>>): (r: UiState)
    ensures selection.Some? && |selection.value| > 0 ==>
              r.files == selection && r.error == "" && !r.success
    ensures r.(files := s.files, error := s.error, success := s.success) == s
    ensures !(selection.Some? && |selection.value| > 0) ==> r == s
  {
    if selection.Some? && |selection.value| > 0 then
      s.(files := selection, error := "", success := false)
    else s
  }

  /** The new state, the `upload` calls made, and the values passed to `setUploadProgress`. */
  datatype UploadResult = UploadResult(state: UiState, puts: seq<Put>, progress: seq<nat>)

  /** The files of a state that has a non-empty selection. */
  predicate HasFiles(s: UiState) {
    s.files.Some? && |s.files.value| > 0
  }

  /** The last progress value passed, or the 0 set at the start of the batch. */
  function FinalProgress(p: seq<nat>): nat {
    if |p| == 0 then 0 else p[|p| - 1]
  }

  /** `handleUpload`: the two local checks, the loop, then the summary or the `catch`. */
  function HandleUpload(s: UiState, coupleNames: string, env: nat -> FileEnv): (out: UploadResult)
    ensures !HasFiles(s) ==> out == UploadResult(s.(error := NoFilesMessage), [], [])
    ensures HasFiles(s) && !s.bucketReady ==> out == UploadResult(s.(error := NotReadyMessage), [], [])
    ensures out.state.(uploading := s.uploading, success := s.success, error := s.error, progress := s.progress) == s
    ensures HasFiles(s) && s.bucketReady ==> !out.state.uploading && out.state.progress <= 100
  {
    if !HasFiles(s) then
      UploadResult(s.(error := NoFilesMessage), [], [])
    else if !s.bucketReady then
      UploadResult(s.(error := NotReadyMessage), [], [])
    else
      var files := s.files.value;
      var t := Run(Outcomes(files, env, coupleNames), |files|);
      assert FinalProgress(t.progress) <= 100 by {
        if |t.progress| > 0 {
          assert t.progress[|t.progress| - 1] == Percent(|t.progress|, |files|);
        }
      }
      Settle(s, t)
  }

  /** After the loop: the `catch` when an `upload` threw, otherwise the summary of the counters. */
  function Settle(s: UiState, t: Tally): (out: UploadResult)
    ensures out.puts == t.puts && out.progress == t.progress
    ensures out.state.progress == FinalProgress(t.progress) && !out.state.uploading
    ensures t.aborted ==> !out.state.success && out.state.error == UploadFailedMessage
    ensures out.state.(uploading := s.uploading, success := s.success, error := s.error, progress := s.progress) == s
  {
    var done := s.(uploading := false, progress := FinalProgress(t.progress));
    if t.aborted then
      UploadResult(done.(success := false, error := UploadFailedMessage), t.puts, t.progress)
    else
      match Summarize(t.completed, t.failed, t.errors)
      case AllFailed(_) => UploadResult(done.(success := false, error := UploadFailedMessage), t.puts, t.progress)
      case SomeFailed(m) => UploadResult(done.(success := true, error := m), t.puts, t.progress)
      case AllStored => UploadResult(done.(success := true, error := ""), t.puts, t.progress)
  }

  /**
    A loop that ran to the end over `total` files settles as its counters
    dictate: success exactly when a file was stored, no error text exactly
    when all were, the generic failure text exactly when none was.
   */
  lemma SettleWithoutException(s: UiState, t: Tally, total: nat)
    requires !t.aborted && 0 < total && t.completed + t.failed == total && |t.errors| == t.failed
    ensures var out := Settle(s, t);
            && (out.state.success <==> t.completed > 0)
            && (out.state.error == "" <==> t.completed == total)
            && (out.state.error == UploadFailedMessage <==> t.completed == 0)
            && (0 < t.completed < total ==> out.state.error == Summarize(t.completed, t.failed, t.errors).message)
  {
    if 0 < t.completed < total {
      var m := Summarize(t.completed, t.failed, t.errors).message;
      assert m[0..|NatToString(t.completed)|] == NatToString(t.completed);
      assert m != "" && m != UploadFailedMessage by {
        assert |m| > |UploadFailedMessage|;
      }
    }
  }

  /** The last progress value is the percentage of the files stored. */
  lemma FinalProgressIsPercent(os: seq<Outcome>, total: nat)
    requires 0 < total && |os| <= total
    ensures FinalProgress(Run(os, total).progress) == Percent(Run(os, total).completed, total)
  {
    if Run(os, total).completed == 0 {
      PercentEnds(total);
    }
  }

  /**
    A batch in which no `upload` throws ends as the counters dictate:
    success is reported exactly when at least one file was stored; the error
    text is empty exactly when every file was stored, is the generic failure
    text exactly when none was, and otherwise lists the failures; and the
    progress shows the percentage of files stored.
   */
  lemma UploadWithoutException(s: UiState, coupleNames: string, env: nat -> FileEnv)
    requires HasFiles(s) && s.bucketReady
    requires NoCrash(Outcomes(s.files.value, env, coupleNames))
    ensures var out := HandleUpload(s, coupleNames, env);
            var files := s.files.value;
            var stored := Uploads(Outcomes(files, env, coupleNames));
            && (out.state.success <==> stored > 0)
            && (out.state.error == "" <==> stored == |files|)
            && (out.state.error == UploadFailedMessage <==> stored == 0)
            && (0 < stored < |files| ==>
                  out.state.error == Summarize(stored, |files| - stored, Messages(Outcomes(files, env, coupleNames))).message)
            && out.state.progress == Percent(stored, |files|)
            && PutPaths(out.puts) == Paths(Outcomes(files, env, coupleNames))
  {
    var os := Outcomes(s.files.value, env, coupleNames);
    assert HandleUpload(s, coupleNames, env) == Settle(s, Run(os, |os|));
    SettledBatch(s, os);
  }

  /** `UploadWithoutException` for any outcome sequence, read through the filters. */
  lemma SettledBatch(s: UiState, os: seq<Outcome>)
    requires 0 < |os| && NoCrash(os)
    ensures var out := Settle(s, Run(os, |os|));
            var stored := Uploads(os);
            && (out.state.success <==> stored > 0)
            && (out.state.error == "" <==> stored == |os|)
            && (out.state.error == UploadFailedMessage <==> stored == 0)
            && (0 < stored < |os| ==> out.state.error == Summarize(stored, |os| - stored, Messages(os)).message)
            && out.state.progress == Percent(stored, |os|)
            && PutPaths(out.puts) == Paths(os)
  {
    RunMatchesOutcomes(os, |os|);
    FinalProgressIsPercent(os, |os|);
    SettleWithoutException(s, Run(os, |os|), |os|);
  }

  /**
    A batch with both stored and failed files reports success, and its error
    banner shows, line by line: the two counts, the first three messages in
    file order (all of them if fewer), and "...and N more errors" exactly
    when more than three files failed.
   */
  lemma PartialSuccessLines(s: UiState, coupleNames: string, env: nat -> FileEnv)
    requires HasFiles(s) && s.bucketReady
    requires var os := Outcomes(s.files.value, env, coupleNames);
             NoCrash(os) && 0 < Uploads(os) < |os|
    requires var ms := Messages(Outcomes(s.files.value, env, coupleNames));
             forall i :: 0 <= i < |ms| ==> '\n' !in ms[i]
    ensures var out := HandleUpload(s, coupleNames, env);
            var os := Outcomes(s.files.value, env, coupleNames);
            var stored := Uploads(os);
            var failed := |os| - stored;
            var ms := Messages(os);
            && out.state.success
            && |ms| == failed
            && Split(out.state.error, '\n') ==
                 [NatToString(stored) + " files uploaded successfully, but " + NatToString(failed) + " files failed:"]
                 + (if failed <= 3 then ms else ms[..3])
                 + (if failed > 3 then ["...and " + NatToString(failed - 3) + " more errors"] else [])
  {
    var os := Outcomes(s.files.value, env, coupleNames);
    RunMatchesOutcomes(os, |os|);
    UploadWithoutException(s, coupleNames, env);
    PartialSummaryLines(Uploads(os), |os| - Uploads(os), Messages(os));
  }

  /**
    A batch in which every file is stored ends in a clean success: no error
    text, one `upload` call per file, and progress values 1/n, 2/n, ... up
    to 100%.
   */
  lemma EveryFileStored(s: UiState, coupleNames: string, env: nat -> FileEnv)
    requires HasFiles(s) && s.bucketReady
    requires forall i :: 0 <= i < |s.files.value| ==> Outcomes(s.files.value, env, coupleNames)[i].Uploaded?
    ensures var out := HandleUpload(s, coupleNames, env);
            var n := |s.files.value|;
            && out.state.success && out.state.error == "" && out.state.progress == 100
            && |out.puts| == n
            && |out.progress| == n
            && forall k :: 0 <= k < n ==> out.progress[k] == Percent(k + 1, n)
  {
    var files := s.files.value;
    var os := Outcomes(files, env, coupleNames);
    UploadsAll(os);
    RunMatchesOutcomes(os, |files|);
    UploadWithoutException(s, coupleNames, env);
    PercentEnds(|files|);
    PathsCount(os);
    var t := Run(os, |files|);
    assert |t.puts| == |PutPaths(t.puts)|;
  }

  /** Every outcome that is not a skip has its key among the paths. */
  lemma {:induction false} PathsCount(os: seq<Outcome>)
    requires forall i :: 0 <= i < |os| ==> !os[i].Skipped?
    ensures |Paths(os)| == |os|
    decreases |os|
  {
    if |os| > 0 {
      PathsCount(os[..|os| - 1]);
    }
  }

  /**
    A batch in which every file is skipped or refused ends in the generic
    failure: no success, progress 0, and no progress value passed.
   */
  lemma NoFileStored(s: UiState, coupleNames: string, env: nat -> FileEnv)
    requires HasFiles(s) && s.bucketReady
    requires forall i :: 0 <= i < |s.files.value| ==>
               var o := Outcomes(s.files.value, env, coupleNames)[i]; o.Skipped? || o.Failed?
    ensures var out := HandleUpload(s, coupleNames, env);
            && !out.state.success && out.state.error == UploadFailedMessage
            && out.state.progress == 0 && out.progress == []
  {
    var files := s.files.value;
    var os := Outcomes(files, env, coupleNames);
    NoneUploaded(os);
    UploadWithoutException(s, coupleNames, env);
    PercentEnds(|files|);
    RunMatchesOutcomes(os, |files|);
    assert |Run(os, |files|).progress| == 0;
  }

  lemma {:induction false} NoneUploaded(os: seq<Outcome>)
    requires forall i :: 0 <= i < |os| ==> os[i].Skipped? || os[i].Failed?
    ensures Uploads(os) == 0 && NoCrash(os)
    decreases |os|
  {
    if |os| > 0 {
      NoneUploaded(os[..|os| - 1]);
    }
  }

  /**
    When an `upload` throws, the `catch` reports the generic failure, success
    stays false, and the progress keeps the value reached before the throw.
   */
  lemma UploadWithException(s: UiState, coupleNames: string, env: nat -> FileEnv, k: nat)
    requires HasFiles(s) && s.bucketReady
    requires var os := Outcomes(s.files.value, env, coupleNames);
             k < |os| && NoCrash(os[..k]) && os[k].Crashed?
    ensures var out := HandleUpload(s, coupleNames, env);
            var os := Outcomes(s.files.value, env, coupleNames);
            && !out.state.success
            && out.state.error == UploadFailedMessage
            && out.state.progress == Percent(Uploads(os[..k]), |s.files.value|)
            && PutPaths(out.puts) == Paths(os[..k + 1])
  {
    var files := s.files.value;
    var os := Outcomes(files, env, coupleNames);
    RunAbortsAtFirstCrash(os, |files|, k);
    FinalProgressIsPercent(os, |files|);
  }

  /**
    For fewer than 200 files the bar ends at 100% exactly when every file
    was stored, whether or not an `upload` throws (with 200 or more, 99.5%
    already rounds to 100%).
   */
  lemma FullProgressIffAllStored(s: UiState, coupleNames: string, env: nat -> FileEnv)
    requires HasFiles(s) && s.bucketReady && |s.files.value| < 200
    ensures HandleUpload(s, coupleNames, env).state.progress == 100 <==>
              forall i :: 0 <= i < |s.files.value| ==> Outcomes(s.files.value, env, coupleNames)[i].Uploaded?
  {
    var files := s.files.value;
    var os := Outcomes(files, env, coupleNames);
    if NoCrash(os) {
      UploadWithoutException(s, coupleNames, env);
      PercentFullSmallBatch(Uploads(os), |files|);
      UploadsAll(os);
    } else {
      var k := FirstCrash(os);
      UploadWithException(s, coupleNames, env, k);
      PercentFullSmallBatch(Uploads(os[..k]), |files|);
    }
  }

  /** All outcomes are uploads exactly when the upload count is the length. */
  lemma {:induction false} UploadsAll(os: seq<Outcome>)
    ensures Uploads(os) == |os| <==> forall i :: 0 <= i < |os| ==> os[i].Uploaded?
    decreases |os|
  {
    if |os| > 0 {
      var prefix := os[..|os| - 1];
      UploadsAll(prefix);
      assert forall i :: 0 <= i < |prefix| ==> prefix[i] == os[i];
    }
  }

  // ---------------------------------------------------------------------------
  // A session: the mount check followed by any sequence of user events.

  datatype Event =
    | Choose(selection: Option<seq<FileInfo>>)
    | Submit(coupleNames: string, env: nat -> FileEnv)

  datatype SessionResult = SessionResult(state: UiState, puts: seq<Put>)

  /** Applies the events in order, collecting every `upload` call. */
  function Replay(s: UiState, events: seq<Event>): SessionResult
    decreases |events|
  {
    if |events| == 0 then SessionResult(s, [])
    else
      match events[0]
      case Choose(sel) => Replay(HandleFileChange(s, sel), events[1..])
      case Submit(c, env) =>
        var out := HandleUpload(s, c, env);
        var rest := Replay(out.state, events[1..]);
        SessionResult(rest.state, out.puts + rest.puts)
  }

  /** No user event changes the readiness: once decided, it never returns to `Checking`. */
  lemma {:induction false} ReadinessStable(s: UiState, events: seq<Event>)
    ensures ReadinessOf(Replay(s, events).state) == ReadinessOf(s)
    decreases |events|
  {
    if |events| > 0 {
      match events[0]
      case Choose(sel) => ReadinessStable(HandleFileChange(s, sel), events[1..]);
      case Submit(c, env) => ReadinessStable(HandleUpload(s, c, env).state, events[1..]);
    }
  }

  /** While the storage is not ready, no event ever reaches `upload`. */
  lemma {:induction false} NoPutsUnlessReady(s: UiState, events: seq<Event>)
    requires !s.bucketReady
    ensures Replay(s, events).puts == []
    decreases |events|
  {
    if |events| > 0 {
      match events[0]
      case Choose(sel) => NoPutsUnlessReady(HandleFileChange(s, sel), events[1..]);
      case Submit(c, env) => NoPutsUnlessReady(HandleUpload(s, c, env).state, events[1..]);
    }
  }

  /** After a failed storage check, every later upload is refused without a storage call. */
  lemma FailedMountBlocksUploads(r: StorageReplies, events: seq<Event>)
    requires !StorageUsable(r)
    ensures var s := CheckStorage(Initial, r).state;
            && ReadinessOf(Replay(s, events).state) == Unavailable
            && Replay(s, events).puts == []
  {
    var s := CheckStorage(Initial, r).state;
    ReadinessStable(s, events);
    NoPutsUnlessReady(s, events);
  }
}
