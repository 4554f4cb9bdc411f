/**
  Worked batches: concrete selections and storage replies, and what the
  component ends up showing for them.
 */
module Scenarios {
  import opened Wrappers
  import opened Strings
  import opened Validation
  import opened Progress
  import opened Batch
  import opened Uploader

  /** The first banner line, with its line break, for one stored and one failed file. */
  const OneOfEachHeader: string := "1" + " files uploaded successfully, but " + "1" + " files failed:\n"

  /** The message recorded for the skipped `b.pdf`. */
  const PdfMessage: string := "File " + "b.pdf" + " has invalid type and will be skipped"

  /** The banner shown after storing `a.jpg` and skipping `b.pdf`. */
  const PhotoAndPdfBanner: string := OneOfEachHeader + PdfMessage

  /** A state with the storage ready and `files` selected. */
  function ReadyWith(files: seq<FileInfo>): UiState {
    UiState(Some(files), false, false, "", 0, true, false)
  }

  lemma ExtensionOf(name: string, base: string, ext: string)
    requires name == base + "." + ext && '.' !in ext
    ensures Extension(name) == Lower(ext)
  {
    assert name == base + ['.'] + ext;
    AfterLastAround(base, ext, '.');
  }

  lemma PhotoAccepted()
    ensures Validate(FileInfo("photo.jpg", 2000000)) == Accepted("jpg")
  {
    ExtensionOf("photo.jpg", "photo", "jpg");
    LowerNoUpper("jpg");
  }

  lemma VideoAccepted()
    ensures Validate(FileInfo("video.mov", 10000000)) == Accepted("mov")
  {
    ExtensionOf("video.mov", "video", "mov");
    LowerNoUpper("mov");
  }

  lemma PhotoAndVideoOutcomes(files: seq<FileInfo>, coupleNames: string, env: nat -> FileEnv)
    requires files == [FileInfo("photo.jpg", 2000000), FileInfo("video.mov", 10000000)]
    requires env(0).put.Stored? && env(1).put.Stored?
    ensures Outcomes(files, env, coupleNames)[0].Uploaded? && Outcomes(files, env, coupleNames)[1].Uploaded?
  {
    PhotoAccepted();
    VideoAccepted();
  }

  lemma BothUploaded(os: seq<Outcome>)
    requires |os| == 2 && os[0].Uploaded? && os[1].Uploaded?
    ensures forall i :: 0 <= i < |os| ==> os[i].Uploaded?
  {
    forall i | 0 <= i < |os|
      ensures os[i].Uploaded?
    {
      assert i == 0 || i == 1;
    }
  }

  lemma HalvesOfTwo(p: seq<nat>)
    requires |p| == 2 && forall k :: 0 <= k < 2 ==> p[k] == Percent(k + 1, 2)
    ensures p == [50, 100]
  {
    assert p[0] == Percent(1, 2) && p[1] == Percent(2, 2);
    PercentUnique(1, 2, 50);
    PercentEnds(2);
  }

  /** Two files, both stored: progress 50% then 100%. */
  lemma TwoStored(files: seq<FileInfo>, coupleNames: string, env: nat -> FileEnv)
    requires |files| == 2
    requires Outcomes(files, env, coupleNames)[0].Uploaded? && Outcomes(files, env, coupleNames)[1].Uploaded?
    ensures var out := HandleUpload(ReadyWith(files), coupleNames, env);
            && out.state.success && out.state.error == "" && out.state.progress == 100
            && |out.puts| == 2 && out.progress == [50, 100]
  {
    BothUploaded(Outcomes(files, env, coupleNames));
    EveryFileStored(ReadyWith(files), coupleNames, env);
    HalvesOfTwo(HandleUpload(ReadyWith(files), coupleNames, env).progress);
  }

  /** A 2 MB photo and a 10 MB video, both stored: clean success, progress 50% then 100%. */
  lemma TwoFilesStored(files: seq<FileInfo>, coupleNames: string, env: nat -> FileEnv)
    requires files == [FileInfo("photo.jpg", 2000000), FileInfo("video.mov", 10000000)]
    requires env(0).put.Stored? && env(1).put.Stored?
    ensures var out := HandleUpload(ReadyWith(files), coupleNames, env);
            && out.state.success && out.state.error == "" && out.state.progress == 100
            && |out.puts| == 2 && out.progress == [50, 100]
  {
    PhotoAndVideoOutcomes(files, coupleNames, env);
    TwoStored(files, coupleNames, env);
  }

  /** A 60 MiB video is skipped for size: no `upload`, generic failure, progress 0. */
  lemma OversizedVideo(files: seq<FileInfo>, coupleNames: string, env: nat -> FileEnv)
    requires files == [FileInfo("huge.mp4", 60 * 1024 * 1024)]
    ensures var out := HandleUpload(ReadyWith(files), coupleNames, env);
            && !out.state.success && out.state.error == UploadFailedMessage
            && out.state.progress == 0 && out.puts == []
  {
    var os := Outcomes(files, env, coupleNames);
    assert os[0].Skipped?;
    NoFileStored(ReadyWith(files), coupleNames, env);
    RunMatchesOutcomes(os, 1);
    assert Paths(os) == Paths(os[..0]) + [];
  }

  lemma PdfRejected()
    ensures Validate(FileInfo("b.pdf", 1000)) == BadType
  {
    ExtensionOf("b.pdf", "b", "pdf");
    LowerNoUpper("pdf");
  }

  lemma PdfSkipped(e: FileEnv, coupleNames: string)
    ensures OutcomeOf(FileInfo("b.pdf", 1000), e, coupleNames) == Skipped(RejectionMessage("b.pdf", BadType))
  {
    PdfRejected();
  }

  lemma SmallPhotoStored(e: FileEnv, coupleNames: string)
    requires e.put.Stored?
    ensures OutcomeOf(FileInfo("a.jpg", 1000), e, coupleNames).Uploaded?
  {
    ExtensionOf("a.jpg", "a", "jpg");
    LowerNoUpper("jpg");
  }

  lemma PhotoAndPdfOutcomes(files: seq<FileInfo>, coupleNames: string, env: nat -> FileEnv)
    requires files == [FileInfo("a.jpg", 1000), FileInfo("b.pdf", 1000)]
    requires env(0).put.Stored?
    ensures var os := Outcomes(files, env, coupleNames);
            os[0].Uploaded? && os[1] == Skipped(RejectionMessage("b.pdf", BadType))
  {
    SmallPhotoStored(env(0), coupleNames);
    PdfSkipped(env(1), coupleNames);
  }

  lemma FiltersOfStoredSkipped(os: seq<Outcome>, m: string)
    requires |os| == 2 && os[0].Uploaded? && os[1] == Skipped(m)
    ensures NoCrash(os) && Uploads(os) == 1 && Messages(os) == [m] && |Paths(os)| == 1
  {
    assert os[..1][..0] == [] && os[..|os| - 1] == os[..1];
    assert os[..1][0] == os[0];
    forall i | 0 <= i < |os|
      ensures !os[i].Crashed?
    {
      assert i == 0 || i == 1;
    }
    assert Messages(os[..1]) == [];
    assert Paths(os[..1]) == Paths(os[..1][..0]) + [os[0].path];
  }

  /** One file stored, then one skipped with message `m`: success with a two-line message, 50%. */
  lemma StoredThenSkipped(files: seq<FileInfo>, coupleNames: string, env: nat -> FileEnv, m: string)
    requires |files| == 2
    requires var os := Outcomes(files, env, coupleNames); os[0].Uploaded? && os[1] == Skipped(m)
    ensures var out := HandleUpload(ReadyWith(files), coupleNames, env);
            && out.state.success && out.state.progress == 50 && |out.puts| == 1
            && out.state.error == OneOfEachHeader + m
  {
    FiltersOfStoredSkipped(Outcomes(files, env, coupleNames), m);
    UploadWithoutException(ReadyWith(files), coupleNames, env);
    PercentUnique(1, 2, 50);
    var out := HandleUpload(ReadyWith(files), coupleNames, env);
    assert |PutPaths(out.puts)| == 1;
    assert Join([m], '\n') == m;
    assert NatToString(1) == "1";
  }

  /**
    A photo that is stored next to a PDF that is skipped: a partial success
    whose message names the one skipped file.
   */
  lemma PhotoAndPdf(files: seq<FileInfo>, coupleNames: string, env: nat -> FileEnv)
    requires files == [FileInfo("a.jpg", 1000), FileInfo("b.pdf", 1000)]
    requires env(0).put.Stored?
    ensures var out := HandleUpload(ReadyWith(files), coupleNames, env);
            && out.state.success && out.state.progress == 50 && |out.puts| == 1
            && out.state.error == PhotoAndPdfBanner
  {
    PhotoAndPdfOutcomes(files, coupleNames, env);
    StoredThenSkipped(files, coupleNames, env, RejectionMessage("b.pdf", BadType));
    assert RejectionMessage("b.pdf", BadType) == PdfMessage;
  }
}
