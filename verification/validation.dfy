/**
  Per-file validation in `handleUpload`: a strict 50 MiB size cap, checked
  first, then an extension allow-list applied to the lower-cased text after
  the last `.` of the file name.
 */
module Validation {
  import opened Strings

  const MiB: nat := 1024 * 1024

  /** Files strictly larger than this are skipped. */
  const MaxUploadBytes: nat := 50 * MiB

  /** The accepted extensions, lower case. */
  const AllowedExtensions: seq<string> := ["jpg", "jpeg", "png", "gif", "mp4", "mov", "avi"]

  /** The two attributes of a selected `File` the uploader reads. */
  datatype FileInfo = FileInfo(name: string, size: nat)

  /** The result of validating one file. */
  datatype Verdict = Accepted(ext: string) | TooLarge | BadType

  /** `name.split('.').pop().toLowerCase()`. */
  function Extension(name: string): string {
    Lower(AfterLast(name, '.'))
  }

  /** The size check, then the type check. */
  function Validate(f: FileInfo): (v: Verdict)
    ensures v.TooLarge? <==> f.size > MaxUploadBytes
    ensures v.Accepted? ==> v.ext in AllowedExtensions
  {
    if f.size > MaxUploadBytes then TooLarge
    else
      var ext := Extension(f.name);
      if ext == "" || ext !in AllowedExtensions then BadType else Accepted(ext)
  }

  /** The message recorded for a file that fails validation. */
  function RejectionMessage(name: string, v: Verdict): string
    requires !v.Accepted?
  {
    if v.TooLarge? then "File " + name + " exceeds 50MB limit and will be skipped"
    else "File " + name + " has invalid type and will be skipped"
  }

  predicate EndsWith(s: string, suffix: string) {
    |suffix| <= |s| && s[|s| - |suffix|..] == suffix
  }

  /** Non-empty, and made of lower-case ASCII letters and digits only. */
  predicate IsExtensionWord(e: string) {
    |e| > 0 && forall i :: 0 <= i < |e| ==> ('a' <= e[i] <= 'z' || IsDigit(e[i]))
  }

  lemma AllowedAreWords(e: string)
    requires e in AllowedExtensions
    ensures IsExtensionWord(e)
  {
    var k :| 0 <= k < |AllowedExtensions| && AllowedExtensions[k] == e;
    assert k == 0 || k == 1 || k == 2 || k == 3 || k == 4 || k == 5 || k == 6;
  }

  lemma WordShape(e: string)
    requires IsExtensionWord(e)
    ensures '.' !in e && Lower(e) == e
  {
    LowerNoUpper(e);
  }

  /** Every allowed extension is non-empty, lower case and free of `.`. */
  lemma AllowedShape(e: string)
    requires e in AllowedExtensions
    ensures '.' !in e && Lower(e) == e && |e| > 0
  {
    AllowedAreWords(e);
    WordShape(e);
  }

  /** The lower-cased last segment is the last segment of the lower-cased name. */
  lemma ExtensionOfLower(name: string)
    ensures Extension(name) == AfterLast(Lower(name), '.')
  {
    var a := AfterLast(name, '.');
    var l := Lower(name);
    var la := Lower(a);
    assert name == BeforeOrAll(name) + a;
    LowerConcat(BeforeOrAll(name), a);
    assert l[|l| - |la|..] == la;
    assert |la| == |l| || l[|l| - |la| - 1] == '.' by {
      if |la| < |l| {
        LowerKeeps(name, |name| - |a| - 1);
      }
    }
    assert '.' !in la by {
      forall k | 0 <= k < |la|
        ensures la[k] != '.'
      {
        assert a[k] != '.';
      }
    }
    AfterLastUnique(l, '.', la);
  }

  /** Everything in front of the last segment (including the last `.`). */
  function BeforeOrAll(name: string): (p: string)
    ensures name == p + AfterLast(name, '.')
  {
    var a := AfterLast(name, '.');
    assert name == name[..|name| - |a|] + a;
    name[..|name| - |a|]
  }

  /** The last segment of a string that is `e` or ends with `.` + `e`, for a `.`-free `e`. */
  lemma AfterLastOfSuffix(l: string, e: string)
    requires '.' !in e
    requires l == e || EndsWith(l, "." + e)
    ensures AfterLast(l, '.') == e
  {
    if l == e {
      AfterLastNone(l, '.');
    } else {
      assert l == l[..|l| - |e| - 1] + ['.'] + e;
      AfterLastAround(l[..|l| - |e| - 1], e, '.');
    }
  }

  /** The last segment of `l` is `l` itself or follows a `.` at the end of `l`. */
  lemma SuffixOfAfterLast(l: string)
    ensures var e := AfterLast(l, '.'); l == e || EndsWith(l, "." + e)
  {
    var e := AfterLast(l, '.');
    if |e| < |l| {
      assert l[|l| - |e| - 1..] == "." + e;
    } else {
      assert l[|l| - |e|..] == l;
    }
  }

  /** An accepted file's lower-cased name is its extension or ends with `.` and its extension. */
  lemma AcceptedHasSuffix(f: FileInfo)
    requires Validate(f).Accepted?
    ensures var e := Validate(f).ext; Lower(f.name) == e || EndsWith(Lower(f.name), "." + e)
  {
    ExtensionOfLower(f.name);
    SuffixOfAfterLast(Lower(f.name));
  }

  /** A file within the size cap whose lower-cased name ends with `.` and an allowed extension is accepted. */
  lemma SuffixAccepted(f: FileInfo, e: string)
    requires f.size <= MaxUploadBytes && e in AllowedExtensions
    requires Lower(f.name) == e || EndsWith(Lower(f.name), "." + e)
    ensures Validate(f) == Accepted(e)
  {
    AllowedShape(e);
    AfterLastOfSuffix(Lower(f.name), e);
    ExtensionOfLower(f.name);
  }

  /**
    A file is accepted exactly when it is at most 50 MiB and its lower-cased
    name is an allowed extension or ends with `.` followed by one.
   */
  lemma AcceptedIff(f: FileInfo)
    ensures Validate(f).Accepted? <==>
              f.size <= MaxUploadBytes &&
              exists e :: e in AllowedExtensions && (Lower(f.name) == e || EndsWith(Lower(f.name), "." + e))
  {
    if Validate(f).Accepted? {
      AcceptedHasSuffix(f);
    }
    if f.size <= MaxUploadBytes && exists e :: e in AllowedExtensions && (Lower(f.name) == e || EndsWith(Lower(f.name), "." + e)) {
      var e :| e in AllowedExtensions && (Lower(f.name) == e || EndsWith(Lower(f.name), "." + e));
      SuffixAccepted(f, e);
    }
  }

  /** A name ending in `.` has an empty extension, so its file is rejected. */
  lemma TrailingDotRejected(f: FileInfo)
    requires |f.name| > 0 && f.name[|f.name| - 1] == '.'
    ensures Extension(f.name) == ""
    ensures !Validate(f).Accepted?
  {
    assert f.name == f.name[..|f.name| - 1] + ['.'] + "";
    AfterLastAround(f.name[..|f.name| - 1], "", '.');
  }

  /** A name without `.` is its own extension (lower-cased). */
  lemma NoDotWholeName(f: FileInfo)
    requires '.' !in f.name
    ensures Extension(f.name) == Lower(f.name)
    ensures Validate(f).Accepted? <==> f.size <= MaxUploadBytes && Lower(f.name) in AllowedExtensions
  {
    AfterLastNone(f.name, '.');
  }

  /** Only the lower-cased name matters: the check is case-insensitive. */
  lemma CaseInsensitive(f: FileInfo)
    ensures Validate(f) == Validate(f.(name := Lower(f.name)))
  {
    ExtensionOfLower(f.name);
    ExtensionOfLower(Lower(f.name));
    LowerIdempotent(f.name);
  }
}
