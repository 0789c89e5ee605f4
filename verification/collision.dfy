/**
 Collision avoidance of `src/download.rs` (`ensure_path`) and the target
 resolution of `download_level`. The filesystem is a snapshot: the finite
 set of paths that exist when the probe runs.
 */
module Collision {
  import opened Wrappers
  import opened Text
  import opened Paths
  import Filename

  /** Why an occupied path could not be disambiguated. */
  datatype PathError = NoStem | NoExtension

  /**
   The `i`-th alternative to `path`: `path.with_file_name("stem (i).ext")`,
   the same directory with the final segment replaced.
   */
  function Candidate(path: string, stem: string, ext: string, i: nat): string {
    Parent(path) + stem + " (" + Decimal(i) + ")." + ext
  }

  /**
   An alternative stays in the directory of `path`, and its final segment is
   `stem (i).ext`, whenever the stem and extension are plain text, as the
   ones a path yields are.
   */
  lemma CandidateSibling(path: string, stem: string, ext: string, i: nat)
    requires '/' !in stem && '/' !in ext
    ensures Parent(Candidate(path, stem, ext, i)) == Parent(path)
    ensures FileName(Candidate(path, stem, ext, i)) == Some(stem + " (" + Decimal(i) + ")." + ext)
  {
    var seg := stem + " (" + Decimal(i) + ")." + ext;
    assert '/' !in Decimal(i) by {
      forall k | 0 <= k < |Decimal(i)|
        ensures Decimal(i)[k] != '/'
      {
        assert IsDigits(Decimal(i));
      }
    }
    assert '/' !in seg;
    assert Candidate(path, stem, ext, i) == Parent(path) + seg;
    ParentOfAppend(Parent(path), seg);
  }

  /** Different numbers give different alternatives. */
  lemma CandidateInjective(path: string, stem: string, ext: string, i: nat, j: nat)
    requires Candidate(path, stem, ext, i) == Candidate(path, stem, ext, j)
    ensures i == j
  {
    var p := Parent(path);
    var a := p + stem + " (";
    var c := Candidate(path, stem, ext, i);
    assert c == a + Decimal(i) + (")." + ext);
    assert c == a + Decimal(j) + (")." + ext);
    assert Decimal(i) == c[|a|..|c| - |ext| - 2];
    assert Decimal(j) == c[|a|..|c| - |ext| - 2];
    DecimalInjective(i, j);
  }

  /** The alternatives numbered `2 .. i - 1`, the ones probed before `i`. */
  function Probed(path: string, stem: string, ext: string, i: nat): set<string>
    decreases i
  {
    if i <= 2 then {} else Probed(path, stem, ext, i - 1) + {Candidate(path, stem, ext, i - 1)}
  }

  /** The probed set holds exactly `i - 2` distinct alternatives, none numbered `i` or later. */
  lemma {:induction false} ProbedSize(path: string, stem: string, ext: string, i: nat)
    requires 2 <= i
    ensures |Probed(path, stem, ext, i)| == i - 2
    ensures forall k :: i <= k ==> Candidate(path, stem, ext, k) !in Probed(path, stem, ext, i)
    decreases i
  {
    if i > 2 {
      ProbedSize(path, stem, ext, i - 1);
      forall k | i <= k
        ensures Candidate(path, stem, ext, k) != Candidate(path, stem, ext, i - 1)
      {
        if Candidate(path, stem, ext, k) == Candidate(path, stem, ext, i - 1) {
          CandidateInjective(path, stem, ext, k, i - 1);
        }
      }
    }
  }

  /** Every alternative numbered below `i` has been probed. */
  lemma {:induction false} ProbedHas(path: string, stem: string, ext: string, i: nat, j: nat)
    requires 2 <= j < i
    ensures Candidate(path, stem, ext, j) in Probed(path, stem, ext, i)
    decreases i
  {
    if j < i - 1 {
      ProbedHas(path, stem, ext, i - 1, j);
    }
  }

  /** A subset of a finite set is no larger. */
  lemma {:induction false} SubsetSize(a: set<string>, b: set<string>)
    requires a <= b
    ensures |a| <= |b|
    decreases |b|
  {
    if a != {} {
      var x :| x in a;
      SubsetSize(a - {x}, b - {x});
    }
  }

  /** One more occupied alternative grows the probed set within the existing paths. */
  lemma ProbeStep(existing: set<string>, path: string, stem: string, ext: string, i: nat)
    requires 2 <= i && Probed(path, stem, ext, i) <= existing
    requires Candidate(path, stem, ext, i) in existing
    ensures Probed(path, stem, ext, i + 1) <= existing
    ensures |Probed(path, stem, ext, i)| < |Probed(path, stem, ext, i + 1)| <= |existing|
  {
    ProbedSize(path, stem, ext, i);
    ProbedSize(path, stem, ext, i + 1);
    SubsetSize(Probed(path, stem, ext, i + 1), existing);
  }

  /**
   `name` is the first free alternative of `path`: it is `stem (i).ext` for
   some `i >= 2`, it does not exist, and every alternative before it does.
   */
  ghost predicate FirstFree(existing: set<string>, path: string, stem: string, ext: string, name: string) {
    exists i: nat :: 2 <= i && name == Candidate(path, stem, ext, i) && name !in existing
      && forall j: nat :: 2 <= j < i ==> Candidate(path, stem, ext, j) in existing
  }

  /**
   `ensure_path`: a free path is kept as it is; an occupied one without a
   stem or without an extension is an error; otherwise the result is the
   first free `stem (i).ext` for `i = 2, 3, ...`.
   */
  method EnsurePath(existing: set<string>, path: string) returns (r: Result<string, PathError>)
    ensures path !in existing ==> r == Ok(path)
    ensures path in existing && Stem(path).None? ==> r == Err(NoStem)
    ensures path in existing && Stem(path).Some? && Extension(path).None? ==> r == Err(NoExtension)
    ensures path in existing && Extension(path).Some? ==> r.Ok?
    ensures r.Ok? ==> r.value !in existing
    ensures r.Ok? && path in existing ==>
      Stem(path).Some? && Extension(path).Some?
      && FirstFree(existing, path, Stem(path).value, Extension(path).value, r.value)
  {
    if path !in existing {
      return Ok(path);
    }
    if Stem(path).None? {
      return Err(NoStem);
    }
    if Extension(path).None? {
      return Err(NoExtension);
    }
    var stem := Stem(path).value;
    var ext := Extension(path).value;
    var i: nat := 2;
    while Candidate(path, stem, ext, i) in existing
      invariant 2 <= i
      invariant Probed(path, stem, ext, i) <= existing
      decreases |existing| - |Probed(path, stem, ext, i)|
    {
      ProbeStep(existing, path, stem, ext, i);
      i := i + 1;
    }
    r := Ok(Candidate(path, stem, ext, i));
    assert FirstFree(existing, path, stem, ext, r.value) by {
      forall j: nat | 2 <= j < i
        ensures Candidate(path, stem, ext, j) in existing
      {
        ProbedHas(path, stem, ext, i, j);
      }
      assert 2 <= i && r.value == Candidate(path, stem, ext, i) && r.value !in existing;
    }
  }

  /** The first free alternative is unique: the probe's answer is determined. */
  lemma FirstFreeUnique(existing: set<string>, path: string, stem: string, ext: string, a: string, b: string)
    requires FirstFree(existing, path, stem, ext, a) && FirstFree(existing, path, stem, ext, b)
    ensures a == b
  {
    var i: nat :| 2 <= i && a == Candidate(path, stem, ext, i) && a !in existing
      && forall j: nat :: 2 <= j < i ==> Candidate(path, stem, ext, j) in existing;
    var k: nat :| 2 <= k && b == Candidate(path, stem, ext, k) && b !in existing
      && forall j: nat :: 2 <= j < k ==> Candidate(path, stem, ext, j) in existing;
  }

  /**
   With `dl/song.zip` present, `ensure_path` of it gives `dl/song (2).zip`;
   with `dl/song (2).zip` present as well, it gives `dl/song (3).zip`.
   */
  method SongExample() returns (first: Result<string, PathError>, second: Result<string, PathError>)
    ensures first == Ok("dl/song (2).zip")
    ensures second == Ok("dl/song (3).zip")
  {
    SongPath();
    first := EnsurePath({"dl/song.zip"}, "dl/song.zip");
    SongFirstFree(first.value);
    second := EnsurePath({"dl/song.zip", "dl/song (2).zip"}, "dl/song.zip");
    SongSecondFree(second.value);
  }

  /** `dl/song.zip` has stem `song` and extension `zip`. */
  lemma SongPath()
    ensures Stem("dl/song.zip") == Some("song")
    ensures Extension("dl/song.zip") == Some("zip")
  {
    SongFileName();
    SongSplit();
  }

  /** The final segment of `dl/song.zip`. */
  lemma SongFileName()
    ensures FileName("dl/song.zip") == Some("song.zip")
  {
    SongParent();
    assert "dl/song.zip"[3..] == "song.zip";
  }

  /** `song.zip` split at its last dot. */
  lemma SongSplit()
    ensures SplitAtDot("song.zip") == ("song", Some("zip"))
  {
    SplitAtDotOf("song", "zip");
    assert "song" + "." + "zip" == "song.zip";
  }

  /** The first free alternative to `dl/song.zip` when only it exists. */
  lemma SongFirstFree(name: string)
    ensures FirstFree({"dl/song.zip"}, "dl/song.zip", "song", "zip", name) ==> name == "dl/song (2).zip"
  {
    SongCandidates();
    var c2 := Candidate("dl/song.zip", "song", "zip", 2);
    assert FirstFree({"dl/song.zip"}, "dl/song.zip", "song", "zip", c2) by {
      assert c2 !in {"dl/song.zip"};
    }
    if FirstFree({"dl/song.zip"}, "dl/song.zip", "song", "zip", name) {
      FirstFreeUnique({"dl/song.zip"}, "dl/song.zip", "song", "zip", name, c2);
    }
  }

  /** The first free alternative to `dl/song.zip` when `dl/song (2).zip` exists too. */
  lemma SongSecondFree(name: string)
    ensures FirstFree({"dl/song.zip", "dl/song (2).zip"}, "dl/song.zip", "song", "zip", name) ==> name == "dl/song (3).zip"
  {
    SongCandidates();
    var c2 := Candidate("dl/song.zip", "song", "zip", 2);
    var c3 := Candidate("dl/song.zip", "song", "zip", 3);
    var existing := {"dl/song.zip", "dl/song (2).zip"};
    assert c3 !in existing by {
      assert c3[9] != "dl/song.zip"[9];
      assert c3[9] != "dl/song (2).zip"[9];
    }
    assert forall j: nat :: 2 <= j < 3 ==> Candidate("dl/song.zip", "song", "zip", j) in existing by {
      assert c2 in existing;
    }
    assert FirstFree(existing, "dl/song.zip", "song", "zip", c3);
    if FirstFree(existing, "dl/song.zip", "song", "zip", name) {
      FirstFreeUnique(existing, "dl/song.zip", "song", "zip", name, c3);
    }
  }

  /** The second and third alternatives to `dl/song.zip`. */
  lemma SongCandidates()
    ensures Candidate("dl/song.zip", "song", "zip", 2) == "dl/song (2).zip"
    ensures Candidate("dl/song.zip", "song", "zip", 3) == "dl/song (3).zip"
  {
    SongParent();
    assert Decimal(2) == "2" && Decimal(3) == "3";
    assert "dl/" + "song" + " (" + "2" + ")." + "zip" == "dl/song (2).zip";
    assert "dl/" + "song" + " (" + "3" + ")." + "zip" == "dl/song (3).zip";
  }

  /** The directory part of `dl/song.zip`. */
  lemma SongParent()
    ensures Parent("dl/song.zip") == "dl/"
  {
    ParentOfAppend("dl/", "song.zip");
    assert "dl/" + "song.zip" == "dl/song.zip";
  }

  /** Why a download's target path could not be chosen. */
  datatype TargetError = FilenameFailed(reason: Filename.FilenameError) | PathFailed(cause: PathError)

  /**
   The start of `download_level`: resolve the filename from the response,
   join it onto the download folder and make the path collision-free. A
   chosen target never names an existing path.
   */
  method ResolveTarget(existing: set<string>, folder: string, urlPath: string, h: Filename.DispositionHeader)
    returns (r: Result<string, TargetError>)
    ensures Filename.GetFilename(urlPath, h).Err? ==> r == Err(FilenameFailed(Filename.GetFilename(urlPath, h).error))
    ensures r.Ok? ==> r.value !in existing
    ensures r.Ok? && Filename.GetFilename(urlPath, h).Ok?
              && Join(folder, Filename.GetFilename(urlPath, h).value) !in existing
            ==> r.value == Join(folder, Filename.GetFilename(urlPath, h).value)
    ensures Filename.GetFilename(urlPath, h).Ok? ==>
      var target := Join(folder, Filename.GetFilename(urlPath, h).value);
      && (target !in existing || Extension(target).Some? ==> r.Ok?)
      && (r.Ok? && target in existing ==>
            Stem(target).Some? && Extension(target).Some?
            && FirstFree(existing, target, Stem(target).value, Extension(target).value, r.value))
      && (r.Err? ==> r.error.PathFailed? && target in existing && Extension(target).None?)
  {
    var name := Filename.GetFilename(urlPath, h);
    if name.Err? {
      return Err(FilenameFailed(name.error));
    }
    var full := EnsurePath(existing, Join(folder, name.value));
    match full
    case Err(e) => r := Err(PathFailed(e));
    case Ok(p) => r := Ok(p);
  }
}
