/** Collision avoidance for output paths (ensureUniquePath): keep the path if
    nothing is there, otherwise try "dir/name-1.ext", "dir/name-2.ext", ...
    up to 999. The filesystem is the set of paths for which a stat does not
    report "does not exist". */
module Uniquifier {
  import opened Text
  import opened Paths

  const MaxSuffix: nat := 999

  /** The file name of the i-th alternative: "name-i.ext". */
  function CandidateName(path: string, i: nat): string {
    Stem(path) + "-" + DecimalString(i) + Ext(Base(path))
  }

  /** The i-th alternative, in the same directory as the path. */
  function Candidate(path: string, i: nat): (r: string)
    ensures EndsWith(r, CandidateName(path, i))
  {
    JoinPath(Dir(path), CandidateName(path, i))
  }

  /** Some path is available: the path itself or one of its 999 alternatives. */
  ghost predicate HasFree(fs: set<string>, path: string) {
    path !in fs || exists i :: 1 <= i <= MaxSuffix && Candidate(path, i) !in fs
  }

  /** unique is the path when that is free, and otherwise the alternative with
      the least suffix that is free, every smaller suffix being taken. */
  ghost predicate FirstFree(fs: set<string>, path: string, unique: string) {
    if path !in fs then unique == path
    else exists i :: 1 <= i <= MaxSuffix && unique == Candidate(path, i) && unique !in fs
                     && (forall j :: 1 <= j < i ==> Candidate(path, j) in fs)
  }

  /** ensureUniquePath: ok == false stands for the returned error. */
  method EnsureUniquePath(fs: set<string>, path: string) returns (unique: string, ok: bool)
    ensures ok <==> HasFree(fs, path)
    ensures ok ==> FirstFree(fs, path, unique) && unique !in fs
    ensures ok && path in fs ==> unique != path
    ensures !ok ==> unique == ""
  {
    if path !in fs {
      return path, true;
    }
    var i := 1;
    while i < MaxSuffix + 1
      invariant 1 <= i <= MaxSuffix + 1
      invariant forall j :: 1 <= j < i ==> Candidate(path, j) in fs
    {
      var candidate := Candidate(path, i);
      if candidate !in fs {
        return candidate, true;
      }
      forall j | 1 <= j < i + 1 ensures Candidate(path, j) in fs {
        if j == i {
          assert Candidate(path, j) == candidate;
        }
      }
      i := i + 1;
    }
    return "", false;
  }

  /** Two answers that both satisfy FirstFree are the same path. */
  lemma FirstFreeIsUnique(fs: set<string>, path: string, u1: string, u2: string)
    requires FirstFree(fs, path, u1) && FirstFree(fs, path, u2)
    ensures u1 == u2
  {
  }

  /** The name of an alternative is a single path element with the original extension. */
  lemma CandidateNameShape(path: string, i: nat)
    requires Base(path) != "/"
    ensures CandidateName(path, i) != [] && NoSlash(CandidateName(path, i))
    ensures Ext(CandidateName(path, i)) == Ext(Base(path))
  {
    var base := Base(path);
    var tail := "-" + DecimalString(i);
    DashDigits(i);
    InsertBeforeOwnExt(base, tail);
    Regroup(Stem(path), "-", DecimalString(i), Ext(base));
  }

  lemma DashDigits(i: nat)
    ensures NoDotNoSlash("-" + DecimalString(i))
  {
    var digits := DecimalString(i);
    forall k | 0 <= k < |"-" + digits| ensures ("-" + digits)[k] != '.' && ("-" + digits)[k] != '/' {
      if k > 0 { assert ("-" + digits)[k] == digits[k - 1]; }
    }
  }

  /** An alternative stays in the path's directory, keeps its extension, and
      its file name is the original name with "-i" inserted before the extension. */
  lemma CandidateShape(path: string, i: nat)
    requires Base(path) != "/"
    ensures Dir(Candidate(path, i)) == Dir(path)
    ensures Base(Candidate(path, i)) == Stem(path) + "-" + DecimalString(i) + Ext(Base(path))
    ensures Ext(Base(Candidate(path, i))) == Ext(Base(path))
  {
    CandidateNameShape(path, i);
    BaseOfJoin(Dir(path), CandidateName(path, i));
    JoinKeepsDir(path, CandidateName(path, i));
  }

  /** Different suffixes give different alternatives. */
  lemma CandidatesDistinct(path: string, i: nat, j: nat)
    requires Base(path) != "/" && i != j
    ensures Candidate(path, i) != Candidate(path, j)
  {
    CandidateNameShape(path, i);
    CandidateNameShape(path, j);
    BaseOfJoin(Dir(path), CandidateName(path, i));
    BaseOfJoin(Dir(path), CandidateName(path, j));
    assert DecimalString(i) != DecimalString(j);
    MiddleDiffers(Stem(path) + "-", DecimalString(i), DecimalString(j), Ext(Base(path)));
  }
}
