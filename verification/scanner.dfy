/** Scanning the input tree: every entry the directory walk reports is
    classified by its lower-cased extension against a fixed allow-set, "jpeg"
    is folded into "jpg", and the accepted files are listed and counted per
    extension. Also the normalisation of the requested format and the
    selection of the files to convert. */
module Scanner {
  import opened Text
  import opened Paths
  import opened Records

  /** What d.Info() reports for a file. */
  datatype EntryInfo = EntryInfo(modDate: string, size: nat)

  /** One call of the walk callback: an entry the walk could not read, a
      directory, or a file whose Info() may have failed (None). */
  datatype WalkEntry =
    | WalkError(path: string)
    | Directory(path: string)
    | File(path: string, info: Option<EntryInfo>)

  const AllowedExts: set<string> := {"jpg", "jpeg", "png", "bmp", "tiff", "webp", "heic"}

  /** The values an extension can have once "jpeg" has been folded. */
  const NormalizedExts: set<string> := {"jpg", "png", "bmp", "tiff", "webp", "heic"}

  /** The extension as the scan reads it: filepath.Ext without its dot, lower-cased. */
  function RawExt(path: string): string {
    Lower(TrimPrefix(Ext(path), "."))
  }

  function FoldJpeg(ext: string): string {
    if ext == "jpeg" then "jpg" else ext
  }

  /** The normalised extension of an accepted path, or None. */
  function ClassifyExt(path: string): (r: Option<string>)
    ensures r.Some? <==> RawExt(path) in AllowedExts
    ensures r.Some? ==> r.value in NormalizedExts && r.value == FoldJpeg(RawExt(path))
  {
    var ext := RawExt(path);
    if ext == "" then None
    else if ext !in AllowedExts then None
    else Some(FoldJpeg(ext))
  }

  /** The FileInfo one walk entry contributes, if any. */
  function Classify(e: WalkEntry): (r: Option<FileInfo>)
    ensures r.Some? <==> e.File? && e.info.Some? && RawExt(e.path) in AllowedExts
    ensures r.Some? ==> r.value.path == e.path && r.value.size == e.info.value.size
                        && r.value.modDate == e.info.value.modDate
                        && r.value.ext in NormalizedExts && r.value.ext != "jpeg"
                        && r.value.ext == FoldJpeg(RawExt(e.path))
  {
    match e
    case WalkError(_) => None
    case Directory(_) => None
    case File(path, info) =>
      match ClassifyExt(path)
      case None => None
      case Some(ext) =>
        if info.None? then None else Some(FileInfo(path, info.value.modDate, ext, info.value.size))
  }

  function OptionToSeq<T>(o: Option<T>): seq<T> {
    if o.Some? then [o.value] else []
  }

  /** The files the scan lists, in walk order. */
  function Scanned(entries: seq<WalkEntry>): seq<FileInfo> {
    if entries == [] then []
    else Scanned(entries[..|entries| - 1]) + OptionToSeq(Classify(entries[|entries| - 1]))
  }

  /** The extension of every listed file, in order. */
  function ExtsOf(files: seq<FileInfo>): (exts: seq<string>)
    ensures |exts| == |files|
  {
    seq(|files|, k requires 0 <= k < |files| => files[k].ext)
  }

  lemma ExtsOfAppend(files: seq<FileInfo>, f: FileInfo)
    ensures ExtsOf(files + [f]) == ExtsOf(files) + [f.ext]
  {
  }

  /** Every listed file carries one of the six normalised extensions. */
  lemma {:induction false} ScannedNormalized(entries: seq<WalkEntry>)
    ensures forall f :: f in Scanned(entries) ==> f.ext in NormalizedExts && f.ext != "jpeg"
  {
    if entries != [] {
      ScannedNormalized(entries[..|entries| - 1]);
    }
  }

  /** A file is listed only if some entry classifies to it. */
  lemma {:induction false} ScannedSound(entries: seq<WalkEntry>)
    ensures forall f :: f in Scanned(entries) ==> exists e :: e in entries && Classify(e) == Some(f)
  {
    if entries != [] {
      var init := entries[..|entries| - 1];
      ScannedSound(init);
      forall f | f in Scanned(entries)
        ensures exists e :: e in entries && Classify(e) == Some(f)
      {
        if f in Scanned(init) {
          var e :| e in init && Classify(e) == Some(f);
          assert e in entries;
        } else {
          assert Classify(entries[|entries| - 1]) == Some(f);
        }
      }
    }
  }

  /** Every entry that classifies is listed. */
  lemma {:induction false} ScannedComplete(entries: seq<WalkEntry>)
    ensures forall e :: e in entries && Classify(e).Some? ==> Classify(e).value in Scanned(entries)
  {
    if entries != [] {
      var init := entries[..|entries| - 1];
      ScannedComplete(init);
      assert entries == init + [entries[|entries| - 1]];
    }
  }

  /** counts holds, for each extension present in files, how many files carry it. */
  ghost predicate CountsAgree(counts: map<string, nat>, files: seq<FileInfo>) {
    && (forall ext :: ext in counts <==> ext in multiset(ExtsOf(files)))
    && (forall ext :: ext in counts ==> counts[ext] == multiset(ExtsOf(files))[ext])
  }

  lemma CountsAgreeAppend(counts: map<string, nat>, files: seq<FileInfo>, fi: FileInfo)
    requires CountsAgree(counts, files)
    ensures CountsAgree(counts[fi.ext := if fi.ext in counts then counts[fi.ext] + 1 else 1], files + [fi])
  {
    ExtsOfAppend(files, fi);
    assert multiset(ExtsOf(files + [fi])) == multiset(ExtsOf(files)) + multiset{fi.ext};
  }

  lemma ScannedStep(entries: seq<WalkEntry>, i: nat)
    requires i < |entries|
    ensures Scanned(entries[..i + 1]) == Scanned(entries[..i]) + OptionToSeq(Classify(entries[i]))
  {
    assert entries[..i + 1][..i] == entries[..i];
  }

  lemma CountedExtsNormalized(counts: map<string, nat>, entries: seq<WalkEntry>)
    requires CountsAgree(counts, Scanned(entries))
    ensures counts.Keys <= NormalizedExts
  {
    var out := Scanned(entries);
    ScannedNormalized(entries);
    forall ext | ext in counts ensures ext in NormalizedExts {
      var k :| 0 <= k < |out| && ExtsOf(out)[k] == ext;
      assert out[k] in out;
    }
  }

  /** The walk callback for one entry: the FileInfo it appends, if any. */
  method VisitEntry(entry: WalkEntry) returns (r: Option<FileInfo>)
    ensures r == Classify(entry)
  {
    if entry.WalkError? || entry.Directory? {
      return None;
    }
    var ext := Lower(TrimPrefix(Ext(entry.path), "."));
    assert ext == RawExt(entry.path);
    if ext == "" || ext !in AllowedExts {
      return None;
    }
    if ext == "jpeg" {
      ext := "jpg";
    }
    if entry.info.None? {
      return None;
    }
    return Some(FileInfo(entry.path, entry.info.value.modDate, ext, entry.info.value.size));
  }

  /** scanDirectory's walk callback, run over the entries in walk order. */
  method ScanDirectory(entries: seq<WalkEntry>) returns (out: seq<FileInfo>, counts: map<string, nat>)
    ensures out == Scanned(entries)
    ensures forall ext :: ext in counts <==> ext in multiset(ExtsOf(out))
    ensures forall ext :: ext in counts ==> counts[ext] == multiset(ExtsOf(out))[ext]
    ensures counts.Keys <= NormalizedExts && "jpeg" !in counts
  {
    out := [];
    counts := map[];
    for i := 0 to |entries|
      invariant out == Scanned(entries[..i])
      invariant CountsAgree(counts, out)
    {
      ScannedStep(entries, i);
      var r := VisitEntry(entries[i]);
      if r.Some? {
        var fi := r.value;
        CountsAgreeAppend(counts, out, fi);
        out := out + [fi];
        counts := counts[fi.ext := if fi.ext in counts then counts[fi.ext] + 1 else 1];
      }
    }
    assert entries[..|entries|] == entries;
    CountedExtsNormalized(counts, entries);
  }

  /** The -format value as main normalises it: one leading '.' dropped,
      lower-cased, "jpeg" folded into "jpg"; "" stays "". */
  function NormalizeFormat(format: string): (r: string)
    ensures format == "" ==> r == ""
    ensures r != "jpeg"
    ensures forall i :: 0 <= i < |r| ==> !('A' <= r[i] <= 'Z')
  {
    if format == "" then format
    else
      var f := Lower(TrimPrefix(format, "."));
      if f == "jpeg" then "jpg" else f
  }

  /** Asking for a format x (with or without a leading '.', in any case)
      selects exactly the files whose extension the scan stores under the
      same normalised name, and nothing when that name is not an accepted
      extension: the requested format is normalised the way the scan
      normalises extensions. */
  lemma FormatMatchesScan(stem: string, x: string)
    requires NoDotNoSlash(x)
    ensures ClassifyExt(stem + "." + x) ==
              if NormalizeFormat(x) in NormalizedExts then Some(NormalizeFormat(x)) else None
    ensures NormalizeFormat("." + x) == NormalizeFormat(x)
  {
    RawExtOfSplit(stem, x);
    NormalizeBare(x);
    FoldJpegAllowed(Lower(x));
  }

  lemma RawExtOfSplit(stem: string, x: string)
    requires NoDotNoSlash(x)
    ensures RawExt(stem + "." + x) == Lower(x)
  {
    ExtOfSplit(stem, x);
    assert TrimPrefix("." + x, ".") == x;
  }

  /** A format without a '.' is normalised as the scan normalises an
      extension, with or without a leading '.'. */
  lemma NormalizeBare(x: string)
    requires NoDotNoSlash(x)
    ensures NormalizeFormat(x) == FoldJpeg(Lower(x))
    ensures NormalizeFormat("." + x) == FoldJpeg(Lower(x))
  {
    assert TrimPrefix("." + x, ".") == x;
    if x != "" {
      assert x[0] != '.';
      assert !("." <= x);
    } else {
      assert Lower(x) == "";
    }
  }

  /** Only a format that is a name without '.' and '/', or such a name after
      exactly one '.', can select a file: the normalisation drops a single
      leading '.', so "..jpg" keeps a '.' and matches no scanned extension. */
  lemma OnlyBareFormatsMatch(f: string)
    requires NormalizeFormat(f) in NormalizedExts
    ensures exists x :: NoDotNoSlash(x) && (f == x || f == "." + x)
  {
    var t := TrimPrefix(f, ".");
    var l := Lower(t);
    assert NormalizeFormat(f) == FoldJpeg(l);
    FoldJpegAllowed(l);
    AllowedNoDot(l);
    forall i | 0 <= i < |t| ensures t[i] != '.' && t[i] != '/' {
      assert l[i] != '.' && l[i] != '/';
    }
    assert NoDotNoSlash(t);
    if "." <= f {
      assert f == "." + t;
    } else {
      assert f == t;
    }
    assert f == t || f == "." + t;
  }

  lemma AllowedNoDot(e: string)
    requires e in AllowedExts
    ensures NoDotNoSlash(e)
  {
  }

  /** Folding "jpeg" turns the accepted extensions into the normalised ones
      and nothing else into one. */
  lemma FoldJpegAllowed(e: string)
    ensures FoldJpeg(e) in NormalizedExts <==> e in AllowedExts
  {
  }

  /** The files of one extension, in the order given. */
  function FilterByExt(files: seq<FileInfo>, ext: string): seq<FileInfo> {
    if files == [] then []
    else
      var last := files[|files| - 1];
      FilterByExt(files[..|files| - 1], ext) + (if last.ext == ext then [last] else [])
  }

  /** The toConvert loop of main: keep the files whose Ext equals the format. */
  method BuildJobList(files: seq<FileInfo>, format: string) returns (toConvert: seq<FileInfo>)
    ensures toConvert == FilterByExt(files, format)
  {
    toConvert := [];
    for i := 0 to |files|
      invariant toConvert == FilterByExt(files[..i], format)
    {
      assert files[..i + 1][..i] == files[..i];
      if files[i].ext == format {
        toConvert := toConvert + [files[i]];
      }
    }
    assert files[..|files|] == files;
  }

  /** The selection holds exactly the files of that extension. */
  lemma {:induction false} FilterByExtMembers(files: seq<FileInfo>, ext: string)
    ensures forall f :: f in FilterByExt(files, ext) <==> f in files && f.ext == ext
  {
    if files != [] {
      FilterByExtMembers(files[..|files| - 1], ext);
      assert files == files[..|files| - 1] + [files[|files| - 1]];
    }
  }

  /** The selection has as many files as the scan counted for that extension. */
  lemma {:induction false} FilterByExtCount(files: seq<FileInfo>, ext: string)
    ensures |FilterByExt(files, ext)| == multiset(ExtsOf(files))[ext]
  {
    if files != [] {
      var init := files[..|files| - 1];
      FilterByExtCount(init, ext);
      ExtsOfAppend(init, files[|files| - 1]);
      assert files == init + [files[|files| - 1]];
    }
  }

  /** Selecting the concatenation of two file lists selects from each in turn:
      the selection keeps the scan order. */
  lemma {:induction false} FilterByExtAppend(a: seq<FileInfo>, b: seq<FileInfo>, ext: string)
    ensures FilterByExt(a + b, ext) == FilterByExt(a, ext) + FilterByExt(b, ext)
    decreases |b|
  {
    if b == [] {
      assert a + b == a;
    } else {
      var b' := b[..|b| - 1];
      assert (a + b)[..|a + b| - 1] == a + b';
      FilterByExtAppend(a, b', ext);
    }
  }

  /** What main does after the scan, before any job runs: stop when no
      format was asked for, fail when the scan counted no file of that
      format, and go on otherwise. */
  datatype Gate = NoFormat | NoFilesOfFormat | Proceed

  function FormatGate(counts: map<string, nat>, format: string): (g: Gate)
    ensures g == NoFormat <==> format == ""
    ensures g == Proceed <==> format != "" && format in counts && counts[format] > 0
  {
    if format == "" then NoFormat
    else if format !in counts || counts[format] == 0 then NoFilesOfFormat
    else Proceed
  }

  /** With the counts the scan reports, a run that passes the gate has as
      many jobs as were counted for the format, and at least one; a format
      the scan did not count would have selected no job. */
  lemma GateMatchesJobs(files: seq<FileInfo>, counts: map<string, nat>, format: string)
    requires forall ext :: ext in counts <==> ext in multiset(ExtsOf(files))
    requires forall ext :: ext in counts ==> counts[ext] == multiset(ExtsOf(files))[ext]
    ensures FormatGate(counts, format) == Proceed ==> |FilterByExt(files, format)| == counts[format] > 0
    ensures FormatGate(counts, format) == NoFilesOfFormat ==> FilterByExt(files, format) == []
  {
    FilterByExtCount(files, format);
  }
}
