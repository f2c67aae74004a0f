/**
  * `scripts/process-all.mjs`: every regular `.jpg`/`.jpeg`/`.png` file of
  * the input directory is described by the captioning model, uploaded and
  * appended to the catalog. Filenames are made unique against the
  * filenames the catalog held when the run started; that list is never
  * extended inside the loop. A reply that cannot be parsed throws out of
  * `run`, which is then caught at top level: the catalog file is not
  * rewritten.
  */
module ProcessAll {
  import opened Wrappers
  import opened Text
  import Seqs
  import opened Catalog
  import opened Naming

  /**
    * One entry of the input directory together with what the foreign calls
    * return for it: `statSync(...).isFile()`, the mime extension (`""` when
    * the lookup fails), the creation timestamp, the model's reply text
    * (`None` when there is none) and the uploaded blob's URL.
    */
  datatype InputFile = InputFile(
    name: string, isFile: bool, mimeExt: string, created: int,
    reply: Option<string>, blobUrl: string)

  /** Index of the last `c` in `s`. */
  function LastIndexOf(s: string, c: char): (r: Option<nat>)
    ensures r.None? ==> c !in s
    ensures r.Some? ==> r.value < |s| && s[r.value] == c && c !in s[r.value + 1..]
  {
    if |s| == 0 then None
    else if s[|s| - 1] == c then Some(|s| - 1)
    else
      var r := LastIndexOf(s[..|s| - 1], c);
      assert r.Some? ==> s[r.value + 1..] == s[..|s| - 1][r.value + 1..] + [s[|s| - 1]];
      r
  }

  /**
    * `path.extname(file)` for a bare file name: from the last dot to the
    * end, or `""` when there is no dot, the only dot leads the name, or the
    * name is `..`.
    */
  function ExtName(file: string): (ext: string)
  {
    match LastIndexOf(file, '.')
    case None => ""
    case Some(d) => if d == 0 || file == ".." then "" else file[d..]
  }

  const ImageExtensions: seq<string> := [".jpg", ".jpeg", ".png"]

  /** The filter of `run`: a regular file whose lower-cased extension is an image extension. */
  predicate IsInputImage(f: InputFile)
  {
    f.isFile && Lower(ExtName(f.name)) in ImageExtensions
  }

  /** The files `run` ingests, in directory order. */
  function InputFiles(entries: seq<InputFile>): seq<InputFile>
  {
    Seqs.Filter(entries, IsInputImage)
  }

  /** `name` ends, ignoring case, with `ext`, and something comes before it. */
  predicate EndsWithExtension(name: string, ext: string)
  {
    |ext| < |name| && Lower(name[|name| - |ext|..]) == ext
  }

  /**
    * A file is ingested exactly when it is a regular file whose name ends,
    * in any case, in `.jpg`, `.jpeg` or `.png` after at least one other
    * character: `.png` alone is a dot-file without an extension.
    */
  lemma InputImageByName(f: InputFile)
    ensures IsInputImage(f) <==>
      f.isFile && exists ext :: ext in ImageExtensions && EndsWithExtension(f.name, ext)
  {
    if IsInputImage(f) {
      assert EndsWithExtension(f.name, Lower(ExtName(f.name)));
    }
    forall ext | ext in ImageExtensions && EndsWithExtension(f.name, ext)
      ensures Lower(ExtName(f.name)) == ext
    {
      ExtNameOfImageName(f.name, ext);
    }
  }

  /** A name ending in an image extension has that extension, in its own case. */
  lemma ExtNameOfImageName(n: string, ext: string)
    requires ext in ImageExtensions && EndsWithExtension(n, ext)
    ensures Lower(ExtName(n)) == ext
  {
    var k := |n| - |ext|;
    assert n[k] == '.' by {
      assert Lower(n[k..])[0] == '.';
    }
    assert '.' !in n[k + 1..] by {
      forall i | k + 1 <= i < |n|
        ensures n[i] != '.'
      {
        assert LowerChar(n[i]) == ext[i - k];
      }
    }
    assert LastIndexOf(n, '.').value == k;
  }

  /** The catalog record `run` pushes for `f`. */
  function RecordFor(f: InputFile, d: Description, filename: string): Wallpaper
  {
    Wallpaper(filename, d.season, d.style, SourceLabel(f.name), f.created,
              Some(f.blobUrl), None, None)
  }

  /**
    * `w` is the record `run` appends for `f` when the names in `taken` are
    * in use: the reply parses, and the filename is the first free name
    * built from the described name and the file's extension.
    */
  ghost predicate IsRecordFor(f: InputFile, taken: set<string>, w: Wallpaper)
  {
    && ParseReply(f.reply).Success?
    && var d := ParseReply(f.reply).value;
    && w == RecordFor(f, d, w.filename)
    && IsSmallestFree(w.filename, d.name, ResolvedExt(f.mimeExt), taken)
  }

  lemma RecordForIsRecord(f: InputFile, d: Description, filename: string, taken: set<string>)
    requires ParseReply(f.reply) == Success(d)
    requires IsSmallestFree(filename, d.name, ResolvedExt(f.mimeExt), taken)
    ensures IsRecordFor(f, taken, RecordFor(f, d, filename))
  {
  }

  /** `added[i]` is the record appended for `files[i]`, for every `i`. */
  ghost predicate AreRecordsFor(files: seq<InputFile>, taken: set<string>, added: seq<Wallpaper>)
  {
    |added| == |files| && forall i :: 0 <= i < |files| ==> IsRecordFor(files[i], taken, added[i])
  }

  /**
    * `run()`: filters the input directory, then ingests the files in order.
    * The result is the new catalog, or the position among the ingested files
    * of the file whose reply made the run throw.
    */
  method Run(existing: seq<Wallpaper>, entries: seq<InputFile>) returns (r: Result<seq<Wallpaper>, nat>)
    ensures r.Success? <==>
      forall i :: 0 <= i < |InputFiles(entries)| ==> ParseReply(InputFiles(entries)[i].reply).Success?
    ensures r.Failure? ==>
      && r.error < |InputFiles(entries)|
      && ParseReply(InputFiles(entries)[r.error].reply).Failure?
    ensures r.Success? ==>
      && |existing| <= |r.value|
      && r.value[..|existing|] == existing
      && AreRecordsFor(InputFiles(entries), FilenameSet(existing), r.value[|existing|..])
  {
    var files := InputFiles(entries);
    r := IngestFiles(existing, files);
  }

  /**
    * The loop of `run`: existing records are kept and one record per file
    * is appended, in order, each named against the filenames of `existing`
    * only. The first reply that does not parse stops the run.
    */
  method IngestFiles(existing: seq<Wallpaper>, files: seq<InputFile>) returns (r: Result<seq<Wallpaper>, nat>)
    ensures r.Success? <==> forall i :: 0 <= i < |files| ==> ParseReply(files[i].reply).Success?
    ensures r.Failure? ==>
      && r.error < |files|
      && ParseReply(files[r.error].reply).Failure?
      && forall i :: 0 <= i < r.error ==> ParseReply(files[i].reply).Success?
    ensures r.Success? ==>
      && |existing| <= |r.value|
      && r.value[..|existing|] == existing
      && AreRecordsFor(files, FilenameSet(existing), r.value[|existing|..])
  {
    var processed := FilenameSet(existing);
    var added: seq<Wallpaper> := [];
    var i := 0;
    while i < |files|
      invariant i <= |files| && |added| == i
      invariant forall j :: 0 <= j < i ==> IsRecordFor(files[j], processed, added[j])
    {
      var description := Describe(files[i].reply);
      if description.Failure? {
        break;
      }
      added := IngestFile(files, i, processed, added, description.value);
      i := i + 1;
    }
    if i < |files| {
      r := Failure(i);
    } else {
      r := Success(existing + added);
      assert r.value[..|existing|] == existing && r.value[|existing|..] == added;
    }
  }

  /** One turn of the loop: the record for `files[i]`, whose reply parsed to `d`, is appended. */
  method IngestFile(files: seq<InputFile>, i: nat, processed: set<string>, added: seq<Wallpaper>, d: Description)
    returns (added': seq<Wallpaper>)
    requires i < |files| && |added| == i
    requires ParseReply(files[i].reply) == Success(d)
    requires forall j :: 0 <= j < i ==> IsRecordFor(files[j], processed, added[j])
    ensures |added'| == i + 1
    ensures forall j :: 0 <= j <= i ==> IsRecordFor(files[j], processed, added'[j])
  {
    var file := files[i];
    var filename := UniqueFilename(d.name, ResolvedExt(file.mimeExt), processed);
    added' := added + [RecordFor(file, d, filename)];
    forall j | 0 <= j <= i
      ensures IsRecordFor(files[j], processed, added'[j])
    {
      if j < i {
        assert added'[j] == added[j];
      } else {
        RecordForIsRecord(file, d, filename, processed);
      }
    }
  }

  /**
    * Names are unique only against the catalog loaded at the start: two
    * files of one run with the same reply and extension get the same name.
    */
  lemma SameReplySameName(f: InputFile, g: InputFile, taken: set<string>, v: Wallpaper, w: Wallpaper)
    requires IsRecordFor(f, taken, v) && IsRecordFor(g, taken, w)
    requires f.reply == g.reply && ResolvedExt(f.mimeExt) == ResolvedExt(g.mimeExt)
    ensures v.filename == w.filename
  {
    var d := ParseReply(f.reply).value;
    SmallestFreeIsUnique(v.filename, w.filename, d.name, ResolvedExt(f.mimeExt), taken);
  }
}
