/**
  * `process-images.mjs`: each subfolder of the input directory is processed
  * in turn. A file whose mime extension is not `jpg`, `jpeg` or `png` is
  * skipped and stays in its folder. A file whose description step throws
  * is logged and gets no record (the `try`/`catch` inside the loop), but it
  * is removed from its folder all the same. Every other file is written to
  * the output directory under a name not yet present there and gets one
  * record appended to the catalog. Since each chosen name is on disk before
  * the next lookup, the names chosen in one run are pairwise distinct.
  */
module ProcessImages {
  import opened Wrappers
  import Seqs
  import opened Catalog
  import opened Naming

  /**
    * A file of a subfolder with what the foreign calls return for it: the
    * mime extension (`""` when the lookup fails), the creation timestamp and
    * the model's reply text (`None` when the call fails or has no content).
    */
  datatype FolderFile = FolderFile(name: string, mimeExt: string, created: int, reply: Option<string>)

  /** An entry of the input directory: only directories are processed. */
  datatype Subfolder = Subfolder(isDirectory: bool, files: seq<FolderFile>)

  const ImageExts: seq<string> := ["jpg", "jpeg", "png"]

  /**
    * The files of a folder that get a record, in folder order, each with
    * the description its reply parses to: the extension is `jpg`, `jpeg` or
    * `png` and the reply parses.
    */
  function Accepted(files: seq<FolderFile>): seq<(FolderFile, Description)>
    decreases |files|
  {
    if |files| == 0 then []
    else
      var rest := Accepted(files[..|files| - 1]);
      var f := files[|files| - 1];
      match ParseReply(f.reply)
      case Success(d) => if ResolvedExt(f.mimeExt) in ImageExts then rest + [(f, d)] else rest
      case Failure(_) => rest
  }

  lemma AcceptedPrefix(files: seq<FolderFile>, i: nat)
    requires i < |files|
    ensures ResolvedExt(files[i].mimeExt) in ImageExts && ParseReply(files[i].reply).Success? ==>
      Accepted(files[..i + 1]) == Accepted(files[..i]) + [(files[i], ParseReply(files[i].reply).value)]
    ensures ResolvedExt(files[i].mimeExt) !in ImageExts || ParseReply(files[i].reply).Failure? ==>
      Accepted(files[..i + 1]) == Accepted(files[..i])
  {
    assert files[..i + 1][..i] == files[..i];
  }

  /** The file passes the extension check and its reply parses. */
  predicate IsAccepted(f: FolderFile)
  {
    ResolvedExt(f.mimeExt) in ImageExts && ParseReply(f.reply).Success?
  }

  /**
    * `Accepted` keeps exactly the files that pass the extension check and
    * whose reply parses, in order.
    */
  lemma {:induction false} AcceptedFiles(files: seq<FolderFile>)
    ensures Firsts(Accepted(files)) == Seqs.Filter(files, IsAccepted)
    decreases |files|
  {
    if |files| > 0 {
      var n := |files| - 1;
      AcceptedFiles(files[..n]);
      Seqs.FilterLast(files, IsAccepted);
      var f, rest := files[n], Accepted(files[..n]);
      if IsAccepted(f) {
        var d := ParseReply(f.reply).value;
        assert Accepted(files) == rest + [(f, d)];
        FirstsSnoc(rest, (f, d));
      } else {
        assert Accepted(files) == rest;
      }
    } else {
      assert Accepted(files) == [] && Seqs.Filter(files, IsAccepted) == [];
    }
  }

  /** Each kept file is paired with the description its reply parses to. */
  lemma {:induction false} AcceptedDescription(files: seq<FolderFile>, k: nat)
    requires k < |Accepted(files)|
    ensures ParseReply(Accepted(files)[k].0.reply) == Success(Accepted(files)[k].1)
    decreases |files|
  {
    var n := |files| - 1;
    var before := Accepted(files[..n]);
    AcceptedPrefix(files, n);
    if k < |before| {
      assert Accepted(files)[k] == before[k];
      AcceptedDescription(files[..n], k);
    }
  }

  /** The files of file-description pairs. */
  function Firsts(ps: seq<(FolderFile, Description)>): (fs: seq<FolderFile>)
    ensures |fs| == |ps|
    ensures forall k :: 0 <= k < |ps| ==> fs[k] == ps[k].0
  {
    seq(|ps|, k requires 0 <= k < |ps| => ps[k].0)
  }

  lemma FirstsSnoc(ps: seq<(FolderFile, Description)>, p: (FolderFile, Description))
    ensures Firsts(ps + [p]) == Firsts(ps) + [p.0]
  {
  }

  /** The record `processImagesInFolder` pushes for `f` (no `url`). */
  function RecordFor(f: FolderFile, d: Description, filename: string): Wallpaper
  {
    Wallpaper(filename, d.season, d.style, SourceLabel(f.name), f.created, None, None, None)
  }

  /**
    * `w` is the record pushed for file `p.0`, described by `p.1`, while the
    * names in `onDisk` exist.
    */
  ghost predicate IsRecordFor(p: (FolderFile, Description), onDisk: set<string>, w: Wallpaper)
  {
    && w == RecordFor(p.0, p.1, w.filename)
    && IsSmallestFree(w.filename, p.1.name, ResolvedExt(p.0.mimeExt), onDisk)
  }

  /**
    * `added[i]` is the record of `accepted[i]`, named against what was on
    * disk at that point: the original names and those of the earlier records.
    */
  ghost predicate AreRecordsFor(accepted: seq<(FolderFile, Description)>, onDisk: set<string>, added: seq<Wallpaper>)
  {
    InTurn((p, taken, w) => IsRecordFor(p, taken, w), accepted, onDisk, added)
  }

  /**
    * `added[i]` is a record of `ps[i]` by `IsRecord`, chosen while the names
    * in `onDisk` and those of `added[..i]` exist. Stated for any `IsRecord`,
    * so that the lemmas below reason about the order and not about names.
    */
  ghost predicate InTurn<P>(IsRecord: (P, set<string>, Wallpaper) -> bool, ps: seq<P>, onDisk: set<string>, added: seq<Wallpaper>)
    decreases |ps|
  {
    && |added| == |ps|
    && (|ps| > 0 ==>
          var n := |ps| - 1;
          && InTurn(IsRecord, ps[..n], onDisk, added[..n])
          && IsRecord(ps[n], onDisk + FilenameSet(added[..n]), added[n]))
  }

  /** Two runs in a row, the second started on the disk the first one left, are one run. */
  lemma {:induction false} InTurnAppend<P>(IsRecord: (P, set<string>, Wallpaper) -> bool, a: seq<P>, b: seq<P>,
                                         onDisk: set<string>, x: seq<Wallpaper>, y: seq<Wallpaper>)
    requires InTurn(IsRecord, a, onDisk, x)
    requires InTurn(IsRecord, b, onDisk + FilenameSet(x), y)
    ensures InTurn(IsRecord, a + b, onDisk, x + y)
    decreases |b|
  {
    if |b| == 0 {
      assert a + b == a && x + y == x;
    } else {
      var n := |b| - 1;
      InTurnAppend(IsRecord, a, b[..n], onDisk, x, y[..n]);
      FilenameSetAppend(x, y[..n]);
      assert onDisk + FilenameSet(x + y[..n]) == onDisk + FilenameSet(x) + FilenameSet(y[..n]);
      assert (a + b)[..|a| + n] == a + b[..n] && (x + y)[..|x| + n] == x + y[..n];
    }
  }

  lemma {:induction false} RecordsPrefix(accepted: seq<(FolderFile, Description)>, onDisk: set<string>,
                                         added: seq<Wallpaper>, m: nat)
    requires AreRecordsFor(accepted, onDisk, added) && m <= |accepted|
    ensures AreRecordsFor(accepted[..m], onDisk, added[..m])
    decreases |accepted|
  {
    var n := |accepted| - 1;
    if m <= n {
      RecordsPrefix(accepted[..n], onDisk, added[..n], m);
      assert accepted[..n][..m] == accepted[..m] && added[..n][..m] == added[..m];
    } else {
      assert accepted[..m] == accepted && added[..m] == added;
    }
  }

  /** The recursive definition read index by index. */
  lemma RecordsAt(accepted: seq<(FolderFile, Description)>, onDisk: set<string>,
                  added: seq<Wallpaper>, i: nat)
    requires AreRecordsFor(accepted, onDisk, added) && i < |accepted|
    ensures IsRecordFor(accepted[i], onDisk + FilenameSet(added[..i]), added[i])
  {
    RecordsPrefix(accepted, onDisk, added, i + 1);
    var a, w := accepted[..i + 1], added[..i + 1];
    assert w[..i] == added[..i];
    assert IsRecordFor(a[i], onDisk + FilenameSet(w[..i]), w[i]);
  }

  /**
    * Each new name was free when it was chosen: not on disk and not chosen
    * before. `NamesFreshDistinct` states it pairwise.
    */
  predicate NamesFresh(onDisk: set<string>, added: seq<Wallpaper>)
    decreases |added|
  {
    |added| == 0 ||
    var n := |added| - 1;
    NamesFresh(onDisk, added[..n]) && added[n].filename !in onDisk + FilenameSet(added[..n])
  }

  /** The new names are pairwise distinct and none was already on disk. */
  lemma {:induction false} NamesFreshDistinct(onDisk: set<string>, added: seq<Wallpaper>)
    requires NamesFresh(onDisk, added)
    ensures forall i :: 0 <= i < |added| ==> added[i].filename !in onDisk
    ensures forall i, j :: 0 <= i < j < |added| ==> added[i].filename != added[j].filename
    decreases |added|
  {
    if |added| > 0 {
      var n := |added| - 1;
      NamesFreshDistinct(onDisk, added[..n]);
      FilenameSetMembers(added[..n]);
      assert forall i :: 0 <= i < n ==> added[..n][i] == added[i];
    }
  }

  /**
    * `processImagesInFolder(folderPath)` on the catalog `wallpapers` and the
    * names `onDisk` in the output directory: the new catalog and the new
    * contents of the output directory.
    */
  method ProcessFolder(wallpapers: seq<Wallpaper>, onDisk: set<string>, files: seq<FolderFile>)
    returns (catalog: seq<Wallpaper>, disk: set<string>)
    ensures |wallpapers| <= |catalog| && catalog[..|wallpapers|] == wallpapers
    ensures AreRecordsFor(Accepted(files), onDisk, catalog[|wallpapers|..])
    ensures NamesFresh(onDisk, catalog[|wallpapers|..])
    ensures disk == onDisk + FilenameSet(catalog[|wallpapers|..])
  {
    var added: seq<Wallpaper> := [];
    disk := onDisk;
    assert files[..0] == [];
    for i := 0 to |files|
      invariant AreRecordsFor(Accepted(files[..i]), onDisk, added)
      invariant NamesFresh(onDisk, added)
      invariant disk == onDisk + FilenameSet(added)
    {
      added, disk := ProcessFile(files, i, onDisk, added, disk);
    }
    assert files[..|files|] == files;
    catalog := wallpapers + added;
    assert catalog[..|wallpapers|] == wallpapers && catalog[|wallpapers|..] == added;
  }

  /**
    * One pass of the loop of `processImagesInFolder`, on `files[i]`: skipped
    * when its extension is not an image extension or its reply does not
    * parse, otherwise written under the first free name and recorded.
    */
  method ProcessFile(files: seq<FolderFile>, i: nat, onDisk: set<string>, added: seq<Wallpaper>, disk: set<string>)
    returns (added': seq<Wallpaper>, disk': set<string>)
    requires i < |files|
    requires AreRecordsFor(Accepted(files[..i]), onDisk, added)
    requires NamesFresh(onDisk, added)
    requires disk == onDisk + FilenameSet(added)
    ensures AreRecordsFor(Accepted(files[..i + 1]), onDisk, added')
    ensures NamesFresh(onDisk, added')
    ensures disk' == onDisk + FilenameSet(added')
  {
    added', disk' := added, disk;
    var file := files[i];
    AcceptedPrefix(files, i);
    var ext := ResolvedExt(file.mimeExt);
    if ext in ImageExts {
      var source := SourceLabel(file.name);
      var description := Describe(file.reply);
      if description.Success? {
        var d := description.value;
        var uniqueFilename := UniqueFilename(d.name, ext, disk);
        var w := RecordFor(file, d, uniqueFilename);
        AppendRecord(Accepted(files[..i]), file, d, uniqueFilename, onDisk, added);
        added', disk' := added + [w], disk + {uniqueFilename};
      }
    }
  }

  /** One accepted file extends the records, under a name that was free. */
  lemma AppendRecord(accepted: seq<(FolderFile, Description)>, f: FolderFile, d: Description, name: string,
                     onDisk: set<string>, added: seq<Wallpaper>)
    requires AreRecordsFor(accepted, onDisk, added) && NamesFresh(onDisk, added)
    requires IsSmallestFree(name, d.name, ResolvedExt(f.mimeExt), onDisk + FilenameSet(added))
    requires name !in onDisk + FilenameSet(added)
    ensures AreRecordsFor(accepted + [(f, d)], onDisk, added + [RecordFor(f, d, name)])
    ensures NamesFresh(onDisk, added + [RecordFor(f, d, name)])
    ensures onDisk + FilenameSet(added + [RecordFor(f, d, name)]) == onDisk + FilenameSet(added) + {name}
  {
    var added' := added + [RecordFor(f, d, name)];
    assert (accepted + [(f, d)])[..|accepted|] == accepted;
    assert added'[..|added|] == added;
  }

  lemma {:induction false} NamesFreshAppend(onDisk: set<string>, first: seq<Wallpaper>, second: seq<Wallpaper>)
    requires NamesFresh(onDisk, first)
    requires NamesFresh(onDisk + FilenameSet(first), second)
    ensures NamesFresh(onDisk, first + second)
    decreases |second|
  {
    if |second| == 0 {
      assert first + second == first;
    } else {
      var m := |second| - 1;
      NamesFreshAppend(onDisk, first, second[..m]);
      FilenameSetAppend(first, second[..m]);
      assert (first + second)[..|first| + m] == first + second[..m];
    }
  }

  /**
    * The files that get a record in a run of `main()`, folder after folder:
    * the accepted files of each subfolder that is a directory.
    */
  function DirectoriesAccepted(subfolders: seq<Subfolder>): seq<(FolderFile, Description)>
    decreases |subfolders|
  {
    if |subfolders| == 0 then []
    else
      var n := |subfolders| - 1;
      DirectoriesAccepted(subfolders[..n]) +
        (if subfolders[n].isDirectory then Accepted(subfolders[n].files) else [])
  }

  /**
    * The records of two folders in a row are the records of their files in
    * a row, the second folder's named against the disk the first one left.
    */
  lemma RecordsAppend(a: seq<(FolderFile, Description)>, b: seq<(FolderFile, Description)>,
                      onDisk: set<string>, x: seq<Wallpaper>, y: seq<Wallpaper>)
    requires AreRecordsFor(a, onDisk, x)
    requires AreRecordsFor(b, onDisk + FilenameSet(x), y)
    ensures AreRecordsFor(a + b, onDisk, x + y)
  {
    InTurnAppend((p, taken, w) => IsRecordFor(p, taken, w), a, b, onDisk, x, y);
  }

  /**
    * One folder more: the records after folder `k` are those before it,
    * followed, when it is a directory, by those of its accepted files.
    */
  lemma FolderRecords(subfolders: seq<Subfolder>, k: nat, onDisk: set<string>, first: seq<Wallpaper>, second: seq<Wallpaper>)
    requires k < |subfolders|
    requires AreRecordsFor(DirectoriesAccepted(subfolders[..k]), onDisk, first)
    requires subfolders[k].isDirectory ==> AreRecordsFor(Accepted(subfolders[k].files), onDisk + FilenameSet(first), second)
    requires !subfolders[k].isDirectory ==> second == []
    ensures AreRecordsFor(DirectoriesAccepted(subfolders[..k + 1]), onDisk, first + second)
  {
    assert subfolders[..k + 1][..k] == subfolders[..k];
    if subfolders[k].isDirectory {
      RecordsAppend(DirectoriesAccepted(subfolders[..k]), Accepted(subfolders[k].files), onDisk, first, second);
    } else {
      assert DirectoriesAccepted(subfolders[..k + 1]) == DirectoriesAccepted(subfolders[..k]);
      assert first + second == first;
    }
  }

  /** One more record, named against the disk the earlier ones left. */
  lemma RecordsSnoc(accepted: seq<(FolderFile, Description)>, p: (FolderFile, Description),
                    onDisk: set<string>, added: seq<Wallpaper>, w: Wallpaper)
    requires AreRecordsFor(accepted, onDisk, added)
    requires IsRecordFor(p, onDisk + FilenameSet(added), w)
    ensures AreRecordsFor(accepted + [p], onDisk, added + [w])
  {
    assert (accepted + [p])[..|accepted|] == accepted;
    assert (added + [w])[..|added|] == added;
  }

  /**
    * `main()`: every subfolder that is a directory is processed in turn,
    * each one reading the catalog the previous one wrote. The run appends,
    * in order, one record for each file accepted in a directory, each named
    * against the names on disk when it was chosen; all names chosen in the
    * run are pairwise distinct and were not on disk before.
    */
  method ProcessSubfolders(wallpapers: seq<Wallpaper>, onDisk: set<string>, subfolders: seq<Subfolder>)
    returns (catalog: seq<Wallpaper>, disk: set<string>)
    ensures |wallpapers| <= |catalog| && catalog[..|wallpapers|] == wallpapers
    ensures AreRecordsFor(DirectoriesAccepted(subfolders), onDisk, catalog[|wallpapers|..])
    ensures NamesFresh(onDisk, catalog[|wallpapers|..])
    ensures disk == onDisk + FilenameSet(catalog[|wallpapers|..])
  {
    catalog, disk := wallpapers, onDisk;
    assert subfolders[..0] == [] && catalog[|wallpapers|..] == [];
    for k := 0 to |subfolders|
      invariant |wallpapers| <= |catalog| && catalog[..|wallpapers|] == wallpapers
      invariant AreRecordsFor(DirectoriesAccepted(subfolders[..k]), onDisk, catalog[|wallpapers|..])
      invariant NamesFresh(onDisk, catalog[|wallpapers|..])
      invariant disk == onDisk + FilenameSet(catalog[|wallpapers|..])
    {
      assert subfolders[..k + 1][..k] == subfolders[..k];
      if subfolders[k].isDirectory {
        ghost var before := catalog;
        catalog, disk := ProcessFolder(catalog, disk, subfolders[k].files);
        ghost var first, second := before[|wallpapers|..], catalog[|before|..];
        Seqs.ExtendTwice(wallpapers, before, catalog);
        NamesFreshAppend(onDisk, first, second);
        FilenameSetAppend(first, second);
        FolderRecords(subfolders, k, onDisk, first, second);
      } else {
        FolderRecords(subfolders, k, onDisk, catalog[|wallpapers|..], []);
        assert catalog[|wallpapers|..] + [] == catalog[|wallpapers|..];
      }
    }
    assert subfolders[..|subfolders|] == subfolders;
  }
}
