/**
  * The wallpaper catalog (`data/wallpapers.json`): an ordered list of
  * records. Fields a script never writes are `None`; `created` is the
  * timestamp in milliseconds that the ISO date string stands for.
  */
module Catalog {
  import opened Wrappers

  datatype Wallpaper = Wallpaper(
    filename: string,
    season: string,
    style: string,
    source: string,
    created: int,
    url: Option<string>,
    thumbUrl: Option<string>,
    tags: Option<seq<string>>)

  /**
    * The filenames in use in a catalog (`processedFilenames.includes(name)`).
    * Defined record by record; `FilenameSetMembers` states it as a set.
    */
  function FilenameSet(ws: seq<Wallpaper>): set<string>
    decreases |ws|
  {
    if |ws| == 0 then {} else FilenameSet(ws[..|ws| - 1]) + {ws[|ws| - 1].filename}
  }

  /** A name is in use exactly when some record carries it. */
  lemma {:induction false} FilenameSetMembers(ws: seq<Wallpaper>)
    ensures forall i :: 0 <= i < |ws| ==> ws[i].filename in FilenameSet(ws)
    ensures forall n :: n in FilenameSet(ws) ==> exists i :: 0 <= i < |ws| && ws[i].filename == n
    decreases |ws|
  {
    if |ws| > 0 {
      var m := |ws| - 1;
      FilenameSetMembers(ws[..m]);
      assert forall i :: 0 <= i < m ==> ws[..m][i] == ws[i];
    }
  }

  lemma FilenameSetSnoc(ws: seq<Wallpaper>, w: Wallpaper)
    ensures FilenameSet(ws + [w]) == FilenameSet(ws) + {w.filename}
  {
    assert (ws + [w])[..|ws|] == ws;
  }

  lemma {:induction false} FilenameSetAppend(a: seq<Wallpaper>, b: seq<Wallpaper>)
    ensures FilenameSet(a + b) == FilenameSet(a) + FilenameSet(b)
    decreases |b|
  {
    if |b| == 0 {
      assert a + b == a;
    } else {
      var m := |b| - 1;
      FilenameSetAppend(a, b[..m]);
      assert a + b == (a + b[..m]) + [b[m]];
      FilenameSetSnoc(a + b[..m], b[m]);
    }
  }
}
