/**
  * `scripts/updateThumbUrls.mjs`: every catalog entry gets the URL of its
  * thumbnail when the thumbnail file exists, and `null` otherwise; the
  * entries left without one are listed as missing. Which thumbnails exist
  * is given as a set of filenames.
  */
module UpdateThumbUrls {
  import opened Wrappers
  import Seqs
  import opened Catalog

  const ThumbsPath := "/wallpapers/thumbs/"

  /** The object spread `{ ...entry, thumbUrl: ... }` for one entry. */
  function WithThumb(entry: Wallpaper, thumbs: set<string>): (r: Wallpaper)
    ensures r.(thumbUrl := entry.thumbUrl) == entry
    ensures r.thumbUrl.Some? <==> entry.filename in thumbs
    ensures r.thumbUrl.Some? ==> r.thumbUrl.value == ThumbsPath + entry.filename
  {
    entry.(thumbUrl := if entry.filename in thumbs then Some(ThumbsPath + entry.filename) else None)
  }

  /** `wallpapers.map(...)`: the catalog with every `thumbUrl` rewritten. */
  function UpdateThumbUrls(ws: seq<Wallpaper>, thumbs: set<string>): (updated: seq<Wallpaper>)
    ensures |updated| == |ws|
    ensures forall i :: 0 <= i < |ws| ==> updated[i] == WithThumb(ws[i], thumbs)
  {
    seq(|ws|, i requires 0 <= i < |ws| => WithThumb(ws[i], thumbs))
  }

  /**
    * The rewrite depends on nothing but the filenames and the thumbnails on
    * disk: running it a second time changes nothing.
    */
  lemma UpdateIdempotent(ws: seq<Wallpaper>, thumbs: set<string>)
    ensures UpdateThumbUrls(UpdateThumbUrls(ws, thumbs), thumbs) == UpdateThumbUrls(ws, thumbs)
  {
    var once := UpdateThumbUrls(ws, thumbs);
    var twice := UpdateThumbUrls(once, thumbs);
    forall i | 0 <= i < |ws|
      ensures twice[i] == once[i]
    {
      assert once[i].filename == ws[i].filename;
    }
  }

  /** `!w.thumbUrl`: no URL, or an empty one. */
  predicate LacksThumb(w: Wallpaper)
  {
    w.thumbUrl.None? || w.thumbUrl.value == ""
  }

  /** `updated.filter(w => !w.thumbUrl)`. */
  function MissingThumbs(updated: seq<Wallpaper>): seq<Wallpaper>
  {
    Seqs.Filter(updated, LacksThumb)
  }

  /**
    * After the rewrite, the entries listed as missing are, in catalog
    * order, exactly those whose thumbnail is not on disk, each as often as
    * it occurs.
    */
  lemma MissingThumbsSpec(ws: seq<Wallpaper>, thumbs: set<string>)
    ensures Seqs.IsSubseq(MissingThumbs(UpdateThumbUrls(ws, thumbs)), UpdateThumbUrls(ws, thumbs))
    ensures forall i :: 0 <= i < |MissingThumbs(UpdateThumbUrls(ws, thumbs))| ==>
      MissingThumbs(UpdateThumbUrls(ws, thumbs))[i].filename !in thumbs
    ensures forall i :: 0 <= i < |ws| && ws[i].filename !in thumbs ==>
      UpdateThumbUrls(ws, thumbs)[i] in MissingThumbs(UpdateThumbUrls(ws, thumbs))
    ensures forall w :: (multiset(MissingThumbs(UpdateThumbUrls(ws, thumbs)))[w] ==
      if w.filename in thumbs then 0 else multiset(UpdateThumbUrls(ws, thumbs))[w])
  {
    var updated := UpdateThumbUrls(ws, thumbs);
    Seqs.FilterIsSubseq(updated, LacksThumb);
    Seqs.FilterMembers(updated, LacksThumb);
    forall i | 0 <= i < |MissingThumbs(updated)|
      ensures MissingThumbs(updated)[i].filename !in thumbs
    {
      var w := MissingThumbs(updated)[i];
      var k :| 0 <= k < |updated| && updated[k] == w;
    }
    forall w
      ensures multiset(MissingThumbs(updated))[w] ==
        if w.filename in thumbs then 0 else multiset(updated)[w]
    {
      if w in updated {
        var k :| 0 <= k < |updated| && updated[k] == w;
      }
    }
  }
}
