/**
  * `scripts/backfill-tags.mjs`: every catalog entry that has no tags yet and
  * whose thumbnail exists is shown to the captioning model; the tags read
  * from its reply are stored on the entry when there is at least one. The
  * catalog file is rewritten at the end, unless a reply is missing, which
  * makes `run` throw before anything is written.
  */
module BackfillTags {
  import opened Wrappers
  import opened Text
  import Seqs
  import opened Catalog

  /** `l.includes(',') && !l.toLowerCase().includes('style')`. */
  predicate IsTagLine(line: string)
  {
    ',' in line && !Contains(Lower(line), "style")
  }

  /** `lines.findIndex(IsTagLine)`, as an option. */
  function FindTagLine(lines: seq<string>): (r: Option<nat>)
    ensures r.None? ==> forall i :: 0 <= i < |lines| ==> !IsTagLine(lines[i])
    ensures r.Some? ==> r.value < |lines| && IsTagLine(lines[r.value])
    ensures r.Some? ==> forall i :: 0 <= i < r.value ==> !IsTagLine(lines[i])
  {
    if |lines| == 0 then None
    else if IsTagLine(lines[0]) then Some(0)
    else
      match FindTagLine(lines[1..])
      case None => None
      case Some(k) => Some(k + 1)
  }

  /**
    * `lines.find(IsTagLine) || ''` over the trimmed lines of the reply: the
    * first trimmed line holding a comma and no "style" in any case, or the
    * empty string when there is none.
    */
  function TagLine(reply: string): (line: string)
    ensures line == "" || IsTagLine(line)
    ensures line == "" <==> forall i :: 0 <= i < |TrimmedLines(reply)| ==> !IsTagLine(TrimmedLines(reply)[i])
    ensures line != "" ==> exists i :: (0 <= i < |TrimmedLines(reply)| && TrimmedLines(reply)[i] == line &&
      forall j :: 0 <= j < i ==> !IsTagLine(TrimmedLines(reply)[j]))
  {
    var lines := TrimmedLines(reply);
    match FindTagLine(lines)
    case None => ""
    case Some(i) => lines[i]
  }

  /**
    * `t.trim().toLowerCase()`: the piece without the white space at its
    * ends, lower-cased.
    */
  function CleanTag(part: string): (tag: string)
    ensures IsTrimmed(tag) && IsLowerCase(tag)
    ensures exists i, j :: SpaceAround(part, i, j) && tag == Lower(part[i..j])
  {
    var t := Trim(part);
    LowerKeepsTrimmed(t);
    Lower(t)
  }

  lemma LowerKeepsTrimmed(t: string)
    requires IsTrimmed(t)
    ensures IsTrimmed(Lower(t))
  {
    if |t| > 0 {
      assert Lower(t)[0] == LowerChar(t[0]);
      assert Lower(t)[|t| - 1] == LowerChar(t[|t| - 1]);
    }
  }

  predicate NonEmpty(s: string)
  {
    |s| > 0
  }

  /** What `CleanTag` makes of a piece of the tag line. */
  predicate IsCleanTag(t: string)
  {
    IsTrimmed(t) && IsLowerCase(t)
  }

  /** The pieces of the tag line, trimmed and lower-cased. */
  function CleanedPieces(reply: string): seq<string>
  {
    Seqs.Map(Split(TagLine(reply), ','), CleanTag)
  }

  lemma CleanedPiecesClean(reply: string)
    ensures forall i :: 0 <= i < |CleanedPieces(reply)| ==> IsCleanTag(CleanedPieces(reply)[i])
  {
    forall i | 0 <= i < |CleanedPieces(reply)|
      ensures IsCleanTag(CleanedPieces(reply)[i])
    {
      Seqs.MapAt(Split(TagLine(reply), ','), CleanTag, i);
    }
  }

  /**
    * `getTagsFromThumbnail`'s result for a reply: the tag line split at
    * commas, each piece trimmed and lower-cased, empty pieces dropped.
    */
  function TagsOf(reply: string): (tags: seq<string>)
  {
    Seqs.Filter(CleanedPieces(reply), NonEmpty)
  }

  /**
    * Every tag is non-empty, trimmed and lower case, and
    * every non-empty cleaned piece of the tag line is a tag, in order and
    * as often as it occurs: repeated tags are kept.
    */
  lemma TagsWellFormed(reply: string)
    ensures forall i :: 0 <= i < |TagsOf(reply)| ==> NonEmpty(TagsOf(reply)[i]) && IsCleanTag(TagsOf(reply)[i])
    ensures forall i :: 0 <= i < |CleanedPieces(reply)| && NonEmpty(CleanedPieces(reply)[i]) ==>
      CleanedPieces(reply)[i] in TagsOf(reply)
    ensures Seqs.IsSubseq(TagsOf(reply), CleanedPieces(reply))
    ensures forall t :: multiset(TagsOf(reply))[t] == if NonEmpty(t) then multiset(CleanedPieces(reply))[t] else 0
  {
    CleanedPiecesClean(reply);
    NonEmptyPieces(CleanedPieces(reply));
  }

  /** `filter(Boolean)` on clean pieces, whatever line they come from. */
  lemma NonEmptyPieces(pieces: seq<string>)
    requires forall i :: 0 <= i < |pieces| ==> IsCleanTag(pieces[i])
    ensures var tags := Seqs.Filter(pieces, NonEmpty);
      && (forall i :: 0 <= i < |tags| ==> NonEmpty(tags[i]) && IsCleanTag(tags[i]))
      && (forall i :: 0 <= i < |pieces| && NonEmpty(pieces[i]) ==> pieces[i] in tags)
      && Seqs.IsSubseq(tags, pieces)
      && (forall t :: multiset(tags)[t] == if NonEmpty(t) then multiset(pieces)[t] else 0)
  {
    Seqs.FilterMembers(pieces, NonEmpty);
    Seqs.FilterIsSubseq(pieces, NonEmpty);
    Seqs.FilterAllHold(pieces, NonEmpty, IsCleanTag);
  }

  /** Nothing is read from a reply without a tag line. */
  lemma NoTagLineNoTags(reply: string)
    requires forall i :: 0 <= i < |TrimmedLines(reply)| ==> !IsTagLine(TrimmedLines(reply)[i])
    ensures TagsOf(reply) == []
  {
    assert TagLine(reply) == "";
    assert Split("", ',') == [""];
    var pieces := CleanedPieces(reply);
    assert pieces == [CleanTag("")];
    assert CleanTag("") == "";
  }

  /** `entry.tags && entry.tags.length > 0`. */
  predicate HasTags(e: Wallpaper)
  {
    e.tags.Some? && |e.tags.value| > 0
  }

  /** The entries `run` asks the model about: untagged, with a thumbnail on disk. */
  predicate Consulted(e: Wallpaper, thumbs: set<string>)
  {
    !HasTags(e) && e.filename in thumbs
  }

  /** The entries `run` assigns tags to, given the tags read from the reply. */
  predicate Assigns(e: Wallpaper, thumbs: set<string>, tags: seq<string>)
  {
    Consulted(e, thumbs) && |tags| > 0
  }

  /** The entry after the pass, given the tags read from the model's reply for it. */
  function Tagged(e: Wallpaper, thumbs: set<string>, tags: seq<string>): Wallpaper
  {
    if Assigns(e, thumbs, tags) then e.(tags := Some(tags)) else e
  }

  /**
    * Tagged entries and entries without a thumbnail are left as they are;
    * only the `tags` field ever changes, and it changes exactly when the
    * entry is assigned tags, to the non-empty list read from the reply.
    */
  lemma TaggedSpec(e: Wallpaper, thumbs: set<string>, tags: seq<string>)
    ensures Tagged(e, thumbs, tags).(tags := e.tags) == e
    ensures HasTags(e) ==> Tagged(e, thumbs, tags) == e
    ensures e.filename !in thumbs ==> Tagged(e, thumbs, tags) == e
    ensures Tagged(e, thumbs, tags) != e <==> Assigns(e, thumbs, tags)
    ensures Tagged(e, thumbs, tags) != e ==> Tagged(e, thumbs, tags).tags == Some(tags) && HasTags(Tagged(e, thumbs, tags))
  {
  }

  /** The text of a reply that was received; a missing one is never read. */
  function ReplyText(reply: Option<string>): string
  {
    match reply
    case Some(text) => text
    case None => ""
  }

  /** The tags `getTagsFromThumbnail` returns for a reply. */
  function ReplyTags(reply: Option<string>): seq<string>
  {
    TagsOf(ReplyText(reply))
  }

  /** The tags read from each entry's reply. */
  function ParsedReplies(replies: seq<Option<string>>): (parsed: seq<seq<string>>)
    ensures |parsed| == |replies|
  {
    Seqs.Map(replies, ReplyTags)
  }

  /** How many of `0, ..., n - 1` satisfy `flag`. */
  function CountBelow(flag: nat -> bool, n: nat): nat
  {
    if n == 0 then 0 else CountBelow(flag, n - 1) + (if flag(n - 1) then 1 else 0)
  }

  lemma {:induction false} CountBelowSpec(flag: nat -> bool, n: nat)
    ensures CountBelow(flag, n) == |set j: nat | j < n && flag(j)|
  {
    if n > 0 {
      CountBelowSpec(flag, n - 1);
      var before := set j: nat | j < n - 1 && flag(j);
      var after := set j: nat | j < n && flag(j);
      if flag(n - 1) {
        assert after == before + {n - 1};
        assert |after| == |before| + 1 by {
          assert n - 1 !in before;
        }
      } else {
        assert after == before;
      }
    }
  }

  /** Whether entry `j` gets tags. */
  function AssignsAt(catalog: seq<Wallpaper>, thumbs: set<string>, parsed: seq<seq<string>>): nat -> bool
  {
    (j: nat) => j < |catalog| && j < |parsed| && Assigns(catalog[j], thumbs, parsed[j])
  }

  /** How many of the first `n` entries the pass tags. */
  function CountAssigned(catalog: seq<Wallpaper>, thumbs: set<string>, parsed: seq<seq<string>>, n: nat): nat
    requires n <= |catalog| == |parsed|
  {
    if n == 0 then 0
    else
      var last := if Assigns(catalog[n - 1], thumbs, parsed[n - 1]) then 1 else 0;
      CountAssigned(catalog, thumbs, parsed, n - 1) + last
  }

  /**
    * The count is the number of entries the pass tags, which by
    * `TaggedSpec` are the entries it changes.
    */
  lemma CountAssignedSpec(catalog: seq<Wallpaper>, thumbs: set<string>, parsed: seq<seq<string>>)
    requires |catalog| == |parsed|
    ensures CountAssigned(catalog, thumbs, parsed, |catalog|) ==
      |set j: nat | j < |catalog| && AssignsAt(catalog, thumbs, parsed)(j)|
  {
    CountAssignedIsCountBelow(catalog, thumbs, parsed, |catalog|);
    CountBelowSpec(AssignsAt(catalog, thumbs, parsed), |catalog|);
  }

  lemma {:induction false} CountAssignedIsCountBelow(catalog: seq<Wallpaper>, thumbs: set<string>, parsed: seq<seq<string>>, n: nat)
    requires n <= |catalog| == |parsed|
    ensures CountAssigned(catalog, thumbs, parsed, n) == CountBelow(AssignsAt(catalog, thumbs, parsed), n)
  {
    if n > 0 {
      CountAssignedIsCountBelow(catalog, thumbs, parsed, n - 1);
    }
  }

  datatype Outcome =
    | Completed(catalog: seq<Wallpaper>, updatedCount: nat)
    | Aborted(at: nat)

  /** Each of the first `n` entries that is asked about gets a reply with text. */
  predicate Answered(catalog: seq<Wallpaper>, thumbs: set<string>, replies: seq<Option<string>>, n: nat)
    requires n <= |catalog| == |replies|
  {
    n == 0 ||
    (Answered(catalog, thumbs, replies, n - 1) && (Consulted(catalog[n - 1], thumbs) ==> replies[n - 1].Some?))
  }

  lemma {:induction false} AnsweredSpec(catalog: seq<Wallpaper>, thumbs: set<string>, replies: seq<Option<string>>, n: nat)
    requires n <= |catalog| == |replies|
    ensures Answered(catalog, thumbs, replies, n) <==>
      forall j :: 0 <= j < n && Consulted(catalog[j], thumbs) ==> replies[j].Some?
  {
    if n > 0 {
      AnsweredSpec(catalog, thumbs, replies, n - 1);
    }
  }

  /** The catalog once the loop has handled the entries before `i`. */
  function TaggedUpTo(catalog: seq<Wallpaper>, thumbs: set<string>, parsed: seq<seq<string>>, i: nat): (entries: seq<Wallpaper>)
    requires i <= |catalog| == |parsed|
    ensures |entries| == |catalog|
  {
    seq(|catalog|, j requires 0 <= j < |catalog| => if j < i then Tagged(catalog[j], thumbs, parsed[j]) else catalog[j])
  }

  /** What the loop of `run` has achieved once it has handled the entries before `i`. */
  predicate LoopState(
    catalog: seq<Wallpaper>, thumbs: set<string>, replies: seq<Option<string>>, i: nat,
    entries: seq<Wallpaper>, updatedCount: nat)
  {
    && i <= |catalog| == |replies|
    && entries == TaggedUpTo(catalog, thumbs, ParsedReplies(replies), i)
    && Answered(catalog, thumbs, replies, i)
    && updatedCount == CountAssigned(catalog, thumbs, ParsedReplies(replies), i)
  }

  /**
    * `run()`: `replies[i]` is what the model answers for entry `i` if it is
    * asked (`None` when the reply has no text, which makes `text.split`
    * throw and ends the run before the catalog is written). The run stops at
    * the first entry asked about without an answer; otherwise it returns
    * the catalog with every entry `Tagged` and the number of entries tagged.
    */
  method Backfill(catalog: seq<Wallpaper>, thumbs: set<string>, replies: seq<Option<string>>) returns (r: Outcome)
    requires |replies| == |catalog|
    ensures r.Aborted? ==>
      && r.at < |catalog|
      && Consulted(catalog[r.at], thumbs) && replies[r.at].None?
      && Answered(catalog, thumbs, replies, r.at)
    ensures r.Completed? ==> LoopState(catalog, thumbs, replies, |catalog|, r.catalog, r.updatedCount)
  {
    var entries := catalog;
    var updatedCount := 0;
    var i := 0;
    LoopStateInit(catalog, thumbs, replies);
    while i < |catalog|
      invariant i <= |catalog|
      invariant LoopState(catalog, thumbs, replies, i, entries, updatedCount)
    {
      if Consulted(catalog[i], thumbs) && replies[i].None? {
        break;
      }
      entries, updatedCount := BackfillEntry(catalog, thumbs, replies, i, entries, updatedCount);
      i := i + 1;
    }
    if i < |catalog| {
      r := Aborted(i);
    } else {
      r := Completed(entries, updatedCount);
    }
  }

  /** One turn of the loop, for entry `i` whose reply, if it is asked for, has text. */
  method BackfillEntry(
    catalog: seq<Wallpaper>, thumbs: set<string>, replies: seq<Option<string>>, i: nat,
    entries: seq<Wallpaper>, updatedCount: nat)
    returns (entries': seq<Wallpaper>, updatedCount': nat)
    requires i < |catalog|
    requires LoopState(catalog, thumbs, replies, i, entries, updatedCount)
    requires Consulted(catalog[i], thumbs) ==> replies[i].Some?
    ensures LoopState(catalog, thumbs, replies, i + 1, entries', updatedCount')
  {
    var entry := entries[i];
    var next := entry;
    updatedCount' := updatedCount;
    LoopStateStep(catalog, thumbs, replies, i, entries, updatedCount);
    Seqs.MapAt(replies, ReplyTags, i);
    if !HasTags(entry) && entry.filename in thumbs {
      var tags := TagsOf(replies[i].value);
      if |tags| > 0 {
        next := entry.(tags := Some(tags));
        updatedCount' := updatedCount + 1;
      }
    }
    entries' := entries[i := next];
  }

  /** What one turn of the loop must do to keep the loop state. */
  lemma LoopStateStep(
    catalog: seq<Wallpaper>, thumbs: set<string>, replies: seq<Option<string>>, i: nat,
    entries: seq<Wallpaper>, updatedCount: nat)
    requires i < |catalog|
    requires LoopState(catalog, thumbs, replies, i, entries, updatedCount)
    requires Consulted(catalog[i], thumbs) ==> replies[i].Some?
    ensures entries[i] == catalog[i]
    ensures
      var tags := ParsedReplies(replies)[i];
      LoopState(catalog, thumbs, replies, i + 1,
        entries[i := Tagged(catalog[i], thumbs, tags)],
        updatedCount + if Assigns(catalog[i], thumbs, tags) then 1 else 0)
  {
    TaggedUpToStep(catalog, thumbs, ParsedReplies(replies), i);
  }

  lemma LoopStateInit(catalog: seq<Wallpaper>, thumbs: set<string>, replies: seq<Option<string>>)
    requires |replies| == |catalog|
    ensures LoopState(catalog, thumbs, replies, 0, catalog, 0)
  {
    NoneTaggedYet(catalog, thumbs, ParsedReplies(replies));
  }

  lemma NoneTaggedYet(catalog: seq<Wallpaper>, thumbs: set<string>, parsed: seq<seq<string>>)
    requires |catalog| == |parsed|
    ensures TaggedUpTo(catalog, thumbs, parsed, 0) == catalog
  {
    var entries := TaggedUpTo(catalog, thumbs, parsed, 0);
    assert forall j :: 0 <= j < |catalog| ==> entries[j] == catalog[j];
  }

  lemma TaggedUpToStep(catalog: seq<Wallpaper>, thumbs: set<string>, parsed: seq<seq<string>>, i: nat)
    requires i < |catalog| == |parsed|
    ensures TaggedUpTo(catalog, thumbs, parsed, i)[i := Tagged(catalog[i], thumbs, parsed[i])] ==
      TaggedUpTo(catalog, thumbs, parsed, i + 1)
  {
  }
}
