/**
  * `src/pages/index.tsx`: the gallery page. Its state is the season and
  * style filters, the two toggles, the selected index and the favourites
  * list; the list shown is the catalog sorted newest first and filtered by
  * that state. Event handlers are transition functions on the state.
  */
module Gallery {
  import opened Wrappers
  import opened Text
  import Seqs
  import opened Catalog
  import Favorites

  datatype ViewState = ViewState(
    seasonFilter: string,
    styleFilter: string,
    peytonOnly: bool,
    favoritesOnly: bool,
    selectedIndex: Option<int>,
    favorites: seq<string>)

  const AllSeasons := "All Seasons"
  const AllStyles := "All Styles"

  /** The choices of the season filter. */
  const SeasonChoices: seq<string> := [AllSeasons, "Summer", "Fall", "Winter", "Spring"]

  /** The state of a fresh page (the favourites list starts empty). */
  const Initial := ViewState(AllSeasons, AllStyles, false, false, None, [])

  predicate HasDefaultFilters(st: ViewState)
  {
    st.seasonFilter == AllSeasons && st.styleFilter == AllStyles && !st.peytonOnly && !st.favoritesOnly
  }

  // ---------------------------------------------------------------------
  // Style choices
  // ---------------------------------------------------------------------

  function StylesOf(ws: seq<Wallpaper>): (styles: seq<string>)
    ensures |styles| == |ws|
    ensures forall i :: 0 <= i < |ws| ==> styles[i] == ws[i].style
  {
    seq(|ws|, i requires 0 <= i < |ws| => ws[i].style)
  }

  /** `['All Styles', ...new Set(styles)]`. */
  function Styles(ws: seq<Wallpaper>): seq<string>
  {
    [AllStyles] + Seqs.UniqueInOrder(StylesOf(ws))
  }

  /**
    * The style choices are "All Styles" followed by every style of the
    * catalog, each once, in the order in which the catalog first uses them.
    */
  lemma StylesSpec(ws: seq<Wallpaper>)
    ensures Styles(ws)[0] == AllStyles
    ensures Seqs.NoDup(Styles(ws)[1..])
    ensures forall i :: 0 <= i < |ws| ==> ws[i].style in Styles(ws)[1..]
    ensures forall i :: 1 <= i < |Styles(ws)| ==> exists j :: 0 <= j < |ws| && ws[j].style == Styles(ws)[i]
    ensures forall i, j :: 1 <= i < j < |Styles(ws)| ==>
      Seqs.FirstIndex(StylesOf(ws), Styles(ws)[i]) < Seqs.FirstIndex(StylesOf(ws), Styles(ws)[j])
  {
    var s := StylesOf(ws);
    var u := Seqs.UniqueInOrder(s);
    assert Styles(ws)[1..] == u;
    Seqs.UniqueInOrderFirstAppearance(s);
    forall i | 1 <= i < |Styles(ws)|
      ensures exists j :: 0 <= j < |ws| && ws[j].style == Styles(ws)[i]
    {
      assert u[i - 1] in s;
    }
    forall i | 0 <= i < |ws|
      ensures ws[i].style in u
    {
      assert s[i] in u;
    }
  }

  // ---------------------------------------------------------------------
  // Newest first
  // ---------------------------------------------------------------------

  /** Ordered from the greatest key down. */
  predicate Descending<T>(s: seq<T>, key: T -> int)
  {
    forall i, j :: 0 <= i < j < |s| ==> key(s[i]) >= key(s[j])
  }

  /**
    * Puts `x` into the descending `s` after every element whose key is at
    * least `x`'s, which is where a stable sort puts an element that comes
    * after them in its input.
    */
  function Insert<T>(s: seq<T>, x: T, key: T -> int): (r: seq<T>)
    ensures |r| == |s| + 1
    ensures multiset(r) == multiset(s) + multiset{x}
  {
    if |s| == 0 then [x]
    else if key(s[0]) >= key(x) then
      assert s == [s[0]] + s[1..];
      [s[0]] + Insert(s[1..], x, key)
    else [x] + s
  }

  /**
    * `[...s].sort((a, b) => key(b) - key(a))`: the stable sort by
    * descending key that `Array.prototype.sort` performs, as an insertion
    * sort element by element.
    */
  function SortDescending<T>(s: seq<T>, key: T -> int): seq<T>
    decreases |s|
  {
    if |s| == 0 then []
    else Insert(SortDescending(s[..|s| - 1], key), s[|s| - 1], key)
  }

  /** The tail of a newest-first list is newest-first. */
  lemma DescendingTail<T>(s: seq<T>, key: T -> int)
    requires |s| > 0 && Descending(s, key)
    ensures Descending(s[1..], key)
  {
    var t := s[1..];
    forall i, j | 0 <= i < j < |t|
      ensures key(t[i]) >= key(t[j])
    {
      assert t[i] == s[i + 1] && t[j] == s[j + 1];
    }
  }

  lemma {:induction false} InsertDescending<T>(s: seq<T>, x: T, key: T -> int)
    requires Descending(s, key)
    ensures Descending(Insert(s, x, key), key)
  {
    if |s| > 0 && key(s[0]) >= key(x) {
      var t := s[1..];
      DescendingTail(s, key);
      InsertDescending(t, x, key);
      var r := Insert(t, x, key);
      assert forall y :: y in r ==> key(y) <= key(s[0]) by {
        forall y | y in r
          ensures key(y) <= key(s[0])
        {
          assert y in multiset(r);
          assert y in multiset(t) || y == x;
        }
      }
      assert Insert(s, x, key) == [s[0]] + r;
    }
  }

  /** The sorted list is ordered newest first. */
  lemma {:induction false} SortDescendingOrdered<T>(s: seq<T>, key: T -> int)
    ensures Descending(SortDescending(s, key), key)
    decreases |s|
  {
    if |s| > 0 {
      var n := |s| - 1;
      SortDescendingOrdered(s[..n], key);
      InsertDescending(SortDescending(s[..n], key), s[n], key);
    }
  }

  /** The sorted list holds the same records, each as often. */
  lemma {:induction false} SortDescendingPermutes<T>(s: seq<T>, key: T -> int)
    ensures multiset(SortDescending(s, key)) == multiset(s)
    decreases |s|
  {
    if |s| > 0 {
      var n := |s| - 1;
      SortDescendingPermutes(s[..n], key);
      assert s == s[..n] + [s[n]];
    }
  }

  /** `x => key(x) == k`. */
  function KeyIs<T>(key: T -> int, k: int): T -> bool
  {
    x => key(x) == k
  }

  lemma {:induction false} InsertStable<T>(s: seq<T>, x: T, key: T -> int, k: int)
    requires Descending(s, key)
    ensures Seqs.Filter(Insert(s, x, key), KeyIs(key, k)) ==
      Seqs.Filter(s, KeyIs(key, k)) + Seqs.Filter([x], KeyIs(key, k))
  {
    var p := KeyIs(key, k);
    if |s| == 0 {
    } else if key(s[0]) >= key(x) {
      var t := s[1..];
      DescendingTail(s, key);
      InsertStable(t, x, key, k);
      var ins := Insert(t, x, key);
      assert Insert(s, x, key) == [s[0]] + ins;
      assert ([s[0]] + ins)[1..] == ins;
      var a, b := Seqs.Filter(t, p), Seqs.Filter([x], p);
      assert [s[0]] + (a + b) == ([s[0]] + a) + b;
    } else {
      Seqs.FilterAppend([x], s, p);
      if key(x) == k {
        Seqs.FilterKeepsNone(s, p);
      }
    }
  }

  /**
    * The sort is stable: the records with any one key appear in the sorted
    * list in the order they have in the input.
    */
  lemma {:induction false} SortDescendingStable<T>(s: seq<T>, key: T -> int, k: int)
    ensures Seqs.Filter(SortDescending(s, key), KeyIs(key, k)) == Seqs.Filter(s, KeyIs(key, k))
    decreases |s|
  {
    if |s| > 0 {
      var n := |s| - 1;
      SortDescendingStable(s[..n], key, k);
      SortDescendingOrdered(s[..n], key);
      InsertStable(SortDescending(s[..n], key), s[n], key, k);
      Seqs.FilterLast(s, KeyIs(key, k));
    }
  }

  function Created(w: Wallpaper): int
  {
    w.created
  }

  /** `sortedWallpapers`: the catalog, newest first. */
  function NewestFirst(ws: seq<Wallpaper>): (sorted: seq<Wallpaper>)
    ensures multiset(sorted) == multiset(ws)
    ensures Descending(sorted, Created)
  {
    SortDescendingOrdered(ws, Created);
    SortDescendingPermutes(ws, Created);
    SortDescending(ws, Created)
  }

  // ---------------------------------------------------------------------
  // Filtering
  // ---------------------------------------------------------------------

  /** The condition `filtered` applies to each record. */
  predicate Matches(st: ViewState, w: Wallpaper)
  {
    && (st.seasonFilter == AllSeasons || w.season == st.seasonFilter)
    && (st.styleFilter == AllStyles || w.style == st.styleFilter)
    && (!st.peytonOnly || Lower(w.source) == "peyton")
    && (!st.favoritesOnly || Favorites.IsFavorite(st.favorites, w.filename))
  }

  function MatchesIn(st: ViewState): Wallpaper -> bool
  {
    w => Matches(st, w)
  }

  /** `filtered`: the sorted catalog restricted to the records matching the state. */
  function Filtered(st: ViewState, sorted: seq<Wallpaper>): seq<Wallpaper>
  {
    Seqs.Filter(sorted, MatchesIn(st))
  }

  /**
    * `filtered` keeps the order of the sorted list and holds exactly its
    * records that match all four conditions, each as often as it occurs.
    */
  lemma FilteredSpec(st: ViewState, sorted: seq<Wallpaper>)
    ensures Seqs.IsSubseq(Filtered(st, sorted), sorted)
    ensures forall i :: 0 <= i < |Filtered(st, sorted)| ==> Matches(st, Filtered(st, sorted)[i])
    ensures forall i :: 0 <= i < |sorted| && Matches(st, sorted[i]) ==> sorted[i] in Filtered(st, sorted)
    ensures forall w :: multiset(Filtered(st, sorted))[w] == if Matches(st, w) then multiset(sorted)[w] else 0
  {
    Seqs.FilterIsSubseq(sorted, MatchesIn(st));
    Seqs.FilterMembers(sorted, MatchesIn(st));
  }

  /** With the filters at their defaults every record is shown. */
  lemma DefaultsShowAll(st: ViewState, sorted: seq<Wallpaper>)
    requires HasDefaultFilters(st)
    ensures Filtered(st, sorted) == sorted
  {
    Seqs.FilterKeepsAll(sorted, MatchesIn(st));
  }

  /**
    * A fresh page shows every record of the sorted list, with no wallpaper
    * open in the viewer and no favourite marked.
    */
  lemma InitialShowsAll(sorted: seq<Wallpaper>)
    ensures Filtered(Initial, sorted) == sorted
    ensures Selected(Initial, Filtered(Initial, sorted)) == None
    ensures forall i :: 0 <= i < |sorted| ==> !Favorites.IsFavorite(Initial.favorites, sorted[i].filename)
  {
    DefaultsShowAll(Initial, sorted);
  }

  /**
    * A record whose season is not one of the season choices (`Autumn`,
    * `Any`, ...) is shown only while the season filter is "All Seasons".
    */
  lemma OtherSeasonsOnlyUnderAll(st: ViewState, w: Wallpaper)
    requires st.seasonFilter in SeasonChoices
    requires w.season !in SeasonChoices
    ensures Matches(st, w) ==> st.seasonFilter == AllSeasons
  {
  }

  // ---------------------------------------------------------------------
  // Transitions
  // ---------------------------------------------------------------------

  /** `resetFilters`. */
  function ResetFilters(st: ViewState): (r: ViewState)
    ensures HasDefaultFilters(r)
    ensures r.selectedIndex == st.selectedIndex && r.favorites == st.favorites
  {
    st.(seasonFilter := AllSeasons, styleFilter := AllStyles, peytonOnly := false, favoritesOnly := false)
  }

  /** After a reset the whole sorted catalog is shown again. */
  lemma ResetShowsAll(st: ViewState, ws: seq<Wallpaper>)
    ensures Filtered(ResetFilters(st), NewestFirst(ws)) == NewestFirst(ws)
  {
    DefaultsShowAll(ResetFilters(st), NewestFirst(ws));
  }

  /** The page's own `toggleFavorite`, the same update as the context's. */
  function ToggleFavorite(st: ViewState, filename: string): (r: ViewState)
    ensures r == st.(favorites := r.favorites)
  {
    st.(favorites := Favorites.Toggle(st.favorites, filename))
  }

  /** Toggling flips the toggled filename and no other. */
  lemma ToggleFavoriteFlips(st: ViewState, filename: string, g: string)
    ensures Favorites.IsFavorite(ToggleFavorite(st, filename).favorites, g) <==>
      (Favorites.IsFavorite(st.favorites, g) != (g == filename))
  {
    Favorites.ToggleFlips(st.favorites, filename, g);
  }

  /**
    * `Math.max(0, minGalleryCount - filtered.length)` with
    * `minGalleryCount = 5`: the fewest placeholders that bring the grid to
    * five tiles, and none once five records are shown.
    */
  function PlaceholdersNeeded(shown: nat): (r: nat)
    ensures shown + r >= 5
    ensures shown < 5 ==> shown + r == 5
    ensures shown >= 5 ==> r == 0
  {
    if shown < 5 then 5 - shown else 0
  }

  /** Clicking the tile at `index`. */
  function Select(st: ViewState, index: int): (r: ViewState)
  {
    st.(selectedIndex := Some(index))
  }

  /** Closing the viewer. */
  function Close(st: ViewState): (r: ViewState)
  {
    st.(selectedIndex := None)
  }

  /** `selected`: the record at the selected index, if there is one. */
  function Selected(st: ViewState, shown: seq<Wallpaper>): Option<Wallpaper>
  {
    match st.selectedIndex
    case Some(i) => if 0 <= i < |shown| then Some(shown[i]) else None
    case None => None
  }

  /** The previous-arrow is rendered. */
  predicate CanGoPrev(st: ViewState)
  {
    st.selectedIndex.Some? && st.selectedIndex.value > 0
  }

  /** The next-arrow is rendered. */
  predicate CanGoNext(st: ViewState, shownCount: nat)
  {
    st.selectedIndex.Some? && st.selectedIndex.value < shownCount - 1
  }

  /** `setSelectedIndex(prev => (prev ?? 1) - 1)`. */
  function GoPrev(st: ViewState): ViewState
  {
    st.(selectedIndex := Some(match st.selectedIndex case Some(i) => i - 1 case None => 0))
  }

  /** `setSelectedIndex(prev => (prev ?? 0) + 1)`. */
  function GoNext(st: ViewState): ViewState
  {
    st.(selectedIndex := Some(match st.selectedIndex case Some(i) => i + 1 case None => 1))
  }

  /**
    * Stepping through an offered arrow moves the selection by one and keeps
    * it within the shown records, so the viewer stays open on a record.
    */
  lemma NavigationInBounds(st: ViewState, shown: seq<Wallpaper>)
    ensures CanGoPrev(st) && st.selectedIndex.value < |shown| ==>
      && GoPrev(st).selectedIndex == Some(st.selectedIndex.value - 1)
      && Selected(GoPrev(st), shown) == Some(shown[st.selectedIndex.value - 1])
    ensures CanGoNext(st, |shown|) && 0 <= st.selectedIndex.value ==>
      && GoNext(st).selectedIndex == Some(st.selectedIndex.value + 1)
      && Selected(GoNext(st), shown) == Some(shown[st.selectedIndex.value + 1])
  {
  }

  /** Selecting a tile opens the viewer on that tile; closing shows nothing. */
  lemma SelectAndClose(st: ViewState, shown: seq<Wallpaper>, index: int)
    ensures 0 <= index < |shown| ==> Selected(Select(st, index), shown) == Some(shown[index])
    ensures Selected(Close(st), shown) == None
  {
  }
}
