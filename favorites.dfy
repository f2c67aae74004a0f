/**
  * `context/FavoritesContext.tsx`: the favourites list of the gallery, a
  * list of wallpaper filenames. `toggleFavorite` replaces the list by a new
  * one; `isFavorite` looks a filename up. The gallery page keeps a copy of
  * the same `toggleFavorite` (`src/pages/index.tsx`), which `Gallery` reuses.
  */
module Favorites {
  import Seqs

  /** `f => f !== filename`. */
  function Other(filename: string): string -> bool
  {
    f => f != filename
  }

  /**
    * `prev.includes(filename) ? prev.filter(f => f !== filename) : [...prev, filename]`.
    */
  function Toggle(prev: seq<string>, filename: string): (next: seq<string>)
    ensures filename !in prev ==> |next| == |prev| + 1
    ensures filename in prev ==> |next| < |prev|
  {
    if filename in prev then
      Seqs.FilterOutCount(prev, filename, Other(filename));
      Seqs.Filter(prev, Other(filename))
    else prev + [filename]
  }

  /** `favorites.includes(filename)`. */
  predicate IsFavorite(favorites: seq<string>, filename: string)
  {
    filename in favorites
  }

  /**
    * Toggling flips whether the toggled filename is a favourite and leaves
    * every other filename as it was.
    */
  lemma ToggleFlips(prev: seq<string>, filename: string, g: string)
    ensures IsFavorite(Toggle(prev, filename), g) <==>
      if g == filename then !IsFavorite(prev, g) else IsFavorite(prev, g)
  {
    if filename in prev {
      Seqs.FilterMembers(prev, Other(filename));
      if g in prev {
        var i :| 0 <= i < |prev| && prev[i] == g;
      }
    }
  }

  /** An absent filename is appended at the end, after the unchanged list. */
  lemma ToggleAbsentAppends(prev: seq<string>, filename: string)
    requires !IsFavorite(prev, filename)
    ensures Toggle(prev, filename)[..|prev|] == prev
    ensures Toggle(prev, filename)[|prev|] == filename
  {
  }

  /**
    * A present filename is removed with all its occurrences, and the
    * remaining filenames keep their order: the result is the subsequence of
    * `prev` made of all its other entries.
    */
  lemma ToggleRemovesAll(prev: seq<string>, filename: string)
    requires IsFavorite(prev, filename)
    ensures !IsFavorite(Toggle(prev, filename), filename)
    ensures Seqs.IsSubseq(Toggle(prev, filename), prev)
    ensures |Toggle(prev, filename)| == |prev| - multiset(prev)[filename]
  {
    ToggleFlips(prev, filename, filename);
    Seqs.FilterIsSubseq(prev, Other(filename));
    Seqs.FilterOutCount(prev, filename, Other(filename));
  }

  /** Favouriting a filename and unfavouriting it again gives back the same list. */
  lemma ToggleTwice(prev: seq<string>, filename: string)
    requires !IsFavorite(prev, filename)
    ensures Toggle(Toggle(prev, filename), filename) == prev
  {
    var p := Other(filename);
    Seqs.FilterAppend(prev, [filename], p);
    Seqs.FilterKeepsAll(prev, p);
    assert Seqs.Filter([filename], p) == [];
  }

  /** A list without repetitions stays without repetitions. */
  lemma ToggleKeepsNoDup(prev: seq<string>, filename: string)
    requires Seqs.NoDup(prev)
    ensures Seqs.NoDup(Toggle(prev, filename))
  {
    if filename in prev {
      Seqs.FilterNoDup(prev, Other(filename));
    }
  }
}
