/**
  * Helpers of the ingestion scripts. `scripts/process-all.mjs` and
  * `process-images.mjs` each carry their own copy of `toKebabCase`,
  * `capitalize`, `simplifyStyle`, the parsing half of `getImageDescription`
  * and the counter loop of `getUniqueFilename`; the copies compute the same
  * thing, so they are modelled once here. The only difference, where the
  * existing names come from, is a parameter (`taken`).
  */
module Naming {
  import opened Wrappers
  import opened Text
  import Seqs

  // ---------------------------------------------------------------------
  // toKebabCase
  // ---------------------------------------------------------------------

  predicate IsSlugChar(c: char) { IsLower(c) || IsDigit(c) }

  predicate NoDoubleDash(s: string)
  {
    forall i :: 0 <= i < |s| - 1 ==> !(s[i] == '-' && s[i + 1] == '-')
  }

  /** What `toKebabCase` promises of its output. */
  predicate IsSlug(s: string)
  {
    && (forall i :: 0 <= i < |s| ==> IsSlugChar(s[i]) || s[i] == '-')
    && (|s| > 0 ==> s[0] != '-' && s[|s| - 1] != '-')
    && NoDoubleDash(s)
  }

  /**
    * `.replace(/[^a-z0-9]+/g, '-')`: every maximal run of characters other
    * than `a-z0-9` becomes a single dash. `inRun` says that the character
    * before `s` already belonged to such a run.
    */
  function CollapseRuns(s: string, inRun: bool): (r: string)
    ensures forall i :: 0 <= i < |r| ==> IsSlugChar(r[i]) || r[i] == '-'
    ensures NoDoubleDash(r)
    ensures inRun && |r| > 0 ==> r[0] != '-'
  {
    if |s| == 0 then ""
    else if IsSlugChar(s[0]) then [s[0]] + CollapseRuns(s[1..], false)
    else if inRun then CollapseRuns(s[1..], true)
    else "-" + CollapseRuns(s[1..], true)
  }

  /** `.replace(/^-+/, '')`. */
  function DropLeadingDashes(s: string): (r: string)
    ensures |r| <= |s| && r == s[|s| - |r|..]
    ensures |r| > 0 ==> r[0] != '-'
    ensures forall i :: 0 <= i < |s| - |r| ==> s[i] == '-'
  {
    if |s| > 0 && s[0] == '-' then DropLeadingDashes(s[1..]) else s
  }

  /** `.replace(/-+$/, '')`. */
  function DropTrailingDashes(s: string): (r: string)
    ensures |r| <= |s| && r == s[..|r|]
    ensures |r| > 0 ==> r[|r| - 1] != '-'
    ensures forall i :: |r| <= i < |s| ==> s[i] == '-'
  {
    if |s| > 0 && s[|s| - 1] == '-' then DropTrailingDashes(s[..|s| - 1]) else s
  }

  /** `toKebabCase(str)`. */
  function KebabCase(str: string): string
  {
    DropTrailingDashes(DropLeadingDashes(CollapseRuns(Lower(str), false)))
  }

  /** The output uses only `a-z`, `0-9` and `-`, has no dash at either end and no `--`. */
  lemma KebabCaseIsSlug(str: string)
    ensures IsSlug(KebabCase(str))
  {
    var c := CollapseRuns(Lower(str), false);
    var l := DropLeadingDashes(c);
    SuffixKeepsShape(c, |c| - |l|);
    PrefixKeepsShape(l, |DropTrailingDashes(l)|);
  }

  /** A suffix of a string of letters, digits and single dashes is one too. */
  lemma SuffixKeepsShape(s: string, i: nat)
    requires i <= |s|
    requires forall k :: 0 <= k < |s| ==> IsSlugChar(s[k]) || s[k] == '-'
    requires NoDoubleDash(s)
    ensures forall k :: 0 <= k < |s| - i ==> IsSlugChar(s[i..][k]) || s[i..][k] == '-'
    ensures NoDoubleDash(s[i..])
  {
    var t := s[i..];
    assert forall k :: 0 <= k < |t| ==> t[k] == s[i + k];
  }

  /** So is a prefix. */
  lemma PrefixKeepsShape(s: string, j: nat)
    requires j <= |s|
    requires forall k :: 0 <= k < |s| ==> IsSlugChar(s[k]) || s[k] == '-'
    requires NoDoubleDash(s)
    ensures forall k :: 0 <= k < j ==> IsSlugChar(s[..j][k]) || s[..j][k] == '-'
    ensures NoDoubleDash(s[..j])
  {
    var t := s[..j];
    assert forall k :: 0 <= k < |t| ==> t[k] == s[k];
  }

  /** Letters and digits of the lower-cased input survive, in order; only separators change. */
  lemma KebabCaseKeepsLettersAndDigits(str: string)
    ensures Seqs.Filter(KebabCase(str), IsSlugChar) == Seqs.Filter(Lower(str), IsSlugChar)
  {
    var c := CollapseRuns(Lower(str), false);
    CollapseRunsKeepsSlugChars(Lower(str), false);
    var l := DropLeadingDashes(c);
    DashesOnlyAround(c, |c| - |l|, |c|);
    assert c[|c| - |l|..|c|] == l;
    var r := DropTrailingDashes(l);
    DashesOnlyAround(l, 0, |r|);
    assert l[0..|r|] == r;
    assert KebabCase(str) == r;
  }

  lemma {:induction false} CollapseRunsKeepsSlugChars(s: string, inRun: bool)
    ensures Seqs.Filter(CollapseRuns(s, inRun), IsSlugChar) == Seqs.Filter(s, IsSlugChar)
  {
    if |s| > 0 {
      CollapseRunsKeepsSlugChars(s[1..], !IsSlugChar(s[0]));
      if IsSlugChar(s[0]) {
        assert ([s[0]] + CollapseRuns(s[1..], false))[1..] == CollapseRuns(s[1..], false);
      } else if !inRun {
        assert ("-" + CollapseRuns(s[1..], true))[1..] == CollapseRuns(s[1..], true);
      }
    }
  }

  lemma {:induction false} DashesFilterOut(d: string)
    requires forall i :: 0 <= i < |d| ==> d[i] == '-'
    ensures Seqs.Filter(d, IsSlugChar) == []
  {
    if |d| > 0 {
      DashesFilterOut(d[1..]);
    }
  }

  /** Cutting dashes off both ends of `s` keeps its letters and digits. */
  lemma DashesOnlyAround(s: string, i: nat, j: nat)
    requires i <= j <= |s|
    requires forall k :: 0 <= k < i ==> s[k] == '-'
    requires forall k :: j <= k < |s| ==> s[k] == '-'
    ensures Seqs.Filter(s[i..j], IsSlugChar) == Seqs.Filter(s, IsSlugChar)
  {
    DashesFilterOut(s[..i]);
    DashesFilterOut(s[j..]);
    Seqs.ThreeSlices(s, i, j);
    FilterBetweenEmpty(s[..i], s[i..j], s[j..]);
  }

  lemma FilterBetweenEmpty(a: string, b: string, c: string)
    requires Seqs.Filter(a, IsSlugChar) == [] && Seqs.Filter(c, IsSlugChar) == []
    ensures Seqs.Filter(a + b + c, IsSlugChar) == Seqs.Filter(b, IsSlugChar)
  {
    Seqs.FilterAppend(a + b, c, IsSlugChar);
    Seqs.FilterAppend(a, b, IsSlugChar);
  }

  lemma {:induction false} CollapseRunsOfSlug(s: string, inRun: bool)
    requires forall i :: 0 <= i < |s| ==> IsSlugChar(s[i]) || s[i] == '-'
    requires NoDoubleDash(s)
    requires inRun && |s| > 0 ==> s[0] != '-'
    ensures CollapseRuns(s, inRun) == s
  {
    if |s| > 0 {
      CollapseRunsOfSlug(s[1..], !IsSlugChar(s[0]));
    }
  }

  /** A slug is its own kebab case. */
  lemma SlugIsFixed(s: string)
    requires IsSlug(s)
    ensures KebabCase(s) == s
  {
    assert IsLowerCase(s);
    LowerOfLowerCase(s);
    CollapseRunsOfSlug(s, false);
  }

  /** `toKebabCase` is idempotent. */
  lemma KebabCaseIdempotent(str: string)
    ensures KebabCase(KebabCase(str)) == KebabCase(str)
  {
    KebabCaseIsSlug(str);
    SlugIsFixed(KebabCase(str));
  }

  /** A maximal run of `a-z0-9` characters. */
  predicate IsWord(w: string)
  {
    |w| > 0 && forall i :: 0 <= i < |w| ==> IsSlugChar(w[i])
  }

  /**
    * The maximal runs of `a-z0-9` characters of `s`, in order: what is left
    * of `s` once every other character is treated as a separator.
    */
  function Words(s: string): (ws: seq<string>)
    ensures forall k :: 0 <= k < |ws| ==> IsWord(ws[k])
    ensures |s| > 0 && IsSlugChar(s[0]) ==> |ws| > 0
    ensures |ws| == 0 ==> forall i :: 0 <= i < |s| ==> !IsSlugChar(s[i])
  {
    if |s| == 0 then []
    else
      var rest := Words(s[1..]);
      if !IsSlugChar(s[0]) then rest
      else if |s| > 1 && IsSlugChar(s[1]) then
        assert IsWord(rest[0]);
        [[s[0]] + rest[0]] + rest[1..]
      else [[s[0]]] + rest
  }

  /** Prepending a character to the first part prepends it to the joined text. */
  lemma JoinConsFirst(c: char, w: string, ws: seq<string>, sep: char)
    ensures Join([[c] + w] + ws, sep) == [c] + Join([w] + ws, sep)
  {
    assert ([[c] + w] + ws)[1..] == ws;
    assert ([w] + ws)[1..] == ws;
  }

  /** Joined words start and end with a letter or digit. */
  lemma {:induction false} JoinOfWords(ws: seq<string>)
    requires |ws| > 0 && forall k :: 0 <= k < |ws| ==> IsWord(ws[k])
    ensures var j := Join(ws, '-'); |j| > 0 && IsSlugChar(j[0]) && IsSlugChar(j[|j| - 1])
  {
    if |ws| > 1 {
      JoinOfWords(ws[1..]);
    }
  }

  /** How `CollapseRuns` places dashes around the words of `s`. */
  predicate CollapsesToWords(s: string, inRun: bool)
  {
    if Words(s) == [] then CollapseRuns(s, inRun) == (if !inRun && |s| > 0 then "-" else "")
    else
      CollapseRuns(s, inRun) ==
        (if !inRun && !IsSlugChar(s[0]) then "-" else "") + Join(Words(s), '-') +
        (if !IsSlugChar(s[|s| - 1]) then "-" else "")
  }

  /**
    * `CollapseRuns` puts exactly one dash between consecutive words, one
    * before the first word when the text starts with a separator (unless a
    * run was already open) and one after the last when it ends with one.
    */
  lemma {:induction false} CollapseRunsWords(s: string, inRun: bool)
    ensures CollapsesToWords(s, inRun)
  {
    if |s| > 0 {
      CollapseRunsWords(s[1..], !IsSlugChar(s[0]));
      if IsSlugChar(s[0]) {
        CollapseWordHead(s);
        CollapseWordHeadInRun(s);
      } else {
        CollapseSeparatorHead(s, inRun);
      }
    }
  }

  lemma CollapseSeparatorHead(s: string, inRun: bool)
    requires |s| > 0 && !IsSlugChar(s[0]) && CollapsesToWords(s[1..], true)
    ensures CollapsesToWords(s, inRun)
  {
    var t := s[1..];
    assert |t| > 0 ==> t[|t| - 1] == s[|s| - 1];
  }

  /** A word character opens no run, so whether one was open does not matter. */
  lemma CollapseWordHeadInRun(s: string)
    requires |s| > 0 && IsSlugChar(s[0]) && CollapsesToWords(s, false)
    ensures CollapsesToWords(s, true)
  {
    assert CollapseRuns(s, true) == CollapseRuns(s, false);
  }

  lemma CollapseWordHead(s: string)
    requires |s| > 0 && IsSlugChar(s[0]) && CollapsesToWords(s[1..], false)
    ensures CollapsesToWords(s, false)
  {
    var t := s[1..];
    if Words(t) == [] {
      assert |t| > 0 ==> t[|t| - 1] == s[|s| - 1];
    } else if IsSlugChar(t[0]) {
      CollapseWordJoinsNext(s);
    } else {
      CollapseWordBeforeSeparator(s);
    }
  }

  /** A word character followed by a word: it becomes the first letter of that word. */
  lemma CollapseWordJoinsNext(s: string)
    requires |s| > 1 && IsSlugChar(s[0]) && IsSlugChar(s[1]) && CollapsesToWords(s[1..], false)
    ensures CollapsesToWords(s, false)
  {
    var t := s[1..];
    assert t[|t| - 1] == s[|s| - 1];
    var rest := Words(t);
    JoinConsFirst(s[0], rest[0], rest[1..], '-');
    assert [rest[0]] + rest[1..] == rest;
  }

  /** A word character followed by a separator: it is a word of its own. */
  lemma CollapseWordBeforeSeparator(s: string)
    requires |s| > 1 && IsSlugChar(s[0]) && !IsSlugChar(s[1]) && Words(s[1..]) != []
    requires CollapsesToWords(s[1..], false)
    ensures CollapsesToWords(s, false)
  {
    var t := s[1..];
    assert t[|t| - 1] == s[|s| - 1];
    assert ([[s[0]]] + Words(t))[1..] == Words(t);
  }

  /**
    * `toKebabCase` returns the words of the lower-cased text, that is its
    * maximal `a-z0-9` runs, joined by single dashes.
    */
  lemma KebabCaseIsWords(str: string)
    ensures KebabCase(str) == Join(Words(Lower(str)), '-')
  {
    var t := Lower(str);
    CollapseRunsWords(t, false);
    assert CollapsesToWords(t, false);
    var ws := Words(t);
    if ws != [] {
      JoinOfWords(ws);
      DropDashesAround(if !IsSlugChar(t[0]) then "-" else "", Join(ws, '-'),
                       if !IsSlugChar(t[|t| - 1]) then "-" else "");
    }
  }

  /** The words can be read back: splitting the kebab case on `-` gives them. */
  lemma KebabCaseSplitsIntoWords(str: string)
    requires Words(Lower(str)) != []
    ensures Split(KebabCase(str), '-') == Words(Lower(str))
  {
    KebabCaseIsWords(str);
    SplitJoinWords(Words(Lower(str)));
  }

  lemma {:induction false} SplitJoinWords(ws: seq<string>)
    requires |ws| > 0 && forall k :: 0 <= k < |ws| ==> IsWord(ws[k])
    ensures Split(Join(ws, '-'), '-') == ws
  {
    assert '-' !in ws[0] by {
      assert IsWord(ws[0]);
    }
    if |ws| == 1 {
      SplitNoSeparator(ws[0], '-');
    } else {
      SplitJoinWords(ws[1..]);
      SplitAfterPart(ws[0], Join(ws[1..], '-'), '-');
    }
  }

  lemma {:induction false} SplitNoSeparator(w: string, sep: char)
    requires sep !in w
    ensures Split(w, sep) == [w]
  {
    if |w| > 0 {
      SplitNoSeparator(w[1..], sep);
      assert w[0] != sep && [w[0]] + w[1..] == w;
    }
  }

  lemma {:induction false} SplitAfterPart(w: string, r: string, sep: char)
    requires sep !in w
    ensures Split(w + [sep] + r, sep) == [w] + Split(r, sep)
  {
    var x := w + [sep] + r;
    if |w| == 0 {
      assert x[1..] == r;
    } else {
      assert x[0] == w[0] != sep && x[1..] == w[1..] + [sep] + r;
      SplitAfterPart(w[1..], r, sep);
      var rest := [w[1..]] + Split(r, sep);
      assert rest[1..] == Split(r, sep) && [w[0]] + w[1..] == w;
    }
  }

  /** Dropping the dashes at both ends of `lead + j + trail` leaves `j`. */
  lemma DropDashesAround(lead: string, j: string, trail: string)
    requires lead == "" || lead == "-"
    requires trail == "" || trail == "-"
    requires |j| > 0 && j[0] != '-' && j[|j| - 1] != '-'
    ensures DropTrailingDashes(DropLeadingDashes(lead + j + trail)) == j
  {
    assert lead + j + trail == lead + (j + trail);
    DropOneLeadingDash(lead, j + trail);
    DropOneTrailingDash(j, trail);
  }

  lemma DropOneLeadingDash(lead: string, s: string)
    requires lead == "" || lead == "-"
    requires |s| > 0 && s[0] != '-'
    ensures DropLeadingDashes(lead + s) == s
  {
    if lead == "-" {
      assert (lead + s)[1..] == s;
    } else {
      assert lead + s == s;
    }
  }

  lemma DropOneTrailingDash(s: string, trail: string)
    requires trail == "" || trail == "-"
    requires |s| > 0 && s[|s| - 1] != '-'
    ensures DropTrailingDashes(s + trail) == s
  {
    if trail == "-" {
      assert (s + trail)[..|s|] == s;
    } else {
      assert s + trail == s;
    }
  }

  // ---------------------------------------------------------------------
  // capitalize
  // ---------------------------------------------------------------------

  /** `str.charAt(0).toUpperCase() + str.slice(1).toLowerCase()`. */
  function Capitalize(str: string): (r: string)
    ensures |r| == |str|
    ensures |str| > 0 ==> r[0] == UpperChar(str[0]) && !IsLower(r[0])
    ensures forall i :: 1 <= i < |r| ==> r[i] == LowerChar(str[i]) && !IsUpper(r[i])
  {
    if |str| == 0 then "" else [UpperChar(str[0])] + Lower(str[1..])
  }

  /** Capitalising ignores the case the input came in. */
  lemma CapitalizeIgnoresCase(str: string)
    ensures Capitalize(Lower(str)) == Capitalize(str)
  {
  }

  // ---------------------------------------------------------------------
  // simplifyStyle
  // ---------------------------------------------------------------------

  /** The keyword table of `simplifyStyle`, in declaration order. */
  const StyleTable: seq<(string, string)> := [
    ("kawaii", "Kawaii"), ("cute", "Kawaii"),
    ("clay", "Claymation & 3D"), ("claymation", "Claymation & 3D"),
    ("plasticine", "Claymation & 3D"), ("3d", "Claymation & 3D"),
    ("cartoon", "Cartoonish"), ("animated", "Cartoonish"), ("comic", "Cartoonish"),
    ("pixel", "Pixel Art & Retro"), ("retro", "Pixel Art & Retro"),
    ("8-bit", "Pixel Art & Retro"),
    ("minimalist", "Minimalist"), ("simple", "Minimalist"), ("clean", "Minimalist"),
    ("realistic", "Photorealistic"), ("photo", "Photorealistic"),
    ("photograph", "Photorealistic"),
    ("abstract", "Abstract & Graphic"), ("gradient", "Abstract & Graphic"),
    ("pattern", "Abstract & Graphic"),
    ("illustration", "Illustration"), ("illustrated", "Illustration"),
    ("painterly", "Illustration")
  ]

  /** The eight style categories. */
  const Categories: set<string> := {
    "Illustration", "Kawaii", "Claymation & 3D", "Cartoonish",
    "Pixel Art & Retro", "Minimalist", "Photorealistic", "Abstract & Graphic"
  }

  /** Keyword `k` of the table occurs in `text` and no earlier keyword does. */
  predicate IsFirstKeyword(text: string, k: int)
  {
    && 0 <= k < |StyleTable|
    && Contains(text, StyleTable[k].0)
    && forall j :: 0 <= j < k ==> !Contains(text, StyleTable[j].0)
  }

  predicate HasNoKeyword(text: string)
  {
    forall j :: 0 <= j < |StyleTable| ==> !Contains(text, StyleTable[j].0)
  }

  /** The category of the first keyword at or after table entry `k` that occurs in `text`. */
  function StyleFrom(text: string, k: nat): (style: string)
    requires k <= |StyleTable|
    ensures style in Categories
    decreases |StyleTable| - k
  {
    if k == |StyleTable| then "Illustration"
    else if Contains(text, StyleTable[k].0) then StyleTable[k].1
    else StyleFrom(text, k + 1)
  }

  /** The category `simplifyStyle` picks for already lower-cased text. */
  function StyleOf(text: string): (style: string)
    ensures style in Categories
  {
    StyleFrom(text, 0)
  }

  /** `simplifyStyle(desc)`: case-insensitive search of the table, first keyword wins. */
  method SimplifyStyle(desc: string) returns (style: string)
    ensures style == StyleOf(Lower(desc))
  {
    var text := Lower(desc);
    for k := 0 to |StyleTable|
      invariant forall j :: 0 <= j < k ==> !Contains(text, StyleTable[j].0)
      invariant StyleFrom(text, k) == StyleOf(text)
    {
      if Contains(text, StyleTable[k].0) {
        return StyleTable[k].1;
      }
    }
    return "Illustration";
  }

  lemma {:induction false} StyleFromIsFirstKeyword(text: string, k: nat)
    requires k <= |StyleTable|
    requires forall j :: 0 <= j < k ==> !Contains(text, StyleTable[j].0)
    ensures HasNoKeyword(text) ==> StyleFrom(text, k) == "Illustration"
    ensures !HasNoKeyword(text) ==>
      exists m :: IsFirstKeyword(text, m) && StyleFrom(text, k) == StyleTable[m].1
    decreases |StyleTable| - k
  {
    if k < |StyleTable| {
      if Contains(text, StyleTable[k].0) {
        assert IsFirstKeyword(text, k);
      } else {
        StyleFromIsFirstKeyword(text, k + 1);
      }
    }
  }

  /**
    * The style is the category of the first table keyword that occurs in the
    * text, and `'Illustration'` when none occurs.
    */
  lemma StyleOfIsFirstKeyword(text: string)
    ensures HasNoKeyword(text) ==> StyleOf(text) == "Illustration"
    ensures forall k :: IsFirstKeyword(text, k) ==> StyleOf(text) == StyleTable[k].1
  {
    StyleFromIsFirstKeyword(text, 0);
    forall k | IsFirstKeyword(text, k)
      ensures StyleOf(text) == StyleTable[k].1
    {
      var m :| IsFirstKeyword(text, m) && StyleOf(text) == StyleTable[m].1;
      assert !(m < k) && !(k < m);
    }
  }

  /** "cute" comes before every non-Kawaii keyword: a cute clay figure is Kawaii. */
  lemma CuteIsKawaii(desc: string)
    requires Contains(Lower(desc), "cute")
    ensures StyleOf(Lower(desc)) == "Kawaii"
  {
  }

  // ---------------------------------------------------------------------
  // Season: capitalize(seasonLine.match(/spring|summer|fall|autumn|winter/i)?.[0] || 'Any')
  // ---------------------------------------------------------------------

  /** The alternatives of the season pattern, in pattern order. */
  const SeasonWords: seq<string> := ["spring", "summer", "fall", "autumn", "winter"]

  const Seasons: set<string> := {"Spring", "Summer", "Fall", "Autumn", "Winter", "Any"}

  /** Some alternative matches `line` case-insensitively at position `i`. */
  predicate SeasonOccursAt(line: string, i: int)
  {
    exists w :: w in SeasonWords && OccursAt(Lower(line), w, i)
  }

  /** The first alternative, in pattern order, that matches at position `i`. */
  function SeasonWordAt(line: string, i: nat, w: nat): (r: Option<string>)
    requires w <= |SeasonWords|
    ensures r.Some? ==> r.value in SeasonWords && OccursAt(Lower(line), r.value, i)
    ensures r.None? ==> forall v :: w <= v < |SeasonWords| ==> !OccursAt(Lower(line), SeasonWords[v], i)
    decreases |SeasonWords| - w
  {
    if w == |SeasonWords| then None
    else if OccursAt(Lower(line), SeasonWords[w], i) then Some(SeasonWords[w])
    else SeasonWordAt(line, i, w + 1)
  }

  /**
    * The leftmost match at position `i` or later, as the matched alternative
    * in lower case (`capitalize` makes the case of the match irrelevant).
    */
  function SeasonMatchFrom(line: string, i: nat): (r: Option<string>)
    requires i <= |line|
    ensures r.None? ==> forall p :: i <= p <= |line| ==> !SeasonOccursAt(line, p)
    ensures r.Some? ==> r.value in SeasonWords
    ensures r.Some? ==>
      exists p :: i <= p <= |line| && OccursAt(Lower(line), r.value, p) &&
        forall q :: i <= q < p ==> !SeasonOccursAt(line, q)
    decreases |line| - i
  {
    match SeasonWordAt(line, i, 0)
    case Some(w) => Some(w)
    case None =>
      if i == |line| then None
      else
        var r := SeasonMatchFrom(line, i + 1);
        assert !SeasonOccursAt(line, i);
        r
  }

  /** The season a reply's season line yields. */
  function ExtractSeason(seasonLine: string): (season: string)
  {
    match SeasonMatchFrom(seasonLine, 0)
    case Some(w) => Capitalize(w)
    case None => Capitalize("Any")
  }

  /**
    * The season is one of six names: the capitalised leftmost season word in
    * the line, or `'Any'` when the line holds none. "autumn" stays `'Autumn'`.
    */
  lemma ExtractSeasonSpec(seasonLine: string)
    ensures ExtractSeason(seasonLine) in Seasons
    ensures ExtractSeason(seasonLine) == "Any" <==>
      forall p :: 0 <= p <= |seasonLine| ==> !SeasonOccursAt(seasonLine, p)
    ensures ExtractSeason(seasonLine) != "Any" ==>
      exists w, p :: w in SeasonWords && OccursAt(Lower(seasonLine), w, p) &&
        ExtractSeason(seasonLine) == Capitalize(w) &&
        forall q :: 0 <= q < p ==> !SeasonOccursAt(seasonLine, q)
  {
    match SeasonMatchFrom(seasonLine, 0)
    case Some(w) =>
      CapitalizedSeasons();
      var p :| 0 <= p <= |seasonLine| && OccursAt(Lower(seasonLine), w, p) &&
        forall q :: 0 <= q < p ==> !SeasonOccursAt(seasonLine, q);
      assert SeasonOccursAt(seasonLine, p);
    case None =>
      CapitalizedSeasons();
  }

  /** A word whose tail is already lower case only has its first letter raised. */
  lemma CapitalizeWord(w: string)
    requires |w| > 0 && IsLowerCase(w[1..])
    ensures Capitalize(w) == [UpperChar(w[0])] + w[1..]
  {
    LowerOfLowerCase(w[1..]);
  }

  lemma CapitalizedSeasons()
    ensures Capitalize("spring") == "Spring" && Capitalize("summer") == "Summer"
    ensures Capitalize("fall") == "Fall" && Capitalize("autumn") == "Autumn"
    ensures Capitalize("winter") == "Winter" && Capitalize("Any") == "Any"
  {
    CapitalizedSpringSummerFall();
    CapitalizedAutumnWinterAny();
  }

  lemma CapitalizedSpringSummerFall()
    ensures Capitalize("spring") == "Spring" && Capitalize("summer") == "Summer"
    ensures Capitalize("fall") == "Fall"
  {
    CapitalizeWord("spring");
    CapitalizeWord("summer");
    CapitalizeWord("fall");
  }

  lemma CapitalizedAutumnWinterAny()
    ensures Capitalize("autumn") == "Autumn" && Capitalize("winter") == "Winter"
    ensures Capitalize("Any") == "Any"
  {
    CapitalizeWord("autumn");
    CapitalizeWord("winter");
    CapitalizeWord("Any");
  }

  // ---------------------------------------------------------------------
  // getImageDescription: parsing the model's reply
  // ---------------------------------------------------------------------

  datatype Description = Description(name: string, season: string, style: string)

  /**
    * The parsed reply, or why parsing threw: a reply without content, or
    * fewer than three lines (`seasonLine` or `styleLine` is undefined).
    */
  function ParseReply(reply: Option<string>): (r: Result<Description, string>)
  {
    match reply
    case None => Failure("no reply text")
    case Some(text) =>
      var lines := TrimmedLines(text);
      if |lines| < 3 then Failure("reply has fewer than three lines")
      else Success(Description(KebabCase(lines[0]), ExtractSeason(lines[1]), StyleOf(Lower(lines[2]))))
  }

  /** The parsing half of `getImageDescription(buffer)`, with the reply as input. */
  method Describe(reply: Option<string>) returns (r: Result<Description, string>)
    ensures r == ParseReply(reply)
  {
    if reply.None? {
      return Failure("no reply text");
    }
    var lines := TrimmedLines(reply.value);
    if |lines| < 3 {
      return Failure("reply has fewer than three lines");
    }
    var style := SimplifyStyle(lines[2]);
    return Success(Description(KebabCase(lines[0]), ExtractSeason(lines[1]), style));
  }

  /**
    * A reply parses exactly when it has text of at least three lines; then
    * the name is a slug, the season one of six names and the style one of
    * the eight categories.
    */
  lemma ParseReplySpec(reply: Option<string>)
    ensures ParseReply(reply).Success? <==> reply.Some? && |Split(reply.value, '\n')| >= 3
    ensures ParseReply(reply).Success? ==>
      && IsSlug(ParseReply(reply).value.name)
      && ParseReply(reply).value.season in Seasons
      && ParseReply(reply).value.style in Categories
  {
    if reply.Some? {
      var lines := TrimmedLines(reply.value);
      if |lines| >= 3 {
        KebabCaseIsSlug(lines[0]);
        ExtractSeasonSpec(lines[1]);
      }
    }
  }

  // ---------------------------------------------------------------------
  // Source label and file extension
  // ---------------------------------------------------------------------

  /** `file.toLowerCase().startsWith('peyyyyyy') ? 'Peyton' : 'Other'`. */
  function SourceLabel(file: string): (source: string)
    ensures source == "Peyton" <==> StartsWith(Lower(file), "peyyyyyy")
    ensures source == "Other" <==> !StartsWith(Lower(file), "peyyyyyy")
  {
    if StartsWith(Lower(file), "peyyyyyy") then "Peyton" else "Other"
  }

  /** `mime.extension(mime.lookup(inputPath) || '') || 'jpg'`, with `""` for a failed lookup. */
  function ResolvedExt(mimeExt: string): (ext: string)
    ensures ext != ""
    ensures mimeExt != "" ==> ext == mimeExt
  {
    if mimeExt == "" then "jpg" else mimeExt
  }

  // ---------------------------------------------------------------------
  // getUniqueFilename
  // ---------------------------------------------------------------------

  /** The `k`-th name the loop tries: `base.ext`, then `base-1.ext`, `base-2.ext`, ... */
  function NameFor(base: string, ext: string, k: nat): string
  {
    if k == 0 then base + "." + ext else base + "-" + Dec(k) + "." + ext
  }

  /** The loop never tries the same name twice. */
  lemma NameForInjective(base: string, ext: string, j: nat, k: nat)
    requires NameFor(base, ext, j) == NameFor(base, ext, k)
    ensures j == k
  {
    var n := NameFor(base, ext, j);
    if j > 0 && k > 0 {
      assert |Dec(j)| == |Dec(k)|;
      assert Dec(j) == n[|base| + 1..|base| + 1 + |Dec(j)|];
      assert Dec(k) == n[|base| + 1..|base| + 1 + |Dec(k)|];
      DecInjective(j, k);
    }
  }

  /**
    * Every name the loop tries before the `k`-th is taken. Written as a
    * recursion so that the verifier unfolds it one step at a time.
    */
  ghost predicate TakenBelow(base: string, ext: string, k: nat, taken: set<string>)
    decreases k
  {
    k == 0 || (NameFor(base, ext, k - 1) in taken && TakenBelow(base, ext, k - 1, taken))
  }

  lemma {:induction false} TakenBelowAt(base: string, ext: string, k: nat, taken: set<string>, j: nat)
    requires TakenBelow(base, ext, k, taken) && j < k
    ensures NameFor(base, ext, j) in taken
    decreases k
  {
    if j < k - 1 {
      TakenBelowAt(base, ext, k - 1, taken, j);
    }
  }

  /** `name` is the first of the tried names that is not taken. */
  ghost predicate IsSmallestFree(name: string, base: string, ext: string, taken: set<string>)
  {
    exists k: nat :: name == NameFor(base, ext, k) && name !in taken && TakenBelow(base, ext, k, taken)
  }

  /** At most one name is the first free one. */
  lemma SmallestFreeIsUnique(a: string, b: string, base: string, ext: string, taken: set<string>)
    requires IsSmallestFree(a, base, ext, taken) && IsSmallestFree(b, base, ext, taken)
    ensures a == b
  {
    var j: nat :| a == NameFor(base, ext, j) && a !in taken && TakenBelow(base, ext, j, taken);
    var k: nat :| b == NameFor(base, ext, k) && b !in taken && TakenBelow(base, ext, k, taken);
    if j < k {
      TakenBelowAt(base, ext, k, taken, j);
    } else if k < j {
      TakenBelowAt(base, ext, j, taken, k);
    }
  }

  ghost function Tried(base: string, ext: string, count: nat): set<string>
  {
    set j: nat | j < count :: NameFor(base, ext, j)
  }

  /**
    * `getUniqueFilename(baseName, ext, ...)`: the first of `base.ext`,
    * `base-1.ext`, `base-2.ext`, ... that is not in `taken`.
    */
  method UniqueFilename(base: string, ext: string, taken: set<string>) returns (name: string)
    ensures name !in taken
    ensures IsSmallestFree(name, base, ext, taken)
  {
    name := base + "." + ext;
    var counter := 1;
    ghost var tried: set<string> := {};
    while name in taken
      invariant counter >= 1
      invariant name == NameFor(base, ext, counter - 1)
      invariant TakenBelow(base, ext, counter - 1, taken)
      invariant forall j: nat :: j < counter - 1 ==> NameFor(base, ext, j) in taken
      invariant tried == Tried(base, ext, counter - 1) && tried <= taken
      decreases taken - tried
    {
      forall j: nat | j < counter - 1
        ensures NameFor(base, ext, j) != name
      {
        if NameFor(base, ext, j) == name {
          NameForInjective(base, ext, j, counter - 1);
        }
      }
      tried := tried + {name};
      name := base + "-" + Dec(counter) + "." + ext;
      counter := counter + 1;
    }
    assert name == NameFor(base, ext, counter - 1) && TakenBelow(base, ext, counter - 1, taken);
  }
}
