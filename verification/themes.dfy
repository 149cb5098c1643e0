/** The themes page: the tag cloud, the search-and-tag filter, and the tag
    toggle. */
module Themes {
  import opened Wrappers
  import Seqs
  import Text

  datatype Theme = Theme(id: string, title: string, thumbnail: string, description: string, recommendations: int,
                         content: string, tags: Option<seq<string>>, createdBy: string, updatedBy: string,
                         createdAt: string, updatedAt: string)

  /** `theme.tags || []`. */
  function TagsOf(t: Theme): seq<string> {
    t.tags.GetOr([])
  }

  /** Some theme lists tag `x`. */
  ghost predicate UsesTag(themes: seq<Theme>, x: string) {
    exists i :: 0 <= i < |themes| && x in TagsOf(themes[i])
  }

  /** `themes.flatMap(theme => theme.tags || [])`. */
  function FlatTags(themes: seq<Theme>): (r: seq<string>)
    ensures forall x :: x in r <==> UsesTag(themes, x)
  {
    if |themes| == 0 then []
    else
      var rest := FlatTags(themes[1..]);
      forall x ensures UsesTag(themes, x) <==> x in TagsOf(themes[0]) || UsesTag(themes[1..], x) {
        if i :| 0 <= i < |themes| && x in TagsOf(themes[i]) {
          if i > 0 {
            assert themes[1..][i - 1] == themes[i];
          }
        }
        if i :| 0 <= i < |themes[1..]| && x in TagsOf(themes[1..][i]) {
          assert themes[i + 1] == themes[1..][i];
        }
      }
      TagsOf(themes[0]) + rest
  }

  /** `allTags`: every tag used by some theme, once, in ascending order. */
  function AllTags(themes: seq<Theme>): (r: seq<string>)
    ensures Text.StrictlySorted(r)
    ensures forall x :: x in r <==> UsesTag(themes, x)
  {
    Text.SortUnique(FlatTags(themes))
  }

  /** The tag cloud has no duplicates, and it is the only strictly sorted
      list of exactly the used tags. */
  lemma AllTagsCanonical(themes: seq<Theme>, other: seq<string>)
    requires Text.StrictlySorted(other)
    requires forall x :: x in other <==> UsesTag(themes, x)
    ensures forall i, j :: 0 <= i < j < |AllTags(themes)| ==> AllTags(themes)[i] != AllTags(themes)[j]
    ensures other == AllTags(themes)
  {
    var r := AllTags(themes);
    forall i, j | 0 <= i < j < |r| ensures r[i] != r[j] {
      Text.LessIrreflexive(r[i]);
    }
    Text.StrictlySortedUnique(other, r);
  }

  /** The search: title or description contains the query, ignoring case. */
  predicate MatchesSearch(t: Theme, query: string) {
    Text.Contains(Text.Lower(t.title), Text.Lower(query)) || Text.Contains(Text.Lower(t.description), Text.Lower(query))
  }

  /** The tag test: no tag selected, or the theme lists the selected tag. */
  predicate MatchesTag(t: Theme, selected: Option<string>) {
    Truthy(selected) ==> selected.value in TagsOf(t)
  }

  function Keeps(query: string, selected: Option<string>): Theme -> bool {
    (t: Theme) => MatchesSearch(t, query) && MatchesTag(t, selected)
  }

  /** `filteredThemes`: exactly the themes passing both tests, in order. */
  function FilterThemes(themes: seq<Theme>, query: string, selected: Option<string>): (r: seq<Theme>)
    ensures Seqs.IsSubsequence(r, themes)
    ensures forall i :: 0 <= i < |r| ==> MatchesSearch(r[i], query) && MatchesTag(r[i], selected)
    ensures forall i :: 0 <= i < |themes| && MatchesSearch(themes[i], query) && MatchesTag(themes[i], selected) ==>
      themes[i] in r
    ensures forall t :: multiset(r)[t] ==
                        if MatchesSearch(t, query) && MatchesTag(t, selected) then multiset(themes)[t] else 0
  {
    Seqs.FilterIsSubsequence(Keeps(query, selected), themes);
    Seqs.FilterMembers(Keeps(query, selected), themes);
    Seqs.Filter(Keeps(query, selected), themes)
  }

  /** With an empty query and no tag every theme is shown. */
  lemma EmptyFilterKeepsAll(themes: seq<Theme>)
    ensures FilterThemes(themes, "", None) == themes
  {
    forall i | 0 <= i < |themes| ensures Keeps("", None)(themes[i]) {
      Text.ContainsEmpty(Text.Lower(themes[i].title));
      assert Text.Lower("") == "";
    }
    Seqs.FilterKeepsAll(Keeps("", None), themes);
  }

  /** `handleTagClick`: clicking the selected tag clears the selection,
      clicking any other tag selects it. */
  function ClickTag(selected: Option<string>, tag: string): (r: Option<string>)
    ensures selected == Some(tag) ==> r.None?
    ensures selected != Some(tag) ==> r == Some(tag)
  {
    if selected == Some(tag) then None else Some(tag)
  }

  /** Clicking the same tag twice returns to the starting selection when
      that selection was empty or that tag. */
  lemma ClickTwiceRestores(selected: Option<string>, tag: string)
    requires selected.None? || selected == Some(tag)
    ensures ClickTag(ClickTag(selected, tag), tag) == selected
  {
  }

  /** Selecting a (non-empty) tag narrows the list to the themes carrying
      it; clearing the selection widens it back to every search match. */
  lemma TagNarrowsSearch(themes: seq<Theme>, query: string, tag: string)
    requires tag != ""
    ensures forall i :: 0 <= i < |FilterThemes(themes, query, ClickTag(None, tag))| ==>
      tag in TagsOf(FilterThemes(themes, query, ClickTag(None, tag))[i])
    ensures Seqs.IsSubsequence(FilterThemes(themes, query, ClickTag(None, tag)), themes)
    ensures FilterThemes(themes, query, ClickTag(Some(tag), tag)) == FilterThemes(themes, query, None)
  {
  }
}
