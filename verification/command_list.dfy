/** The command browser: category tabs derived from the commands, and the
    search-and-category filter behind each tab. */
module CommandList {
  import Commands
  import Seqs
  import Text

  const AllCategories := "All"

  function CategoriesOf(cmds: seq<Commands.Command>): (r: seq<string>)
    ensures |r| == |cmds| && forall i :: 0 <= i < |cmds| ==> r[i] == cmds[i].category
  {
    seq(|cmds|, i requires 0 <= i < |cmds| => cmds[i].category)
  }

  /** `['All', ...new Set(commands.map(cmd => cmd.category))]`: the "All"
      tab, then each category once. */
  function Categories(cmds: seq<Commands.Command>): (r: seq<string>)
    ensures |r| >= 1 && r[0] == AllCategories
  {
    [AllCategories] + Seqs.Distinct(CategoriesOf(cmds))
  }

  /** After the "All" tab: every command's category, each exactly once, and
      nothing else. */
  lemma CategoriesSpec(cmds: seq<Commands.Command>)
    ensures forall i :: 0 <= i < |cmds| ==> cmds[i].category in Categories(cmds)[1..]
    ensures forall k :: 1 <= k < |Categories(cmds)| ==>
      exists i :: 0 <= i < |cmds| && cmds[i].category == Categories(cmds)[k]
    ensures forall k, l :: 1 <= k < l < |Categories(cmds)| ==> Categories(cmds)[k] != Categories(cmds)[l]
  {
    var r := Categories(cmds);
    var d := Seqs.Distinct(CategoriesOf(cmds));
    assert r[1..] == d;
    forall i | 0 <= i < |cmds| ensures cmds[i].category in r[1..] {
      assert CategoriesOf(cmds)[i] == cmds[i].category;
    }
    forall k | 1 <= k < |r| ensures exists i :: 0 <= i < |cmds| && cmds[i].category == r[k] {
      assert r[k] == d[k - 1];
      var i :| 0 <= i < |cmds| && CategoriesOf(cmds)[i] == d[k - 1];
    }
    forall k, l | 1 <= k < l < |r| ensures r[k] != r[l] {
      assert r[k] == d[k - 1] && r[l] == d[l - 1];
    }
  }

  /** The tabs after "All" follow the order in which categories first
      appear among the commands. */
  lemma CategoriesInFirstAppearanceOrder(cmds: seq<Commands.Command>, k: nat, l: nat)
    requires 1 <= k < l < |Categories(cmds)|
    ensures Categories(cmds)[k] in CategoriesOf(cmds) && Categories(cmds)[l] in CategoriesOf(cmds)
    ensures Seqs.FirstIndex(CategoriesOf(cmds), Categories(cmds)[k])
          < Seqs.FirstIndex(CategoriesOf(cmds), Categories(cmds)[l])
  {
    HeadedDistinctOrder(AllCategories, CategoriesOf(cmds), k, l);
  }

  lemma HeadedIndex<T>(head: T, s: seq<T>, k: nat, l: nat)
    requires 1 <= k < l < 1 + |Seqs.Distinct(s)|
    ensures ([head] + Seqs.Distinct(s))[k] == Seqs.Distinct(s)[k - 1]
    ensures ([head] + Seqs.Distinct(s))[l] == Seqs.Distinct(s)[l - 1]
  {
  }

  lemma HeadedDistinctOrder<T>(head: T, s: seq<T>, k: nat, l: nat)
    requires 1 <= k < l < 1 + |Seqs.Distinct(s)|
    ensures ([head] + Seqs.Distinct(s))[k] in s && ([head] + Seqs.Distinct(s))[l] in s
    ensures Seqs.FirstIndex(s, ([head] + Seqs.Distinct(s))[k]) < Seqs.FirstIndex(s, ([head] + Seqs.Distinct(s))[l])
  {
    HeadedIndex(head, s, k, l);
    Seqs.DistinctFirstAppearanceOrder(s, k - 1, l - 1);
  }

  /** Name or description contains the query, ignoring case. */
  predicate MatchesSearch(c: Commands.Command, query: string) {
    Text.Contains(Text.Lower(c.name), Text.Lower(query)) || Text.Contains(Text.Lower(c.description), Text.Lower(query))
  }

  /** The "All" tab accepts every category; any other tab only its own. */
  predicate MatchesCategory(c: Commands.Command, category: string) {
    category == AllCategories || c.category == category
  }

  function Keeps(query: string, category: string): Commands.Command -> bool {
    (c: Commands.Command) => MatchesSearch(c, query) && MatchesCategory(c, category)
  }

  /** `filteredCommands(category)`: exactly the commands passing both tests, in order. */
  function FilteredCommands(cmds: seq<Commands.Command>, query: string, category: string): (r: seq<Commands.Command>)
    ensures Seqs.IsSubsequence(r, cmds)
    ensures forall i :: 0 <= i < |r| ==> MatchesSearch(r[i], query) && MatchesCategory(r[i], category)
    ensures forall i :: 0 <= i < |cmds| && MatchesSearch(cmds[i], query) && MatchesCategory(cmds[i], category) ==>
      cmds[i] in r
    ensures forall c :: multiset(r)[c] ==
                        if MatchesSearch(c, query) && MatchesCategory(c, category) then multiset(cmds)[c] else 0
  {
    Seqs.FilterIsSubsequence(Keeps(query, category), cmds);
    Seqs.FilterMembers(Keeps(query, category), cmds);
    Seqs.Filter(Keeps(query, category), cmds)
  }

  /** Every search hit is listed under "All" and under its own category's tab. */
  lemma HitListedTwice(cmds: seq<Commands.Command>, query: string, i: nat)
    requires i < |cmds| && MatchesSearch(cmds[i], query)
    ensures cmds[i] in FilteredCommands(cmds, query, AllCategories)
    ensures cmds[i].category in Categories(cmds)
    ensures cmds[i] in FilteredCommands(cmds, query, cmds[i].category)
  {
  }

  /** A category tab lists a subset of the "All" tab. */
  lemma CategoryTabWithinAll(cmds: seq<Commands.Command>, query: string, category: string)
    ensures forall c :: c in FilteredCommands(cmds, query, category) ==> c in FilteredCommands(cmds, query, AllCategories)
  {
    var r := FilteredCommands(cmds, query, category);
    Seqs.FilterMembers(Keeps(query, category), cmds);
    forall c | c in r ensures c in FilteredCommands(cmds, query, AllCategories) {
      var i :| 0 <= i < |r| && r[i] == c;
      var j :| 0 <= j < |cmds| && cmds[j] == c;
    }
  }
}
