/**
  * The categories page: one card per category label with its prompt count,
  * an icon picked by keywords in the name and a background class taken in
  * turn from seven pastel classes.
  */
module CategoriesPage {
  import opened Wrappers
  import opened Text
  import opened Collections
  import opened Ordering
  import opened CategoryIndex
  import opened ExploreCategories

  const CodeIcon: string := "bi-code-slash"
  const ImageIcon: string := "bi-image"
  const WritingIcon: string := "bi-pencil-square"
  const AnalysisIcon: string := "bi-graph-up"
  const DefaultIcon: string := "bi-folder2-open"

  /** `getCategoryIcon`: the first keyword group found in the lower-cased name decides the icon. */
  function CategoryIcon(categoryName: Option<string>): (icon: string)
    ensures icon in {CodeIcon, ImageIcon, WritingIcon, AnalysisIcon, DefaultIcon}
  {
    var n := LowerAscii(OrElse(categoryName, ""));
    if Contains(n, "code") || Contains(n, "program") || Contains(n, "dev") then CodeIcon
    else if Contains(n, "image") || Contains(n, "photo") || Contains(n, "design") then ImageIcon
    else if Contains(n, "write") || Contains(n, "content") || Contains(n, "story") then WritingIcon
    else if Contains(n, "analysis") || Contains(n, "research") then AnalysisIcon
    else DefaultIcon
  }

  /** One row of the icon table: any of the keywords selects the icon. */
  datatype IconRule = IconRule(keywords: seq<string>, icon: string)

  /** The icon rules in the order they are tried. */
  const IconRules: seq<IconRule> := [
    IconRule(["code", "program", "dev"], CodeIcon),
    IconRule(["image", "photo", "design"], ImageIcon),
    IconRule(["write", "content", "story"], WritingIcon),
    IconRule(["analysis", "research"], AnalysisIcon)
  ]

  /** Some keyword of `words` occurs in `n`. */
  predicate AnyKeyword(n: string, words: seq<string>) {
    words != [] && (Contains(n, words[0]) || AnyKeyword(n, words[1..]))
  }

  predicate Matches(rule: IconRule, n: string) {
    AnyKeyword(n, rule.keywords)
  }

  /** The icon of the first rule that matches, or the default icon. */
  function FirstMatch(rules: seq<IconRule>, n: string): string {
    if rules == [] then DefaultIcon
    else if Matches(rules[0], n) then rules[0].icon
    else FirstMatch(rules[1..], n)
  }

  /** A rule decides when it matches and no earlier rule does. */
  lemma {:induction false} FirstMatchIsEarliest(rules: seq<IconRule>, n: string, i: nat)
    requires i < |rules| && Matches(rules[i], n)
    requires forall j :: 0 <= j < i ==> !Matches(rules[j], n)
    ensures FirstMatch(rules, n) == rules[i].icon
  {
    if i > 0 {
      assert !Matches(rules[0], n);
      FirstMatchIsEarliest(rules[1..], n, i - 1);
    }
  }

  /** Without a matching rule the default icon is used. */
  lemma {:induction false} NoMatchIsDefault(rules: seq<IconRule>, n: string)
    requires forall j :: 0 <= j < |rules| ==> !Matches(rules[j], n)
    ensures FirstMatch(rules, n) == DefaultIcon
  {
    if rules != [] {
      assert !Matches(rules[0], n);
      NoMatchIsDefault(rules[1..], n);
    }
  }

  lemma AnyOfThree(n: string, a: string, b: string, c: string)
    ensures AnyKeyword(n, [a, b, c]) <==> Contains(n, a) || Contains(n, b) || Contains(n, c)
  {
    assert [a, b, c][1..] == [b, c];
    AnyOfTwo(n, b, c);
  }

  lemma AnyOfTwo(n: string, a: string, b: string)
    ensures AnyKeyword(n, [a, b]) <==> Contains(n, a) || Contains(n, b)
  {
    assert [a, b][1..] == [b] && [b][1..] == [];
    assert !AnyKeyword(n, []);
    assert AnyKeyword(n, [b]) <==> Contains(n, b);
  }

  /** The chain of conditionals is the rule table applied first-match. */
  lemma CategoryIconIsRuleTable(categoryName: Option<string>)
    ensures CategoryIcon(categoryName) == FirstMatch(IconRules, LowerAscii(OrElse(categoryName, "")))
  {
    var n := LowerAscii(OrElse(categoryName, ""));
    AnyOfThree(n, "code", "program", "dev");
    AnyOfThree(n, "image", "photo", "design");
    AnyOfThree(n, "write", "content", "story");
    AnyOfTwo(n, "analysis", "research");
    var r0 := IconRules;
    var r1 := r0[1..];
    var r2 := r1[1..];
    var r3 := r2[1..];
    assert r3[1..] == [];
    assert FirstMatch(r3, n) == if Matches(r3[0], n) then AnalysisIcon else DefaultIcon;
    assert FirstMatch(r2, n) == if Matches(r2[0], n) then WritingIcon else FirstMatch(r3, n);
    assert FirstMatch(r1, n) == if Matches(r1[0], n) then ImageIcon else FirstMatch(r2, n);
  }

  /** A name mentioning both "code" and "design" gets the code icon: the earlier rule wins. */
  lemma CodeRuleBeatsDesign(categoryName: Option<string>)
    requires Contains(LowerAscii(OrElse(categoryName, "")), "code")
    requires Contains(LowerAscii(OrElse(categoryName, "")), "design")
    ensures CategoryIcon(categoryName) == CodeIcon
    ensures Matches(IconRules[1], LowerAscii(OrElse(categoryName, "")))
  {
    assert IconRules[1].keywords[1..][1..][0] == "design";
  }

  /** A null name, or one matching no keyword, gets the default icon. */
  lemma NullNameIcon()
    ensures CategoryIcon(None) == DefaultIcon
  {
    var n := LowerAscii("");
    assert n == "";
    assert forall w :: w != "" ==> !Contains(n, w);
  }

  /** The background classes, taken in turn by card position. */
  const Pastel: seq<string> := [
    "bg-light", "bg-secondary-subtle", "bg-primary-subtle", "bg-success-subtle",
    "bg-info-subtle", "bg-warning-subtle", "bg-danger-subtle"
  ]

  /** The background of the card at position `index`: the pastel classes taken in turn. */
  function BackgroundClass(index: nat): (c: string)
    ensures c in Pastel
  {
    Pastel[index % |Pastel|]
  }

  /** The backgrounds repeat every seven cards. */
  lemma BackgroundPeriod(index: nat)
    ensures BackgroundClass(index + 7) == BackgroundClass(index)
  {
    assert (index + 7) % 7 == index % 7;
  }

  /** Seven cards in a row all get different backgrounds. */
  lemma BackgroundsDifferWithinPeriod(i: nat, j: nat)
    requires i < j < i + 7
    ensures BackgroundClass(i) != BackgroundClass(j)
  {
    assert i % 7 != j % 7 by {
      assert j == i + (j - i) && 0 < j - i < 7;
    }
    assert forall a, b :: 0 <= a < b < 7 ==> Pastel[a] != Pastel[b];
  }

  /** An entry of the page's list: a label and its count. */
  datatype CategoryCount = CategoryCount(name: string, count: nat)

  function CountKey(c: CategoryCount): SortKey {
    SortKey(c.count, c.name)
  }

  function CountsOf(ts: seq<Tagged>, names: seq<string>): seq<CategoryCount> {
    MapSeq((n: string) => CategoryCount(n, CountNamed(ts, n)), names)
  }

  /** The page's list for the tagged rows `ts`, sorted by the shared comparator. */
  function CountListing(ts: seq<Tagged>, le: (string, string) -> bool): seq<CategoryCount> {
    Sort(le, CountKey, CountsOf(ts, FirstSeen(ts)))
  }

  /** `categoryCountMap` after the rows `ts`, with its keys in creation order. */
  ghost predicate CountsRepresent(counts: map<string, nat>, order: seq<string>, ts: seq<Tagged>) {
    && order == FirstSeen(ts)
    && (forall n :: n in counts <==> n in order)
    && (forall n :: n in counts ==> counts[n] == CountNamed(ts, n))
  }

  /** One more row adds one to its own label's count and leaves the others. */
  lemma CountNamedSnoc(ts: seq<Tagged>, t: Tagged, n: string)
    ensures CountNamed(ts + [t], n) == CountNamed(ts, n) + (if t.category == n then 1 else 0)
  {
    assert AllButLast(ts + [t]) == ts;
  }

  /**
    * The `forEach` of `fetchAndRenderCategories`: one more for each row's
    * label, starting from zero for a label not seen yet.
    */
  method CountByName(prompts: seq<PromptRow>) returns (counts: map<string, nat>, order: seq<string>)
    ensures order == FirstSeen(Tags(prompts))
    ensures forall n :: n in counts <==> n in order
    ensures forall n :: n in counts ==> counts[n] == CountNamed(Tags(prompts), n)
  {
    counts, order := map[], [];
    var i := 0;
    while i < |prompts|
      invariant 0 <= i <= |prompts|
      invariant CountsRepresent(counts, order, Tags(prompts[..i]))
    {
      TagsSnoc(prompts, i);
      counts, order := CountOneRow(counts, order, Tags(prompts[..i]), prompts[i]);
      i := i + 1;
    }
    assert prompts[..i] == prompts;
  }

  /** The loop body for one row: one more for its label, from zero if the label is new. */
  method CountOneRow(counts: map<string, nat>, order: seq<string>, ghost ts: seq<Tagged>, p: PromptRow)
    returns (counts': map<string, nat>, order': seq<string>)
    requires CountsRepresent(counts, order, ts)
    ensures CountsRepresent(counts', order', ts + [Tag(p)])
  {
    var name := NormalizeName(p.categoryName);
    ghost var t := Tagged(name, p.categoryId);
    FirstSeenSnoc(ts, t);
    CountPositiveIffPresent(ts, name);
    var previous := if name in counts then counts[name] else 0;
    order' := order;
    if name !in counts {
      order' := order' + [name];
    }
    counts' := counts[name := previous + 1];
    forall n | n in counts' ensures counts'[n] == CountNamed(ts + [t], n) {
      CountNamedSnoc(ts, t, n);
    }
  }

  /**
    * `fetchAndRenderCategories` from a successful response up to the sorted
    * list: count, take the entries in creation order, sort.
    */
  method ListCategories(data: Option<seq<PromptRow>>, le: (string, string) -> bool)
    returns (items: seq<CategoryCount>)
    ensures items == CountListing(Tags(RowsOf(data)), le)
  {
    var prompts := RowsOf(data);
    var counts, order := CountByName(prompts);
    var entries := seq(|order|, j requires 0 <= j < |order| => CategoryCount(order[j], counts[order[j]]));
    assert entries == CountsOf(Tags(prompts), FirstSeen(Tags(prompts)));
    items := Sort(le, CountKey, entries);
  }

  /** The explore sidebar entry without its id. */
  function WithoutId(s: CategorySummary): CategoryCount {
    CategoryCount(s.name, s.count)
  }

  /**
    * For the same rows the page lists the same `(name, count)` pairs, in the
    * same order, as the explore sidebar once its ids are dropped.
    */
  lemma ListingIsExploreWithoutIds(ts: seq<Tagged>, le: (string, string) -> bool)
    ensures CountListing(ts, le) == MapSeq(WithoutId, SortedSummaries(ts, le))
  {
    var names := FirstSeen(ts);
    var pre := SummariesOf(ts, names);
    assert MapSeq(WithoutId, pre) == CountsOf(ts, names);
    SortMapCommutes(le, SummaryKey, CountKey, WithoutId, pre);
  }

  /** Each listed entry is a row label with the number of rows carrying it. */
  lemma ListingEntriesCounted(ts: seq<Tagged>, le: (string, string) -> bool)
    ensures forall i :: 0 <= i < |CountListing(ts, le)| ==>
              CountListing(ts, le)[i].count == CountNamed(ts, CountListing(ts, le)[i].name)
              && CountListing(ts, le)[i].name in FirstSeen(ts)
              && CountListing(ts, le)[i].count > 0
  {
    var l := CountListing(ts, le);
    var pre := CountsOf(ts, FirstSeen(ts));
    forall i | 0 <= i < |l|
      ensures l[i].count == CountNamed(ts, l[i].name) && l[i].name in FirstSeen(ts) && l[i].count > 0
    {
      assert l[i] in multiset(pre);
      var j :| 0 <= j < |pre| && pre[j] == l[i];
      CountPositiveIffPresent(ts, FirstSeen(ts)[j]);
    }
  }

  /** Every row label is listed, and none twice. */
  lemma ListingComplete(ts: seq<Tagged>, le: (string, string) -> bool)
    ensures forall n :: n in FirstSeen(ts) ==>
              exists i :: 0 <= i < |CountListing(ts, le)| && CountListing(ts, le)[i].name == n
    ensures NamesDistinct(CountKey, CountListing(ts, le))
  {
    var l := CountListing(ts, le);
    var names := FirstSeen(ts);
    var pre := CountsOf(ts, names);
    FirstSeenIsNameSet(ts);
    forall n | n in names ensures exists i :: 0 <= i < |l| && l[i].name == n {
      var j :| 0 <= j < |names| && names[j] == n;
      assert pre[j] in multiset(l);
      var i :| 0 <= i < |l| && l[i] == pre[j];
    }
    assert NamesDistinct(CountKey, pre);
    SortKeepsNamesDistinct(le, CountKey, pre);
  }

  /** With a total order on names the list is sorted: counts never increase, ties in name order. */
  lemma ListingSorted(ts: seq<Tagged>, le: (string, string) -> bool)
    requires IsTotalOrder(le)
    ensures SortedBy(le, CountKey, CountListing(ts, le))
  {
    SortSorted(le, CountKey, CountsOf(ts, FirstSeen(ts)));
  }

  /** The listed counts add up to the number of rows. */
  lemma ListingTotal(ts: seq<Tagged>, le: (string, string) -> bool)
    ensures TotalCount(CountKey, CountListing(ts, le)) == |ts|
  {
    ListingIsExploreWithoutIds(ts, le);
    SidebarTotal(ts, le);
    DroppingIdsKeepsTotal(SortedSummaries(ts, le));
  }

  lemma {:induction false} DroppingIdsKeepsTotal(s: seq<CategorySummary>)
    ensures TotalCount(CountKey, MapSeq(WithoutId, s)) == TotalCount(SummaryKey, s)
  {
    if s != [] {
      DroppingIdsKeepsTotal(s[1..]);
      assert MapSeq(WithoutId, s)[1..] == MapSeq(WithoutId, s[1..]);
    }
  }

  /** The list is empty exactly when there are no rows. */
  lemma ListingEmptyIffNoRows(ts: seq<Tagged>, le: (string, string) -> bool)
    ensures CountListing(ts, le) == [] <==> ts == []
  {
    ListingTotal(ts, le);
  }

  /** Whatever order the map's entries are enumerated in, the sorted list is the same. */
  lemma ListingIgnoresEnumerationOrder(ts: seq<Tagged>, le: (string, string) -> bool, entries: seq<CategoryCount>)
    requires IsTotalOrder(le)
    requires multiset(entries) == multiset(CountsOf(ts, FirstSeen(ts)))
    ensures Sort(le, CountKey, entries) == CountListing(ts, le)
  {
    var pre := CountsOf(ts, FirstSeen(ts));
    FirstSeenIsNameSet(ts);
    forall p, q | 0 <= p < |pre| && 0 <= q < |pre| && CountKey(pre[p]) == CountKey(pre[q])
      ensures pre[p] == pre[q]
    {
      assert pre[p].name == FirstSeen(ts)[p] && pre[q].name == FirstSeen(ts)[q];
    }
    SortIgnoresInputOrder(le, CountKey, pre, entries);
  }
  /**
    * Two row lists carrying the same labels equally often give every name the
    * same count and the same first-seen names (in some order).
    */
  lemma SameLabelsSameCounts(ts: seq<Tagged>, us: seq<Tagged>)
    requires multiset(Labels(ts)) == multiset(Labels(us))
    ensures forall n :: CountNamed(ts, n) == CountNamed(us, n)
    ensures multiset(FirstSeen(ts)) == multiset(FirstSeen(us))
  {
    forall n ensures CountNamed(ts, n) == CountNamed(us, n) {
      CountIsMultiplicity(ts, n);
      CountIsMultiplicity(us, n);
    }
    forall n ensures n in FirstSeen(ts) <==> n in FirstSeen(us) {
      assert n in Labels(ts) <==> n in multiset(Labels(ts));
      assert n in Labels(us) <==> n in multiset(Labels(us));
    }
    DistinctSameMembers(FirstSeen(ts), FirstSeen(us));
  }

  /**
    * The page's list depends only on which rows arrive, not on their order:
    * rearranging the rows gives the same listing.
    */
  lemma ListingIgnoresRowOrder(ps: seq<PromptRow>, qs: seq<PromptRow>, le: (string, string) -> bool)
    requires IsTotalOrder(le)
    requires multiset(ps) == multiset(qs)
    ensures CountListing(Tags(ps), le) == CountListing(Tags(qs), le)
  {
    var ts, us := Tags(ps), Tags(qs);
    MapSeqMultiset(Tag, ps, qs);
    MapSeqMultiset(Label, ts, us);
    SameLabelsSameCounts(ts, us);
    var names := FirstSeen(ts);
    var entries := CountsOf(ts, names);
    var count := (n: string) => CategoryCount(n, CountNamed(us, n));
    assert entries == MapSeq(count, names);
    assert CountsOf(us, FirstSeen(us)) == MapSeq(count, FirstSeen(us));
    MapSeqMultiset(count, names, FirstSeen(us));
    ListingIgnoresEnumerationOrder(us, le, entries);
  }

  /** "Design " is trimmed to "Design". */
  lemma TrimDesign()
    ensures Trim("Design ") == "Design"
  {
    assert TrimStart("Design ") == "Design ";
    assert "Design "[..6] == "Design";
    assert TrimEnd("Design ") == TrimEnd("Design");
    assert "Design"[..5] == "Desig";
  }

  /** The labels of the rows named "Design " and "". */
  lemma DesignLabels(p: PromptRow, q: PromptRow)
    requires p.categoryName == Some("Design ") && q.categoryName == Some("")
    ensures Labels(Tags([p, q])) == ["Design", Uncategorized]
  {
    TrimDesign();
    NormalizeNameFacts(p.categoryName);
    NormalizeNameFacts(q.categoryName);
    var ts := Tags([p, q]);
    assert ts[0].category == "Design" && ts[1].category == Uncategorized;
  }

  /** Their counts before sorting: each label once, in row order. */
  lemma DesignCounts(ts: seq<Tagged>)
    requires Labels(ts) == ["Design", Uncategorized]
    ensures CountsOf(ts, FirstSeen(ts)) == [CategoryCount("Design", 1), CategoryCount(Uncategorized, 1)]
  {
    assert AllButLast(Labels(ts)) == ["Design"] && AllButLast(["Design"]) == [];
    assert Dedupe(["Design"]) == ["Design"];
    assert Uncategorized !in ["Design"] by {
      assert |Uncategorized| != |"Design"|;
    }
    assert FirstSeen(ts) == ["Design", Uncategorized];
    CountIsMultiplicity(ts, "Design");
    CountIsMultiplicity(ts, Uncategorized);
  }

  /**
    * Rows named "Design " and "" list "Design" once and "Uncategorized" once,
    * "Design" first when it comes first in name order.
    */
  lemma DesignExample(p: PromptRow, q: PromptRow, le: (string, string) -> bool)
    requires p.categoryName == Some("Design ") && q.categoryName == Some("")
    requires le("Design", Uncategorized)
    ensures CountListing(Tags([p, q]), le) == [CategoryCount("Design", 1), CategoryCount(Uncategorized, 1)]
  {
    var ts := Tags([p, q]);
    DesignLabels(p, q);
    DesignCounts(ts);
    var d, u := CategoryCount("Design", 1), CategoryCount(Uncategorized, 1);
    assert [d, u][1..] == [u];
    assert Sort(le, CountKey, [u]) == [u];
  }

  /**
    * The explore sidebar's names and counts do not depend on the row order
    * either. Its ids can: each is the first truthy id in row order. The lemma
    * sits here rather than in `ExploreCategories` because it goes through
    * `CountListing` and `ListingIsExploreWithoutIds`, and this module already
    * imports that one.
    */
  lemma SidebarCountsIgnoreRowOrder(ps: seq<PromptRow>, qs: seq<PromptRow>, le: (string, string) -> bool)
    requires IsTotalOrder(le)
    requires multiset(ps) == multiset(qs)
    ensures MapSeq(WithoutId, ExploreIndex(ps, le)) == MapSeq(WithoutId, ExploreIndex(qs, le))
  {
    ListingIsExploreWithoutIds(Tags(ps), le);
    ListingIsExploreWithoutIds(Tags(qs), le);
    ListingIgnoresRowOrder(ps, qs, le);
  }


  /** One card of the grid. */
  datatype Card = Card(name: string, count: nat, icon: string, background: string)

  /** What the page ends up showing. */
  datatype PageView = LoadFailed | EmptyState | Grid(cards: seq<Card>)

  /** `createCategoryCard(category, index)` for every listed entry. */
  function Cards(items: seq<CategoryCount>): (cards: seq<Card>)
    ensures |cards| == |items|
    ensures forall i :: 0 <= i < |items| ==>
              cards[i].name == items[i].name && cards[i].count == items[i].count
              && cards[i].icon == CategoryIcon(Some(items[i].name)) && cards[i].background == Pastel[i % 7]
  {
    seq(|items|, i requires 0 <= i < |items| => Card(items[i].name, items[i].count, CategoryIcon(Some(items[i].name)), BackgroundClass(i)))
  }

  /**
    * `fetchAndRenderCategories`: a failed call shows the error, an empty list
    * the empty state, and otherwise a card per listed entry.
    */
  method RenderCategories(response: RpcResult, le: (string, string) -> bool) returns (view: PageView)
    ensures response.RpcError? ==> view == LoadFailed
    ensures response.RpcData? && RowsOf(response.rows) == [] ==> view == EmptyState
    ensures response.RpcData? && RowsOf(response.rows) != [] ==>
              view == Grid(Cards(CountListing(Tags(RowsOf(response.rows)), le)))
  {
    if response.RpcError? {
      return LoadFailed;
    }
    var items := ListCategories(response.rows, le);
    ListingEmptyIffNoRows(Tags(RowsOf(response.rows)), le);
    if |items| == 0 {
      view := EmptyState;
    } else {
      view := Grid(Cards(items));
    }
  }
}
