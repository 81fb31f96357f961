/**
  * The category sidebar of the explore page: `fetchCategories` folds the
  * prompt rows into one `{ id, name, count }` entry per label and sorts them.
  */
module ExploreCategories {
  import opened Wrappers
  import opened Text
  import opened Collections
  import opened Ordering
  import opened CategoryIndex

  /** One entry of the sidebar: a label, how many rows carry it, and a representative id. */
  datatype CategorySummary = CategorySummary(name: string, count: nat, id: Option<string>)

  /** What the sort comparator reads of an entry. */
  function SummaryKey(s: CategorySummary): SortKey {
    SortKey(s.count, s.name)
  }

  /** The entry the page builds for `name` from the tagged rows `ts`. */
  function SummaryOf(ts: seq<Tagged>, name: string): CategorySummary {
    CategorySummary(name, CountNamed(ts, name), FirstIdNamed(ts, name))
  }

  function SummariesOf(ts: seq<Tagged>, names: seq<string>): seq<CategorySummary> {
    MapSeq((n: string) => SummaryOf(ts, n), names)
  }

  /** The rows of a response, `prompts || []`. */
  function RowsOf(data: Option<seq<PromptRow>>): seq<PromptRow> {
    data.GetOr([])
  }

  /** The sorted entries for the tagged rows `ts`, ordered by the comparator with `le` for names. */
  function SortedSummaries(ts: seq<Tagged>, le: (string, string) -> bool): seq<CategorySummary> {
    Sort(le, SummaryKey, SummariesOf(ts, FirstSeen(ts)))
  }

  /** The sidebar the page shows for the rows `ps`. */
  function ExploreIndex(ps: seq<PromptRow>, le: (string, string) -> bool): seq<CategorySummary> {
    SortedSummaries(Tags(ps), le)
  }

  /** One more tagged row: how the labels in first-seen order grow. */
  lemma FirstSeenSnoc(ts: seq<Tagged>, t: Tagged)
    ensures FirstSeen(ts + [t]) ==
              if t.category in FirstSeen(ts) then FirstSeen(ts) else FirstSeen(ts) + [t.category]
  {
    var u := ts + [t];
    assert AllButLast(u) == ts && Last(u) == t;
    LabelsSnoc(u);
    assert AllButLast(Labels(u)) == Labels(ts);
  }

  /** A label no row carries has no count and no id. */
  lemma SummaryOfAbsent(ts: seq<Tagged>, n: string)
    requires n !in FirstSeen(ts)
    ensures SummaryOf(ts, n) == CategorySummary(n, 0, None)
  {
    CountPositiveIffPresent(ts, n);
    FirstIdIsEarliest(ts, n);
    FirstSeenIsNameSet(ts);
  }

  /** One more row changes only its own label's entry: one more in count, and an id if it had none. */
  lemma SummaryOfSnoc(ts: seq<Tagged>, t: Tagged, n: string)
    ensures n != t.category ==> SummaryOf(ts + [t], n) == SummaryOf(ts, n)
    ensures n == t.category ==>
              (var e := SummaryOf(ts, n);
               SummaryOf(ts + [t], n) == e.(count := e.count + 1, id := if !Truthy(e.id) && Truthy(t.id) then t.id else e.id))
  {
    var u := ts + [t];
    assert AllButLast(u) == ts && Last(u) == t;
    FirstIdIsEarliest(ts, n);
  }

  /** `table` and `order` are the page's map after the rows `ts`. */
  ghost predicate Represents(table: map<string, CategorySummary>, order: seq<string>, ts: seq<Tagged>) {
    && order == FirstSeen(ts)
    && (forall n :: n in table <==> n in order)
    && (forall n :: n in table ==> table[n] == SummaryOf(ts, n))
  }

  /**
    * The `forEach` of `fetchCategories`: for each row, create the entry for its
    * label on first sight (with the row's id, if truthy), add one to its count,
    * and fill in a missing id from a later row. `order` is the order in which
    * entries were created.
    */
  method AggregateByName(prompts: seq<PromptRow>) returns (table: map<string, CategorySummary>, order: seq<string>)
    ensures order == FirstSeen(Tags(prompts))
    ensures forall n :: n in table <==> n in order
    ensures forall n :: n in table ==> table[n] == SummaryOf(Tags(prompts), n)
  {
    table, order := map[], [];
    var i := 0;
    while i < |prompts|
      invariant 0 <= i <= |prompts|
      invariant Represents(table, order, Tags(prompts[..i]))
    {
      TagsSnoc(prompts, i);
      table, order := CountRow(table, order, Tags(prompts[..i]), prompts[i]);
      i := i + 1;
    }
    assert prompts[..i] == prompts;
  }

  /** The loop body for one row: create its label's entry if needed, count it, fill in a missing id. */
  method CountRow(table: map<string, CategorySummary>, order: seq<string>, ghost ts: seq<Tagged>, p: PromptRow)
    returns (table': map<string, CategorySummary>, order': seq<string>)
    requires Represents(table, order, ts)
    ensures Represents(table', order', ts + [Tag(p)])
  {
    table', order' := table, order;
    var name := NormalizeName(p.categoryName);
    ghost var t := Tagged(name, p.categoryId);
    FirstSeenSnoc(ts, t);
    if name !in table' {
      SummaryOfAbsent(ts, name);
      table' := table'[name := CategorySummary(name, 0, if Truthy(p.categoryId) then p.categoryId else None)];
      order' := order' + [name];
    }
    var entry := table'[name];
    entry := entry.(count := entry.count + 1);
    if !Truthy(entry.id) && Truthy(p.categoryId) {
      entry := entry.(id := p.categoryId);
    }
    table' := table'[name := entry];
    StepRepresents(table', order', ts, t);
  }

  /** The loop step: after the update for row `t`, the map represents the rows `ts + [t]`. */
  lemma StepRepresents(table: map<string, CategorySummary>, order: seq<string>, ts: seq<Tagged>, t: Tagged)
    requires order == FirstSeen(ts + [t])
    requires forall n :: n in table <==> n in order
    requires forall n :: n in table && n != t.category ==> table[n] == SummaryOf(ts, n)
    requires t.category in table
    requires table[t.category] == var e := SummaryOf(ts, t.category);
               e.(count := e.count + 1, id := if !Truthy(e.id) && Truthy(t.id) then t.id else e.id)
    ensures Represents(table, order, ts + [t])
  {
    forall n | n in table ensures table[n] == SummaryOf(ts + [t], n) {
      SummaryOfSnoc(ts, t, n);
    }
  }

  /**
    * `fetchCategories` from a successful response up to the sorted list:
    * aggregate, take the entries in creation order, sort.
    */
  method BuildCategoryIndex(data: Option<seq<PromptRow>>, le: (string, string) -> bool)
    returns (categories: seq<CategorySummary>)
    ensures categories == ExploreIndex(RowsOf(data), le)
  {
    var prompts := RowsOf(data);
    var table, order := AggregateByName(prompts);
    var values := seq(|order|, j requires 0 <= j < |order| => table[order[j]]);
    assert values == SummariesOf(Tags(prompts), FirstSeen(Tags(prompts)));
    categories := Sort(le, SummaryKey, values);
  }

  /**
    * Each entry of the sidebar belongs to a label some row carries, its count
    * is the number of rows with that label and its id the first truthy id among
    * them; every label of a row has an entry, and no label has two.
    */
  lemma SidebarEntries(ts: seq<Tagged>, le: (string, string) -> bool)
    ensures forall i :: 0 <= i < |SortedSummaries(ts, le)| ==>
              SortedSummaries(ts, le)[i] == SummaryOf(ts, SortedSummaries(ts, le)[i].name)
              && SortedSummaries(ts, le)[i].name in FirstSeen(ts)
              && SortedSummaries(ts, le)[i].count > 0
    ensures forall n :: n in FirstSeen(ts) ==>
              exists i :: 0 <= i < |SortedSummaries(ts, le)| && SortedSummaries(ts, le)[i].name == n
    ensures NamesDistinct(SummaryKey, SortedSummaries(ts, le))
  {
    SidebarEntriesCounted(ts, le);
    SidebarEntriesComplete(ts, le);
  }

  lemma SidebarEntriesCounted(ts: seq<Tagged>, le: (string, string) -> bool)
    ensures forall i :: 0 <= i < |SortedSummaries(ts, le)| ==>
              SortedSummaries(ts, le)[i] == SummaryOf(ts, SortedSummaries(ts, le)[i].name)
              && SortedSummaries(ts, le)[i].name in FirstSeen(ts)
              && SortedSummaries(ts, le)[i].count > 0
  {
    var names := FirstSeen(ts);
    var pre := SummariesOf(ts, names);
    var idx := SortedSummaries(ts, le);
    forall i | 0 <= i < |idx|
      ensures idx[i] == SummaryOf(ts, idx[i].name) && idx[i].name in names && idx[i].count > 0
    {
      assert idx[i] in multiset(pre);
      var j :| 0 <= j < |pre| && pre[j] == idx[i];
      CountPositiveIffPresent(ts, names[j]);
    }
  }

  lemma SidebarEntriesComplete(ts: seq<Tagged>, le: (string, string) -> bool)
    ensures forall n :: n in FirstSeen(ts) ==>
              exists i :: 0 <= i < |SortedSummaries(ts, le)| && SortedSummaries(ts, le)[i].name == n
    ensures NamesDistinct(SummaryKey, SortedSummaries(ts, le))
  {
    var names := FirstSeen(ts);
    var pre := SummariesOf(ts, names);
    var idx := SortedSummaries(ts, le);
    FirstSeenIsNameSet(ts);
    forall n | n in names ensures exists i :: 0 <= i < |idx| && idx[i].name == n {
      var j :| 0 <= j < |names| && names[j] == n;
      assert pre[j] in multiset(idx);
      var i :| 0 <= i < |idx| && idx[i] == pre[j];
    }
    assert NamesDistinct(SummaryKey, pre);
    SortKeepsNamesDistinct(le, SummaryKey, pre);
  }

  /** With a total order on names, the sidebar has non-increasing counts and equal counts in name order. */
  lemma SidebarSorted(ts: seq<Tagged>, le: (string, string) -> bool)
    requires IsTotalOrder(le)
    ensures SortedBy(le, SummaryKey, SortedSummaries(ts, le))
    ensures forall i, j :: 0 <= i < j < |SortedSummaries(ts, le)| ==>
              SortedSummaries(ts, le)[i].count >= SortedSummaries(ts, le)[j].count
  {
    SortSorted(le, SummaryKey, SummariesOf(ts, FirstSeen(ts)));
  }

  lemma {:induction false} SummariesTotal(ts: seq<Tagged>, names: seq<string>)
    ensures TotalCount(SummaryKey, SummariesOf(ts, names)) == CountSum(ts, names)
  {
    if names != [] {
      SummariesTotal(ts, names[1..]);
      assert SummariesOf(ts, names)[1..] == SummariesOf(ts, names[1..]);
    }
  }

  /** The counts of the sidebar add up to the number of rows. */
  lemma SidebarTotal(ts: seq<Tagged>, le: (string, string) -> bool)
    ensures TotalCount(SummaryKey, SortedSummaries(ts, le)) == |ts|
  {
    SortKeepsTotal(le, SummaryKey, SummariesOf(ts, FirstSeen(ts)));
    SummariesTotal(ts, FirstSeen(ts));
    CountsSumToRowCount(ts);
  }

  /** The sidebar is empty, and the page shows its empty state, exactly when there are no rows. */
  lemma SidebarEmptyIffNoRows(ts: seq<Tagged>, le: (string, string) -> bool)
    ensures SortedSummaries(ts, le) == [] <==> ts == []
  {
    SidebarTotal(ts, le);
  }

  /**
    * Whatever order the entries are enumerated in before sorting (JavaScript
    * lists integer-like keys first), the sorted sidebar is the same.
    */
  lemma SidebarIgnoresEnumerationOrder(ts: seq<Tagged>, le: (string, string) -> bool, values: seq<CategorySummary>)
    requires IsTotalOrder(le)
    requires multiset(values) == multiset(SummariesOf(ts, FirstSeen(ts)))
    ensures Sort(le, SummaryKey, values) == SortedSummaries(ts, le)
  {
    var pre := SummariesOf(ts, FirstSeen(ts));
    FirstSeenIsNameSet(ts);
    forall p, q | 0 <= p < |pre| && 0 <= q < |pre| && SummaryKey(pre[p]) == SummaryKey(pre[q])
      ensures pre[p] == pre[q]
    {
      assert pre[p].name == FirstSeen(ts)[p] && pre[q].name == FirstSeen(ts)[q];
    }
    SortIgnoresInputOrder(le, SummaryKey, pre, values);
  }

  /**
    * The members of `Object.prototype`: the names under which a fresh `{}`
    * already holds a truthy value.
    */
  const InheritedMembers: set<string> := {
    "constructor", "__proto__", "hasOwnProperty", "isPrototypeOf", "propertyIsEnumerable",
    "toLocaleString", "toString", "valueOf", "__defineGetter__", "__defineSetter__",
    "__lookupGetter__", "__lookupSetter__"
  }

  /**
    * The state of `categoryMap` as the code is written: its own entries, the
    * `id` that rows have written onto `Object.prototype`, and whether a
    * `TypeError` has ended the loop.
    */
  datatype AsWrittenState = AsWrittenState(entries: map<string, CategorySummary>, protoId: Option<string>, threw: bool)

  /**
    * The aggregation loop as the code is written. The existence test also
    * reads inherited members. A label naming one gets no entry; its count and
    * id are written onto the inherited object instead. For "__proto__" that
    * object is `Object.prototype` itself, so once such a row has written a
    * truthy id there, a later first row labelled "id" finds that string. Its
    * `count += 1` then assigns to a string primitive, which throws in module
    * code.
    */
  function AsWrittenRun(ts: seq<Tagged>): AsWrittenState {
    if ts == [] then AsWrittenState(map[], None, false)
    else
      var s := AsWrittenRun(AllButLast(ts));
      var t := Last(ts);
      if s.threw then s
      else if t.category in s.entries then s.(entries := s.entries[t.category := Bumped(s.entries, t)])
      else if t.category == "__proto__" then
        s.(protoId := if !Truthy(s.protoId) && Truthy(t.id) then t.id else s.protoId)
      else if t.category in InheritedMembers then s
      else if t.category == "id" && Truthy(s.protoId) then s.(threw := true)
      else s.(entries := s.entries[t.category := Bumped(s.entries, t)])
  }

  /** The own entry of the row's label after the row: created if missing, counted, and given an id if it had none. */
  function Bumped(entries: map<string, CategorySummary>, t: Tagged): CategorySummary {
    var created := if t.category in entries then entries[t.category]
                   else CategorySummary(t.category, 0, if Truthy(t.id) then t.id else None);
    var counted := created.(count := created.count + 1);
    if !Truthy(counted.id) && Truthy(t.id) then counted.(id := t.id) else counted
  }

  /** A completed run after one more row: its label's entry is bumped unless the label is an inherited member name. */
  lemma AsWrittenSnoc(ts: seq<Tagged>)
    requires ts != []
    ensures var s, t := AsWrittenRun(AllButLast(ts)), Last(ts);
            !AsWrittenRun(ts).threw ==>
              && !s.threw
              && (t.category in InheritedMembers && t.category !in s.entries ==> AsWrittenRun(ts).entries == s.entries)
              && (t.category !in InheritedMembers ==> AsWrittenRun(ts).entries == s.entries[t.category := Bumped(s.entries, t)])
  {
  }

  /**
    * As written, when the loop completes, a label other than an inherited
    * member name gets its proper entry, and only such labels do.
    */
  lemma {:induction false} AsWrittenEntry(ts: seq<Tagged>, n: string)
    ensures !AsWrittenRun(ts).threw ==>
              (n in AsWrittenRun(ts).entries <==> n in Labels(ts) && n !in InheritedMembers)
    ensures !AsWrittenRun(ts).threw && n in AsWrittenRun(ts).entries ==>
              AsWrittenRun(ts).entries[n] == SummaryOf(ts, n)
  {
    if ts != [] {
      var prefix, t := AllButLast(ts), Last(ts);
      assert ts == prefix + [t];
      AsWrittenEntry(prefix, n);
      AsWrittenEntry(prefix, t.category);
      AsWrittenSnoc(ts);
      LabelsSnoc(ts);
      SummaryOfSnoc(prefix, t, n);
      if n == t.category && n !in Labels(prefix) {
        FirstSeenIsNameSet(prefix);
        SummaryOfAbsent(prefix, n);
      }
    }
  }

  /**
    * Without a "__proto__" row carrying a truthy id, nothing is written onto
    * `Object.prototype.id` and the loop completes.
    */
  lemma {:induction false} AsWrittenCompletes(ts: seq<Tagged>)
    requires forall i :: 0 <= i < |ts| && ts[i].category == "__proto__" ==> !Truthy(ts[i].id)
    ensures AsWrittenRun(ts).protoId == None && !AsWrittenRun(ts).threw
  {
    if ts != [] {
      var prefix := AllButLast(ts);
      forall i | 0 <= i < |prefix| && prefix[i].category == "__proto__" ensures !Truthy(prefix[i].id) {
        assert prefix[i] == ts[i];
      }
      AsWrittenCompletes(prefix);
    }
  }

  /**
    * A single row in category "constructor": the label is present, yet the
    * page as written lists no entry for it, so its count is lost.
    */
  lemma PrototypeLookupDropsCategory(row: PromptRow)
    requires row.categoryName == Some("constructor")
    ensures "constructor" in FirstSeen(Tags([row]))
    ensures AsWrittenRun(Tags([row])).entries == map[] && !AsWrittenRun(Tags([row])).threw
  {
    var ts := Tags([row]);
    assert TrimStart("constructor") == "constructor";
    assert TrimEnd("constructor") == "constructor";
    assert ts[0].category == "constructor";
    FirstSeenIsNameSet(ts);
    assert Labels(ts) == ["constructor"];
    AsWrittenCompletes(ts);
    forall n ensures n !in AsWrittenRun(ts).entries {
      AsWrittenEntry(ts, n);
    }
  }

  /**
    * A "__proto__" row with id "c1" followed by a row labelled "id": the
    * second row reads the string "c1" written onto `Object.prototype`, and
    * the loop throws, so the sidebar shows the failure note.
    */
  lemma PrototypeIdBreaksLoad()
    ensures AsWrittenRun([Tagged("__proto__", Some("c1")), Tagged("id", None)]).threw
  {
    var ts := [Tagged("__proto__", Some("c1")), Tagged("id", None)];
    assert AllButLast(ts) == [ts[0]];
    assert AllButLast([ts[0]]) == [];
  }
}
