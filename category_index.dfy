/**
  * What both pages compute per category from the rows of
  * `get_public_prompts_with_authors`: the normalised name of each row, how
  * many rows carry a name, and the first category id seen for it.
  */
module CategoryIndex {
  import opened Wrappers
  import opened Text
  import opened Collections

  /** The fields of a returned prompt row that the modelled logic reads. */
  datatype PromptRow = PromptRow(
    categoryName: Option<string>,
    categoryId: Option<string>,
    fileUrl: Option<string>,
    authorEmail: Option<string>,
    userId: Option<string>)

  /**
    * The reply of `rpc('get_public_prompts_with_authors', ...)`: an error,
    * which the pages throw, or the possibly null row list.
    */
  datatype RpcResult = RpcError | RpcData(rows: Option<seq<PromptRow>>)

  const Uncategorized: string := "Uncategorized"

  /**
    * The label a row is grouped under: the name, or "Uncategorized" when it
    * is falsy, trimmed, and "Uncategorized" again when nothing is left.
    */
  function NormalizeName(name: Option<string>): string {
    var t := Trim(OrElse(name, Uncategorized));
    if t == "" then Uncategorized else t
  }

  /**
    * Labels are never empty and already trimmed; missing, empty and blank names
    * all become "Uncategorized", and any other name is trimmed.
    */
  lemma NormalizeNameFacts(name: Option<string>)
    ensures NormalizeName(name) != "" && Trim(NormalizeName(name)) == NormalizeName(name)
    ensures name.None? || AllWhitespace(name.value) ==> NormalizeName(name) == Uncategorized
    ensures name.Some? && !AllWhitespace(name.value) ==> NormalizeName(name) == Trim(name.value)
  {
    assert TrimStart(Uncategorized) == Uncategorized;
    assert TrimEnd(Uncategorized) == Uncategorized;
    var s := OrElse(name, Uncategorized);
    TrimIdempotent(s);
    TrimEmptyIffBlank(s);
    TrimEmptyIffBlank(name.GetOr(""));
  }

  /** Missing, empty and whitespace-only names all land in the one "Uncategorized" group. */
  lemma BlankNamesMerge(p: PromptRow, q: PromptRow)
    requires p.categoryName.None? || AllWhitespace(p.categoryName.value)
    requires q.categoryName.None? || AllWhitespace(q.categoryName.value)
    ensures Tag(p).category == Tag(q).category == Uncategorized
  {
    NormalizeNameFacts(p.categoryName);
    NormalizeNameFacts(q.categoryName);
  }

  /** A row as the aggregators see it: its label and its category id. */
  datatype Tagged = Tagged(category: string, id: Option<string>)

  function Tag(p: PromptRow): Tagged {
    Tagged(NormalizeName(p.categoryName), p.categoryId)
  }

  /** The tagged form of every row, in row order. */
  function Tags(ps: seq<PromptRow>): seq<Tagged> {
    MapSeq(Tag, ps)
  }

  function Label(t: Tagged): string {
    t.category
  }

  /** The label of every row, in row order. */
  function Labels(ts: seq<Tagged>): seq<string> {
    MapSeq(Label, ts)
  }

  /** How many rows are grouped under `name`. */
  function CountNamed(ts: seq<Tagged>, name: string): nat {
    if ts == [] then 0
    else CountNamed(AllButLast(ts), name) + (if Last(ts).category == name then 1 else 0)
  }

  /** A row that would give its category entry an id: it carries the name and a truthy id. */
  predicate ProvidesId(t: Tagged, name: string) {
    t.category == name && Truthy(t.id)
  }

  /** The id of the first row that provides one for `name`, or null. */
  function FirstIdNamed(ts: seq<Tagged>, name: string): Option<string> {
    if ts == [] then None
    else
      var earlier := FirstIdNamed(AllButLast(ts), name);
      if earlier.Some? then earlier
      else if ProvidesId(Last(ts), name) then Last(ts).id
      else None
  }

  /** The distinct labels in order of first appearance: the insertion order of the page's map. */
  function FirstSeen(ts: seq<Tagged>): seq<string> {
    Dedupe(Labels(ts))
  }

  /** Extending the rows by one row extends the tags by its tag. */
  lemma TagsSnoc(ps: seq<PromptRow>, i: nat)
    requires i < |ps|
    ensures Tags(ps[..i + 1]) == Tags(ps[..i]) + [Tag(ps[i])]
  {
    MapSeqPrefixSnoc(Tag, ps, i);
  }

  /** Extending the tags by one extends the labels by its label. */
  lemma LabelsSnoc(ts: seq<Tagged>)
    requires ts != []
    ensures Labels(ts) == Labels(AllButLast(ts)) + [Last(ts).category]
  {
    MapSeqPrefixSnoc(Label, ts, |ts| - 1);
    assert ts[..|ts|] == ts;
  }

  /** The labels in FirstSeen are exactly the labels of the rows, each once. */
  lemma FirstSeenIsNameSet(ts: seq<Tagged>)
    ensures Distinct(FirstSeen(ts))
    ensures forall n :: n in FirstSeen(ts) <==> exists i :: 0 <= i < |ts| && ts[i].category == n
  {
    forall n ensures n in Labels(ts) <==> exists i :: 0 <= i < |ts| && ts[i].category == n {
      if n in Labels(ts) {
        var i :| 0 <= i < |ts| && Labels(ts)[i] == n;
      }
    }
  }

  /** The count of a name is how often it occurs among the row labels. */
  lemma {:induction false} CountIsMultiplicity(ts: seq<Tagged>, name: string)
    ensures CountNamed(ts, name) == multiset(Labels(ts))[name]
  {
    if ts != [] {
      CountIsMultiplicity(AllButLast(ts), name);
      LabelsSnoc(ts);
    }
  }

  /** A name has a positive count exactly when some row carries it. */
  lemma CountPositiveIffPresent(ts: seq<Tagged>, name: string)
    ensures CountNamed(ts, name) > 0 <==> name in FirstSeen(ts)
  {
    CountIsMultiplicity(ts, name);
  }

  /**
    * FirstIdNamed picks the id of the earliest row that provides one, and is
    * null exactly when no row does.
    */
  lemma {:induction false} FirstIdIsEarliest(ts: seq<Tagged>, name: string)
    ensures FirstIdNamed(ts, name).None? <==> forall i :: 0 <= i < |ts| ==> !ProvidesId(ts[i], name)
    ensures FirstIdNamed(ts, name).Some? ==>
              exists j :: 0 <= j < |ts| && ProvidesId(ts[j], name) && FirstIdNamed(ts, name) == ts[j].id
                && forall k :: 0 <= k < j ==> !ProvidesId(ts[k], name)
  {
    if ts != [] {
      var p := AllButLast(ts);
      FirstIdIsEarliest(p, name);
      assert forall i :: 0 <= i < |p| ==> p[i] == ts[i];
      if FirstIdNamed(p, name).Some? {
        var j :| 0 <= j < |p| && ProvidesId(p[j], name) && FirstIdNamed(p, name) == p[j].id
          && forall k :: 0 <= k < j ==> !ProvidesId(p[k], name);
        assert ProvidesId(ts[j], name);
      }
    }
  }

  /** Later rows never replace an id already found: more rows keep the first id. */
  lemma {:induction false} FirstIdNeverReplaced(a: seq<Tagged>, b: seq<Tagged>, name: string)
    requires FirstIdNamed(a, name).Some?
    ensures FirstIdNamed(a + b, name) == FirstIdNamed(a, name)
  {
    if b == [] {
      assert a + b == a;
    } else {
      FirstIdNeverReplaced(a, AllButLast(b), name);
      assert AllButLast(a + b) == a + AllButLast(b);
    }
  }

  /** The sum of the counts of the given names. */
  function CountSum(ts: seq<Tagged>, names: seq<string>): nat {
    if names == [] then 0 else CountNamed(ts, names[0]) + CountSum(ts, names[1..])
  }

  lemma {:induction false} CountSumOfNoRows(names: seq<string>)
    ensures CountSum([], names) == 0
  {
    if names != [] {
      CountSumOfNoRows(names[1..]);
    }
  }

  lemma {:induction false} CountSumSnoc(ts: seq<Tagged>, names: seq<string>)
    requires ts != []
    ensures CountSum(ts, names) == CountSum(AllButLast(ts), names) + Occurrences(names, Last(ts).category)
  {
    if names != [] {
      CountSumSnoc(ts, names[1..]);
    }
  }

  /**
    * Counting over distinct names that include every row's label accounts for
    * every row exactly once.
    */
  lemma {:induction false} CountsCoverAllRows(ts: seq<Tagged>, names: seq<string>)
    requires Distinct(names)
    requires forall i :: 0 <= i < |ts| ==> ts[i].category in names
    ensures CountSum(ts, names) == |ts|
  {
    if ts == [] {
      CountSumOfNoRows(names);
    } else {
      var p := AllButLast(ts);
      assert forall i :: 0 <= i < |p| ==> p[i] == ts[i];
      CountsCoverAllRows(p, names);
      CountSumSnoc(ts, names);
      assert Last(ts) == ts[|ts| - 1];
      DistinctOccursOnce(names, Last(ts).category);
    }
  }

  /** In particular the counts of the FirstSeen labels add up to the number of rows. */
  lemma CountsSumToRowCount(ts: seq<Tagged>)
    ensures CountSum(ts, FirstSeen(ts)) == |ts|
  {
    FirstSeenIsNameSet(ts);
    CountsCoverAllRows(ts, FirstSeen(ts));
  }
}
