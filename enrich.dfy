// The enrichment map, build.js lines 120-131: every poem of the flat list
// gains its tags, its parsed year, its preview and its slug; the list is
// then filtered once more on non-blank content.

module Enrichment {
  import opened Wrappers
  import opened Text
  import opened Decimal
  import opened Flatten
  import opened Tagging
  import opened Years
  import opened Preview
  import opened Seqs

  /** A poem of processedPoems.  decorativeImage is None until the images
      are assigned (build.js lines 146-148). */
  datatype EnrichedPoem = EnrichedPoem(
    title: Option<string>, content: string, year: Option<string>, sourceImage: string, id: nat,
    tags: seq<string>, parsedYear: Option<nat>, preview: string, slug: string,
    decorativeImage: Option<string>)

  /** `poem-${id}`. */
  function Slug(id: nat): string
  {
    "poem-" + DecimalString(id)
  }

  /** Different ids give different slugs. */
  lemma SlugInjective(a: nat, b: nat)
    requires Slug(a) == Slug(b)
    ensures a == b
  {
    assert Slug(a)[5..] == DecimalString(a);
    assert Slug(b)[5..] == DecimalString(b);
    DecimalInjective(a, b);
  }

  /** The object the map callback returns: `{...poem, tags, parsedYear, preview, slug}`,
      with the tags drawn from the given topic table (TopicKeywords in build.js). */
  function Enrich(table: TopicTable, p: Poem): EnrichedPoem
  {
    EnrichedPoem(p.title, p.content, p.year, p.sourceImage, p.id,
                 Topics(table, SearchText(p.title, p.content)), ParseYear(p.year),
                 GetPreview(p.content, DefaultMaxLen), Slug(p.id), None)
  }

  /** The filter's test `p.content && p.content.trim()`. */
  predicate HasBody(p: EnrichedPoem)
  {
    Trim(p.content) != []
  }

  /** `.filter(p => p.content && p.content.trim())`. */
  function WithText(ps: seq<EnrichedPoem>): seq<EnrichedPoem>
  {
    Filter(ps, HasBody)
  }

  /** processedPoems: the map, then the filter. */
  function EnrichAll(table: TopicTable, poems: seq<Poem>): seq<EnrichedPoem>
  {
    WithText(EnrichEach(table, poems))
  }

  /** `poems.map(...)`: every poem enriched, in place. */
  function EnrichEach(table: TopicTable, poems: seq<Poem>): (r: seq<EnrichedPoem>)
    ensures |r| == |poems|
    ensures forall i :: 0 <= i < |poems| ==> r[i] == Enrich(table, poems[i])
  {
    seq(|poems|, i requires 0 <= i < |poems| => Enrich(table, poems[i]))
  }

  /** On the flat list the enrichment keeps every poem in place, with its id,
      and derives each new field from that poem alone. */
  lemma EnrichFlatList(table: TopicTable, data: seq<(string, seq<RawPoem>)>, poems: seq<Poem>)
    requires IsNumbering(poems, Kept(Entries(data)))
    ensures EnrichAll(table, poems) == EnrichEach(table, poems)
    ensures forall i :: 0 <= i < |poems| ==>
      EnrichAll(table, poems)[i].id == i + 1 && EnrichAll(table, poems)[i].slug == Slug(i + 1)
    ensures forall i :: 0 <= i < |poems| ==> !IsBlank(EnrichAll(table, poems)[i].content)
  {
    FlatListFacts(data, poems);
    EnrichKeepsAll(table, poems);
    EnrichEachIds(table, poems);
    EnrichEachBodies(table, poems);
  }

  /** Enriching poems numbered 1, 2, ... keeps each number and makes its slug. */
  lemma EnrichEachIds(table: TopicTable, poems: seq<Poem>)
    requires forall i :: 0 <= i < |poems| ==> poems[i].id == i + 1
    ensures forall i :: 0 <= i < |poems| ==>
      EnrichEach(table, poems)[i].id == i + 1 && EnrichEach(table, poems)[i].slug == Slug(i + 1)
  {
    forall i | 0 <= i < |poems|
      ensures EnrichEach(table, poems)[i].id == i + 1 && EnrichEach(table, poems)[i].slug == Slug(i + 1)
    {
      EnrichKeepsIdentity(table, poems, i);
    }
  }

  /** Enriching keeps each poem's content. */
  lemma EnrichEachBodies(table: TopicTable, poems: seq<Poem>)
    requires forall i :: 0 <= i < |poems| ==> !IsBlank(poems[i].content)
    ensures forall i :: 0 <= i < |poems| ==> !IsBlank(EnrichEach(table, poems)[i].content)
  {
    forall i | 0 <= i < |poems| ensures !IsBlank(EnrichEach(table, poems)[i].content) {
      EnrichKeepsIdentity(table, poems, i);
    }
  }

  /** Enriching keeps a poem's content and id, and the slug is made from the id. */
  lemma EnrichKeepsIdentity(table: TopicTable, poems: seq<Poem>, i: nat)
    requires i < |poems|
    ensures EnrichEach(table, poems)[i].content == poems[i].content
    ensures EnrichEach(table, poems)[i].id == poems[i].id
    ensures EnrichEach(table, poems)[i].slug == Slug(poems[i].id)
  {
  }

  /** When every poem has text the filter after the map removes nothing. */
  lemma EnrichKeepsAll(table: TopicTable, poems: seq<Poem>)
    requires forall i :: 0 <= i < |poems| ==> !IsBlank(poems[i].content)
    ensures EnrichAll(table, poems) == EnrichEach(table, poems)
  {
    var mapped := EnrichEach(table, poems);
    forall i | 0 <= i < |mapped| ensures HasBody(mapped[i]) {
      TrimEmptyIffBlank(poems[i].content);
    }
    FilterKeepsAll(mapped, HasBody);
  }
}

// The sort of processedPoems by year, build.js lines 133-139.

module YearSort {
  import opened Wrappers
  import opened Seqs
  import opened Enrichment

  /** `!p.parsedYear` is false: a year is present and is not 0 (which "0000" gives). */
  predicate HasYear(p: EnrichedPoem)
  {
    p.parsedYear.Some? && p.parsedYear.value != 0
  }

  /** The comparator: poems without a year after all others, years ascending. */
  function Compare(a: EnrichedPoem, b: EnrichedPoem): int
  {
    if !HasYear(a) && !HasYear(b) then 0
    else if !HasYear(a) then 1
    else if !HasYear(b) then -1
    else a.parsedYear.value - b.parsedYear.value
  }

  /** The comparator is consistent, as Array.prototype.sort requires: it is
      antisymmetric and its "not after" relation is a total preorder. */
  lemma CompareConsistent(a: EnrichedPoem, b: EnrichedPoem, c: EnrichedPoem)
    ensures Compare(a, b) == -Compare(b, a)
    ensures Compare(a, a) == 0
    ensures Compare(a, b) <= 0 && Compare(b, c) <= 0 ==> Compare(a, c) <= 0
    ensures Compare(a, b) == 0 && Compare(b, c) == 0 ==> Compare(a, c) == 0
  {
  }

  /** Inserts x after the last element that does not compare after it. */
  function Insert(s: seq<EnrichedPoem>, x: EnrichedPoem): seq<EnrichedPoem>
  {
    if s == [] then [x]
    else if Compare(s[|s| - 1], x) > 0 then Insert(s[..|s| - 1], x) + [s[|s| - 1]]
    else s + [x]
  }

  /** The stable sort of s under Compare, as insertion sort computes it. */
  function SortByYear(s: seq<EnrichedPoem>): seq<EnrichedPoem>
  {
    if s == [] then [] else Insert(SortByYear(s[..|s| - 1]), s[|s| - 1])
  }

  /** The sorted prefix grows by inserting the next element. */
  lemma SortPrefixStep(s: seq<EnrichedPoem>, i: nat)
    requires i < |s|
    ensures SortByYear(s[..i + 1]) == Insert(SortByYear(s[..i]), s[i])
  {
    assert s[..i + 1][..i] == s[..i];
  }

  /** Insert puts x at j when the elements from j on compare after x and the
      one before j does not. */
  lemma {:induction false} InsertAt(s: seq<EnrichedPoem>, x: EnrichedPoem, j: nat)
    requires j <= |s|
    requires forall k :: j <= k < |s| ==> Compare(s[k], x) > 0
    requires j == 0 || Compare(s[j - 1], x) <= 0
    ensures Insert(s, x) == s[..j] + [x] + s[j..]
  {
    if j < |s| {
      var init := s[..|s| - 1];
      InsertAt(init, x, j);
      SplitInit(s, j);
    } else if s != [] {
      assert s[..j] == s && s[j..] == [];
    }
  }

  /** b is sorted with x placed at j, the elements from j on shifted one up. */
  lemma ShiftedInsert(b: seq<EnrichedPoem>, sorted: seq<EnrichedPoem>, x: EnrichedPoem, j: nat)
    requires |b| == |sorted| + 1 && j <= |sorted| && b[j] == x
    requires forall k :: 0 <= k < j ==> b[k] == sorted[k]
    requires forall k :: j < k < |b| ==> b[k] == sorted[k - 1]
    ensures b == sorted[..j] + [x] + sorted[j..]
  {
  }

  /** One step of the insertion sort: a[i] moves left past the elements of
      the sorted prefix a[..i] that compare after it. */
  method InsertInto(a: array<EnrichedPoem>, i: nat)
    requires i < a.Length
    modifies a
    ensures a[..i + 1] == Insert(old(a[..i]), old(a[i]))
    ensures a[i + 1..] == old(a[i + 1..])
  {
    var x := a[i];
    ghost var sorted := a[..i];
    ghost var rest := a[i + 1..];
    var j := i;
    while j > 0 && Compare(a[j - 1], x) > 0
      invariant 0 <= j <= i
      invariant forall k :: 0 <= k < j ==> a[k] == sorted[k]
      invariant forall k :: j < k <= i ==> a[k] == sorted[k - 1]
      invariant a[i + 1..] == rest
      invariant forall k :: j <= k < i ==> Compare(sorted[k], x) > 0
    {
      a[j] := a[j - 1];
      j := j - 1;
    }
    a[j] := x;
    InsertAt(sorted, x, j);
    ShiftedInsert(a[..i + 1], sorted, x, j);
  }

  /** processedPoems.sort(compare), in place.  Array.prototype.sort is stable
      and the comparator consistent, so every stable sort gives this result. */
  method SortPoemsByYear(a: array<EnrichedPoem>)
    modifies a
    ensures a[..] == SortByYear(old(a[..]))
  {
    ghost var orig := a[..];
    for i := 0 to a.Length
      invariant a[..i] == SortByYear(orig[..i])
      invariant a[i..] == orig[i..]
    {
      assert a[i] == orig[i];
      InsertInto(a, i);
      SortPrefixStep(orig, i);
    }
    assert orig[..a.Length] == orig;
  }

  /** Where Insert puts x: after every element that does not compare after
      it and before the run of elements at the end that do. */
  lemma {:induction false} InsertSplit(s: seq<EnrichedPoem>, x: EnrichedPoem) returns (j: nat)
    ensures j <= |s| && Insert(s, x) == s[..j] + [x] + s[j..]
    ensures forall k :: j <= k < |s| ==> Compare(s[k], x) > 0
    ensures j == 0 || Compare(s[j - 1], x) <= 0
  {
    if s == [] {
      j := 0;
    } else if Compare(s[|s| - 1], x) > 0 {
      var init := s[..|s| - 1];
      j := InsertSplit(init, x);
      SplitInit(s, j);
    } else {
      j := |s|;
      assert s[..j] == s && s[j..] == [];
    }
  }

  /** Insert adds x and nothing else. */
  lemma {:induction false} InsertPermutes(t: seq<EnrichedPoem>, x: EnrichedPoem)
    ensures multiset(Insert(t, x)) == multiset(t) + multiset{x}
  {
    if t != [] && Compare(t[|t| - 1], x) > 0 {
      InsertPermutes(t[..|t| - 1], x);
      InitLast(t);
    }
  }

  /** The sort is a permutation. */
  lemma {:induction false} SortByYearPermutes(s: seq<EnrichedPoem>)
    ensures multiset(SortByYear(s)) == multiset(s)
  {
    if s != [] {
      var init := s[..|s| - 1];
      var last := s[|s| - 1];
      SortByYearPermutes(init);
      InsertPermutes(SortByYear(init), last);
      InitLast(s);
    }
  }

  /** Neighbours come in comparator order. */
  predicate YearOrdered(s: seq<EnrichedPoem>)
  {
    forall i :: 0 < i < |s| ==> Compare(s[i - 1], s[i]) <= 0
  }

  /** The sort's result is in comparator order. */
  lemma {:induction false} SortByYearOrdered(s: seq<EnrichedPoem>)
    ensures YearOrdered(SortByYear(s))
  {
    if s != [] {
      var init := s[..|s| - 1];
      SortByYearOrdered(init);
      InsertOrdered(SortByYear(init), s[|s| - 1]);
    }
  }

  lemma InsertOrdered(t: seq<EnrichedPoem>, x: EnrichedPoem)
    requires YearOrdered(t)
    ensures YearOrdered(Insert(t, x))
  {
    var j := InsertSplit(t, x);
    var r := Insert(t, x);
    forall i | 0 < i < |r| ensures Compare(r[i - 1], r[i]) <= 0 {
      if i < j {
        assert r[i - 1] == t[i - 1] && r[i] == t[i];
      } else if i == j {
        assert r[i - 1] == t[j - 1] && r[i] == x;
      } else if i == j + 1 {
        assert r[i - 1] == x && r[i] == t[j];
        CompareConsistent(x, t[j], x);
      } else {
        assert r[i - 1] == t[i - 2] && r[i] == t[i - 1];
      }
    }
  }

  /** What the order means for processedPoems: poems with a year come before
      poems without one, and the years do not decrease. */
  lemma {:induction false} YearOrderedMeaning(s: seq<EnrichedPoem>, i: nat, j: nat)
    requires YearOrdered(s) && i < j < |s|
    ensures HasYear(s[j]) ==> HasYear(s[i])
    ensures HasYear(s[i]) && HasYear(s[j]) ==> s[i].parsedYear.value <= s[j].parsedYear.value
    decreases j - i
  {
    assert Compare(s[j - 1], s[j]) <= 0;
    if i < j - 1 {
      YearOrderedMeaning(s, i, j - 1);
    }
  }

  /** The poems of s that compare equal to y (the same year, or both
      without one), in their order in s. */
  function RankClass(s: seq<EnrichedPoem>, y: EnrichedPoem): seq<EnrichedPoem>
  {
    if s == [] then []
    else RankClass(s[..|s| - 1], y) + (if Compare(s[|s| - 1], y) == 0 then [s[|s| - 1]] else [])
  }

  lemma RankClassSnoc(s: seq<EnrichedPoem>, x: EnrichedPoem, y: EnrichedPoem)
    ensures RankClass(s + [x], y) == RankClass(s, y) + (if Compare(x, y) == 0 then [x] else [])
  {
    assert (s + [x])[..|s|] == s;
  }

  /** Inserting x extends x's rank class at its end and leaves the others alone. */
  lemma {:induction false} InsertStable(t: seq<EnrichedPoem>, x: EnrichedPoem, y: EnrichedPoem)
    ensures RankClass(Insert(t, x), y) == RankClass(t + [x], y)
  {
    if t != [] && Compare(t[|t| - 1], x) > 0 {
      var init, last := t[..|t| - 1], t[|t| - 1];
      InsertStable(init, x, y);
      RankClassSwap(Insert(init, x), init, x, last, y);
      InitLast(t);
    }
  }

  /** x may move in front of an element that compares after it without
      changing any rank class. */
  lemma RankClassSwap(u: seq<EnrichedPoem>, v: seq<EnrichedPoem>, x: EnrichedPoem, last: EnrichedPoem, y: EnrichedPoem)
    requires RankClass(u, y) == RankClass(v + [x], y)
    requires Compare(last, x) > 0
    ensures RankClass(u + [last], y) == RankClass(v + [last] + [x], y)
  {
    RankClassSnoc(u, last, y);
    RankClassSnoc(v, x, y);
    RankClassSnoc(v, last, y);
    RankClassSnoc(v + [last], x, y);
    CompareConsistent(y, x, y);
    CompareConsistent(last, y, x);
  }

  /** The sort is stable: within every rank class the order of the input is kept. */
  lemma {:induction false} SortByYearStable(s: seq<EnrichedPoem>, y: EnrichedPoem)
    ensures RankClass(SortByYear(s), y) == RankClass(s, y)
  {
    if s != [] {
      var init := s[..|s| - 1];
      var last := s[|s| - 1];
      SortByYearStable(init, y);
      InsertStable(SortByYear(init), last, y);
      RankClassSnoc(SortByYear(init), last, y);
      RankClassSnoc(init, last, y);
      InitLast(s);
    }
  }

  /** Ids increase along s. */
  predicate IdsIncreasing(s: seq<EnrichedPoem>)
  {
    forall i, j :: 0 <= i < j < |s| ==> s[i].id < s[j].id
  }

  lemma {:induction false} RankClassMembers(s: seq<EnrichedPoem>, y: EnrichedPoem, p: EnrichedPoem)
    requires p in RankClass(s, y)
    ensures p in s
  {
    var init := s[..|s| - 1];
    if p in RankClass(init, y) {
      RankClassMembers(init, y, p);
      InitLast(s);
    }
  }

  lemma {:induction false} RankClassIds(s: seq<EnrichedPoem>, y: EnrichedPoem)
    requires IdsIncreasing(s)
    ensures IdsIncreasing(RankClass(s, y))
  {
    if s != [] {
      var init, last := s[..|s| - 1], s[|s| - 1];
      RankClassIds(init, y);
      var c := RankClass(init, y);
      forall k | 0 <= k < |c| ensures c[k].id < last.id {
        RankClassMembers(init, y, c[k]);
      }
    }
  }

  /** Poems of the same year keep their id order through the sort when the
      input came in id order, as the flat list does. */
  lemma SortKeepsIdOrderOfTies(s: seq<EnrichedPoem>, y: EnrichedPoem)
    requires IdsIncreasing(s)
    ensures IdsIncreasing(RankClass(SortByYear(s), y))
  {
    SortByYearStable(s, y);
    RankClassIds(s, y);
  }
}
