// The stages of build.js lines 10-148 in the order the script runs them:
// flatten, enrich and filter, sort by year in place, then assign images.

module Pipeline {
  import opened Text
  import opened Flatten
  import opened Tagging
  import opened Enrichment
  import opened YearSort
  import opened Images
  import opened Facets

  /** processedPoems as the script leaves it before the page is written
      (the flat list, enriched, sorted by year and decorated), with the
      years and allTags facets drawn from the sorted list. */
  method ProcessPoems(table: TopicTable, data: seq<(string, seq<RawPoem>)>)
    returns (poems: seq<Poem>, processed: array<EnrichedPoem>, years: seq<nat>, allTags: seq<string>)
    ensures fresh(processed)
    ensures IsNumbering(poems, Kept(Entries(data)))
    ensures processed[..] == DecorateAll(SortByYear(EnrichAll(table, poems)))
    ensures processed.Length == |poems|
    ensures YearOrdered(processed[..])
    ensures years == YearFacet(SortByYear(EnrichAll(table, poems)))
    ensures allTags == TagFacet(SortByYear(EnrichAll(table, poems)))
  {
    poems := FlattenPoems(data);
    EnrichFlatList(table, data, poems);
    processed, years, allTags := SortAndDecorate(EnrichAll(table, poems));
  }

  /** The sort, the two facets and the image assignment, on an array holding
      the enriched list. */
  method SortAndDecorate(enriched: seq<EnrichedPoem>)
    returns (processed: array<EnrichedPoem>, years: seq<nat>, allTags: seq<string>)
    ensures fresh(processed)
    ensures processed[..] == DecorateAll(SortByYear(enriched))
    ensures processed.Length == |enriched|
    ensures YearOrdered(processed[..])
    ensures years == YearFacet(SortByYear(enriched))
    ensures allTags == TagFacet(SortByYear(enriched))
  {
    processed := new EnrichedPoem[|enriched|](i requires 0 <= i < |enriched| => enriched[i]);
    assert processed[..] == enriched;
    SortPoemsByYear(processed);
    years := YearFacet(processed[..]);
    allTags := TagFacet(processed[..]);
    AssignDecorativeImages(processed);
    DecoratedSortFacts(enriched);
  }

  /** Sorting and decorating keep the number of poems, and the result is in
      the comparator's order. */
  lemma DecoratedSortFacts(s: seq<EnrichedPoem>)
    ensures |DecorateAll(SortByYear(s))| == |s|
    ensures YearOrdered(DecorateAll(SortByYear(s)))
  {
    SortByYearPermutes(s);
    assert |multiset(SortByYear(s))| == |multiset(s)|;
    SortByYearOrdered(s);
    DecorationKeepsOrder(SortByYear(s));
  }
}
