// The two facets of build.js lines 141-143: the distinct truthy years and the
// distinct tags of processedPoems, each put through Array.prototype.sort
// without a comparator, which orders elements by their string forms.

module Facets {
  import opened StringOrder
  import opened Decimal
  import opened Seqs
  import opened Enrichment
  import opened YearSort

  /** `[...new Set(s)]`: every element at its first occurrence. */
  function Dedup<T(==)>(s: seq<T>): seq<T>
  {
    if s == [] then []
    else
      var d := Dedup(s[..|s| - 1]);
      if s[|s| - 1] in d then d else d + [s[|s| - 1]]
  }

  /** The set keeps one copy of every element and nothing else. */
  lemma {:induction false} DedupFacts<T>(s: seq<T>)
    ensures NoDup(Dedup(s))
    ensures forall x :: x in Dedup(s) <==> x in s
  {
    if s != [] {
      var init := s[..|s| - 1];
      DedupFacts(init);
      InitLast(s);
      assert forall x :: x in s <==> x in init || x == s[|s| - 1];
    }
  }

  /** Inserts x after the last element whose key is not greater than x's. */
  function InsertBy<T>(s: seq<T>, x: T, key: T -> string): seq<T>
  {
    if s == [] then [x]
    else if StrLess(key(x), key(s[|s| - 1])) then InsertBy(s[..|s| - 1], x, key) + [s[|s| - 1]]
    else s + [x]
  }

  /** The sort by the string form key gives each element. */
  function SortBy<T>(s: seq<T>, key: T -> string): seq<T>
  {
    if s == [] then [] else InsertBy(SortBy(s[..|s| - 1], key), s[|s| - 1], key)
  }

  /** Keys strictly increase between neighbours. */
  predicate StrictlySorted<T>(s: seq<T>, key: T -> string)
  {
    forall i :: 0 < i < |s| ==> StrLess(key(s[i - 1]), key(s[i]))
  }

  /** No two elements share a key. */
  predicate DistinctKeys<T>(s: seq<T>, key: T -> string)
  {
    forall i, j :: 0 <= i < j < |s| ==> key(s[i]) != key(s[j])
  }

  lemma {:induction false} InsertBySplit<T>(s: seq<T>, x: T, key: T -> string) returns (j: nat)
    ensures j <= |s| && InsertBy(s, x, key) == s[..j] + [x] + s[j..]
    ensures forall k :: j <= k < |s| ==> StrLess(key(x), key(s[k]))
    ensures j == 0 || !StrLess(key(x), key(s[j - 1]))
  {
    if s == [] {
      j := 0;
    } else if StrLess(key(x), key(s[|s| - 1])) {
      j := InsertBySplit(s[..|s| - 1], x, key);
      SplitInit(s, j);
    } else {
      j := |s|;
      assert s[..j] == s && s[j..] == [];
    }
  }

  lemma {:induction false} InsertByPermutes<T>(s: seq<T>, x: T, key: T -> string)
    ensures multiset(InsertBy(s, x, key)) == multiset(s) + multiset{x}
  {
    if s != [] && StrLess(key(x), key(s[|s| - 1])) {
      InsertByPermutes(s[..|s| - 1], x, key);
      InitLast(s);
    }
  }

  /** The sort is a permutation. */
  lemma {:induction false} SortByPermutes<T>(s: seq<T>, key: T -> string)
    ensures multiset(SortBy(s, key)) == multiset(s)
  {
    if s != [] {
      var init := s[..|s| - 1];
      SortByPermutes(init, key);
      InsertByPermutes(SortBy(init, key), s[|s| - 1], key);
      InitLast(s);
    }
  }

  lemma InsertBySorted<T>(s: seq<T>, x: T, key: T -> string)
    requires StrictlySorted(s, key)
    requires forall k :: 0 <= k < |s| ==> key(s[k]) != key(x)
    ensures StrictlySorted(InsertBy(s, x, key), key)
  {
    var j := InsertBySplit(s, x, key);
    var r := InsertBy(s, x, key);
    forall i | 0 < i < |r| ensures StrLess(key(r[i - 1]), key(r[i])) {
      if i < j {
        assert r[i - 1] == s[i - 1] && r[i] == s[i];
      } else if i == j {
        assert r[i - 1] == s[j - 1] && r[i] == x;
        StrLessTotal(key(x), key(s[j - 1]));
      } else if i == j + 1 {
        assert r[i - 1] == x && r[i] == s[j];
      } else {
        assert r[i - 1] == s[i - 2] && r[i] == s[i - 1];
      }
    }
  }

  /** Sorting elements with distinct keys makes the keys strictly increase. */
  lemma {:induction false} SortBySorted<T>(s: seq<T>, key: T -> string)
    requires DistinctKeys(s, key)
    ensures StrictlySorted(SortBy(s, key), key)
  {
    if s != [] {
      var init, last := s[..|s| - 1], s[|s| - 1];
      assert DistinctKeys(init, key);
      SortBySorted(init, key);
      var t := SortBy(init, key);
      SortByPermutes(init, key);
      forall k | 0 <= k < |t| ensures key(t[k]) != key(last) {
        assert t[k] in multiset(init);
        var m :| 0 <= m < |init| && init[m] == t[k];
        assert s[m] == t[k];
      }
      InsertBySorted(t, last, key);
    }
  }

  /** Strictly increasing neighbours make every pair strictly increasing. */
  lemma {:induction false} StrictlySortedPairs<T>(s: seq<T>, key: T -> string, i: nat, j: nat)
    requires StrictlySorted(s, key) && i < j < |s|
    ensures StrLess(key(s[i]), key(s[j]))
    decreases j - i
  {
    if i < j - 1 {
      StrictlySortedPairs(s, key, i, j - 1);
      StrLessTransitive(key(s[i]), key(s[j - 1]), key(s[j]));
    }
  }

  /** `processedPoems.map(p => p.parsedYear).filter(Boolean)`. */
  function TruthyYears(ps: seq<EnrichedPoem>): seq<nat>
  {
    if ps == [] then []
    else
      var last := ps[|ps| - 1];
      TruthyYears(ps[..|ps| - 1]) + (if HasYear(last) then [last.parsedYear.value] else [])
  }

  /** `processedPoems.flatMap(p => p.tags)`. */
  function AllTagsOf(ps: seq<EnrichedPoem>): seq<string>
  {
    if ps == [] then [] else AllTagsOf(ps[..|ps| - 1]) + ps[|ps| - 1].tags
  }

  /** The string form of a string is itself. */
  function AsString(t: string): string
  {
    t
  }

  /** The years facet. */
  function YearFacet(ps: seq<EnrichedPoem>): seq<nat>
  {
    SortBy(Dedup(TruthyYears(ps)), DecimalString)
  }

  /** The allTags facet. */
  function TagFacet(ps: seq<EnrichedPoem>): seq<string>
  {
    SortBy(Dedup(AllTagsOf(ps)), AsString)
  }

  lemma {:induction false} TruthyYearsMembers(ps: seq<EnrichedPoem>, y: nat)
    ensures y in TruthyYears(ps) <==> exists i :: 0 <= i < |ps| && HasYear(ps[i]) && ps[i].parsedYear.value == y
  {
    if ps != [] {
      var init := ps[..|ps| - 1];
      TruthyYearsMembers(init, y);
      if y in TruthyYears(ps) && y !in TruthyYears(init) {
        assert HasYear(ps[|ps| - 1]) && ps[|ps| - 1].parsedYear.value == y;
      }
      if !(y in TruthyYears(ps)) {
        forall i | 0 <= i < |ps| ensures !(HasYear(ps[i]) && ps[i].parsedYear.value == y) {
          if i < |ps| - 1 {
            assert ps[i] == init[i];
          }
        }
      }
    }
  }

  lemma {:induction false} AllTagsMembers(ps: seq<EnrichedPoem>, t: string)
    ensures t in AllTagsOf(ps) <==> exists i :: 0 <= i < |ps| && t in ps[i].tags
  {
    if ps != [] {
      var init := ps[..|ps| - 1];
      AllTagsMembers(init, t);
      if !(t in AllTagsOf(ps)) {
        forall i | 0 <= i < |ps| ensures t !in ps[i].tags {
          if i < |ps| - 1 {
            assert ps[i] == init[i];
          }
        }
      }
    }
  }

  /** Elements of a duplicate-free sequence have distinct keys under an injective key. */
  lemma DistinctYearKeys(s: seq<nat>)
    requires NoDup(s)
    ensures DistinctKeys(s, DecimalString)
  {
    forall i, j | 0 <= i < j < |s| ensures DecimalString(s[i]) != DecimalString(s[j]) {
      if DecimalString(s[i]) == DecimalString(s[j]) {
        DecimalInjective(s[i], s[j]);
      }
    }
  }

  /** The years facet holds every truthy year once, and the string forms of
      its years strictly increase. */
  lemma YearFacetFacts(ps: seq<EnrichedPoem>)
    ensures StrictlySorted(YearFacet(ps), DecimalString)
    ensures NoDup(YearFacet(ps))
    ensures forall y :: y in YearFacet(ps) <==>
      exists i :: 0 <= i < |ps| && HasYear(ps[i]) && ps[i].parsedYear.value == y
  {
    var d := Dedup(TruthyYears(ps));
    DedupFacts(TruthyYears(ps));
    DistinctYearKeys(d);
    SortBySorted(d, DecimalString);
    SortByPermutes(d, DecimalString);
    var f := YearFacet(ps);
    forall i, j | 0 <= i < j < |f| ensures f[i] != f[j] {
      StrictlySortedPairs(f, DecimalString, i, j);
      StrLessIrreflexive(DecimalString(f[i]));
    }
    forall y ensures y in YearFacet(ps) <==>
      exists i :: 0 <= i < |ps| && HasYear(ps[i]) && ps[i].parsedYear.value == y
    {
      assert y in YearFacet(ps) <==> y in multiset(d);
      TruthyYearsMembers(ps, y);
    }
  }

  /** When every year has four digits the string order is the numeric order,
      so the years facet ascends numerically. */
  lemma YearFacetNumeric(ps: seq<EnrichedPoem>)
    requires forall i :: 0 <= i < |ps| && HasYear(ps[i]) ==> 1000 <= ps[i].parsedYear.value <= 9999
    ensures forall i, j :: 0 <= i < j < |YearFacet(ps)| ==> YearFacet(ps)[i] < YearFacet(ps)[j]
  {
    var f := YearFacet(ps);
    YearFacetFacts(ps);
    forall i, j | 0 <= i < j < |f| ensures f[i] < f[j] {
      StrictlySortedPairs(f, DecimalString, i, j);
      assert f[i] in f && f[j] in f;
      FourDigitWidth(f[i]);
      FourDigitWidth(f[j]);
      SameWidthOrder(f[i], f[j]);
    }
  }

  /** The tags facet holds every tag of every poem once, in strictly
      increasing string order. */
  lemma TagFacetFacts(ps: seq<EnrichedPoem>)
    ensures forall i, j :: 0 <= i < j < |TagFacet(ps)| ==> StrLess(TagFacet(ps)[i], TagFacet(ps)[j])
    ensures forall t :: t in TagFacet(ps) <==> exists i :: 0 <= i < |ps| && t in ps[i].tags
  {
    var d := Dedup(AllTagsOf(ps));
    var f := TagFacet(ps);
    DedupFacts(AllTagsOf(ps));
    SortBySorted(d, AsString);
    SortByPermutes(d, AsString);
    forall i, j | 0 <= i < j < |f| ensures StrLess(f[i], f[j]) {
      StrictlySortedPairs(f, AsString, i, j);
    }
    forall t ensures t in f <==> exists i :: 0 <= i < |ps| && t in ps[i].tags {
      assert t in f <==> t in multiset(d);
      AllTagsMembers(ps, t);
    }
  }
}
