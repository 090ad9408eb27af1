// The first stage of build.js (lines 10-20): the parsed poems.json, a mapping
// from source-image key to a list of poem records, becomes one flat list in
// which every record with text gets the next id.

module Flatten {
  import opened Wrappers
  import opened Text
  import opened Seqs

  /** A record as poems.json holds it; every field may be missing. */
  datatype RawPoem = RawPoem(title: Option<string>, content: Option<string>, year: Option<string>)

  /** A record of the flat list: the raw fields, the image key it was listed
      under and its id. */
  datatype Poem = Poem(title: Option<string>, content: string, year: Option<string>,
                       sourceImage: string, id: nat)

  /** The guard `poem.content && poem.content.trim()`. */
  predicate HasText(r: RawPoem)
  {
    r.content.Some? && Trim(r.content.value) != []
  }

  /** The records of one image key, each paired with the key. */
  function Pairs(key: string, list: seq<RawPoem>): (r: seq<(string, RawPoem)>)
    ensures |r| == |list|
    ensures forall i :: 0 <= i < |list| ==> r[i] == (key, list[i])
  {
    seq(|list|, i requires 0 <= i < |list| => (key, list[i]))
  }

  /** Object.entries of the mapping, flattened: every record paired with its
      key, keys in entry order and records in list order. */
  function Entries(data: seq<(string, seq<RawPoem>)>): seq<(string, RawPoem)>
  {
    if data == [] then []
    else Entries(data[..|data| - 1]) + Pairs(data[|data| - 1].0, data[|data| - 1].1)
  }

  /** The entries whose record has text, in their original order. */
  function Kept(entries: seq<(string, RawPoem)>): (r: seq<(string, RawPoem)>)
    ensures forall i :: 0 <= i < |r| ==> HasText(r[i].1)
  {
    if entries == [] then []
    else
      var last := entries[|entries| - 1];
      Kept(entries[..|entries| - 1]) + (if HasText(last.1) then [last] else [])
  }

  /** The object pushed for a kept record: `{...poem, sourceImage, id}`. */
  function Numbered(entry: (string, RawPoem), id: nat): Poem
    requires HasText(entry.1)
  {
    Poem(entry.1.title, entry.1.content.value, entry.1.year, entry.0, id)
  }

  /** poems is kept, numbered: as long, and the i-th (from 0) is kept[i] with id i + 1. */
  predicate IsNumbering(poems: seq<Poem>, kept: seq<(string, RawPoem)>)
  {
    |poems| == |kept| &&
    forall i :: 0 <= i < |poems| ==> HasText(kept[i].1) && poems[i] == Numbered(kept[i], i + 1)
  }

  lemma KeptSnoc(entries: seq<(string, RawPoem)>, x: (string, RawPoem))
    ensures Kept(entries + [x]) == Kept(entries) + (if HasText(x.1) then [x] else [])
  {
    assert (entries + [x])[..|entries|] == entries;
  }

  /** One more entry: the numbering grows by that entry when it has text. */
  lemma NumberingSnoc(poems: seq<Poem>, entries: seq<(string, RawPoem)>, x: (string, RawPoem))
    requires IsNumbering(poems, Kept(entries))
    ensures IsNumbering(poems + (if HasText(x.1) then [Numbered(x, |poems| + 1)] else []), Kept(entries + [x]))
  {
    KeptSnoc(entries, x);
    if HasText(x.1) {
      NumberingAppend(poems, Kept(entries), x);
    } else {
      assert poems + [] == poems;
    }
  }

  lemma NumberingAppend(poems: seq<Poem>, kept: seq<(string, RawPoem)>, x: (string, RawPoem))
    requires IsNumbering(poems, kept) && HasText(x.1)
    ensures IsNumbering(poems + [Numbered(x, |poems| + 1)], kept + [x])
  {
    var p' := poems + [Numbered(x, |poems| + 1)];
    var k' := kept + [x];
    forall i | 0 <= i < |p'| ensures HasText(k'[i].1) && p'[i] == Numbered(k'[i], i + 1) {
      if i < |poems| {
        assert p'[i] == poems[i] && k'[i] == kept[i];
      }
    }
  }

  lemma EntriesStep(data: seq<(string, seq<RawPoem>)>, e: nat)
    requires e < |data|
    ensures Entries(data[..e + 1]) == Entries(data[..e]) + Pairs(data[e].0, data[e].1)
  {
    assert data[..e + 1][..e] == data[..e];
  }

  lemma PairsStep(key: string, list: seq<RawPoem>, j: nat)
    requires j < |list|
    ensures Pairs(key, list[..j + 1]) == Pairs(key, list[..j]) + [(key, list[j])]
  {
  }

  /** One more record of the current list: the numbering grows by that record when it has text. */
  lemma FlattenStep(poems: seq<Poem>, before: seq<(string, RawPoem)>, key: string, list: seq<RawPoem>, j: nat)
    requires j < |list|
    requires IsNumbering(poems, Kept(before + Pairs(key, list[..j])))
    ensures IsNumbering(poems + (if HasText(list[j]) then [Numbered((key, list[j]), |poems| + 1)] else []),
                        Kept(before + Pairs(key, list[..j + 1])))
  {
    PairsStep(key, list, j);
    assert before + Pairs(key, list[..j + 1]) == before + Pairs(key, list[..j]) + [(key, list[j])];
    NumberingSnoc(poems, before + Pairs(key, list[..j]), (key, list[j]));
  }

  /** The flattening loop.  The result holds exactly the kept entries, in
      order, and the i-th of them (counting from 0) has id i + 1. */
  method FlattenPoems(data: seq<(string, seq<RawPoem>)>) returns (poems: seq<Poem>)
    ensures IsNumbering(poems, Kept(Entries(data)))
  {
    poems := [];
    for e := 0 to |data|
      invariant IsNumbering(poems, Kept(Entries(data[..e])))
    {
      var (imageKey, poemList) := data[e];
      ghost var before := Entries(data[..e]);
      assert Pairs(imageKey, poemList[..0]) == [];
      assert before + [] == before;
      for j := 0 to |poemList|
        invariant IsNumbering(poems, Kept(before + Pairs(imageKey, poemList[..j])))
      {
        var poem := poemList[j];
        FlattenStep(poems, before, imageKey, poemList, j);
        if poem.content.Some? && Trim(poem.content.value) != [] {
          poems := poems + [Poem(poem.title, poem.content.value, poem.year, imageKey, |poems| + 1)];
        }
      }
      EntriesStep(data, e);
      assert poemList[..|poemList|] == poemList;
    }
    assert data[..|data|] == data;
  }

  /** Every record of the flat list has non-blank text, and its ids run 1..N. */
  lemma FlatListFacts(data: seq<(string, seq<RawPoem>)>, poems: seq<Poem>)
    requires IsNumbering(poems, Kept(Entries(data)))
    ensures forall i :: 0 <= i < |poems| ==> poems[i].id == i + 1
    ensures forall i :: 0 <= i < |poems| ==> !IsBlank(poems[i].content)
  {
    forall i | 0 <= i < |poems|
      ensures !IsBlank(poems[i].content)
    {
      TrimEmptyIffBlank(poems[i].content);
    }
  }

  /** An entry is listed exactly when its key maps to a list holding its record. */
  lemma {:induction false} EntriesMembers(data: seq<(string, seq<RawPoem>)>, e: (string, RawPoem))
    ensures e in Entries(data) <==>
      exists k, m :: 0 <= k < |data| && 0 <= m < |data[k].1| && data[k].0 == e.0 && data[k].1[m] == e.1
  {
    if data != [] {
      var init := data[..|data| - 1];
      EntriesMembers(init, e);
      if e in Entries(data) && e !in Entries(init) {
        var last := |data| - 1;
        var p := Pairs(data[last].0, data[last].1);
        var m :| 0 <= m < |p| && p[m] == e;
        assert data[last].1[m] == e.1;
      }
      if e !in Entries(data) {
        forall k, m | 0 <= k < |data| && 0 <= m < |data[k].1|
          ensures !(data[k].0 == e.0 && data[k].1[m] == e.1)
        {
          if k < |data| - 1 {
            assert data[k] == init[k];
          } else {
            assert Pairs(data[k].0, data[k].1)[m] == (data[k].0, data[k].1[m]);
          }
        }
      }
    }
  }

  /** Kept deletes exactly the entries without text ... */
  lemma {:induction false} KeptMembers(entries: seq<(string, RawPoem)>)
    ensures forall e :: e in Kept(entries) <==> e in entries && HasText(e.1)
  {
    if entries != [] {
      var init := entries[..|entries| - 1];
      var last := entries[|entries| - 1];
      KeptMembers(init);
      assert entries == init + [last];
      assert forall e :: e in entries <==> e in init || e == last;
    }
  }

  /** ... and keeps the order of the rest. */
  lemma {:induction false} KeptInOrder(entries: seq<(string, RawPoem)>)
    ensures IsSubsequence(Kept(entries), entries)
  {
    if entries != [] {
      var init := entries[..|entries| - 1];
      var last := entries[|entries| - 1];
      KeptInOrder(init);
      if HasText(last.1) {
        assert Kept(entries) == Kept(init) + [last];
        assert Kept(entries)[..|Kept(entries)| - 1] == Kept(init);
      } else {
        assert Kept(entries) == Kept(init);
        SubsequenceExtend(Kept(init), init, last);
        assert init + [last] == entries;
      }
    }
  }
}
