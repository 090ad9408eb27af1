// Topic tagging, build.js lines 38-98: a fixed table from topic to keywords,
// and tagPoem, which lists the topics having a keyword in the poem's
// lower-cased title and text.

module Tagging {
  import opened Wrappers
  import opened Text
  import opened Seqs

  /** topicKeywords, in declaration order (the order Object.entries yields). */
  const TopicKeywords: seq<(string, seq<string>)> := [
    ("christ", ["jesus", "christ", "saviour", "savior", "calvary", "cross", "crucified", "resurrection"]),
    ("prayer", ["prayer", "praying", "pray to", "kneel", "supplication"]),
    ("salvation", ["salvation", "redeem", "saved", "forgiven", "repent", "repentance", "born again", "souls"]),
    ("heaven", ["heaven", "heavenly", "paradise", "glory land", "eternal home", "eternal life"]),
    ("scripture", ["bible", "scripture", "gospel", "psalm", "the book", "the word"]),
    ("church", ["church", "congregation", "preacher", "sermon", "sunday school", "baptist"]),
    ("mother", ["mother", "mama", "mom", "motherhood"]),
    ("father", ["father", "papa", "dad", "daddy"]),
    ("marriage", ["wedding", "bride", "groom", "anniversary", "married"]),
    ("seasons", ["springtime", "winter snow", "autumn leaves", "summer day"]),
    ("grief", ["grief", "mourn", "sorrow", "weep", "tears", "loss", "funeral", "grave"]),
    ("aging", ["aging", "old age", "elderly", "gray hair", "twilight years", "passing year"]),
    ("gratitude", ["thankful", "grateful", "thanksgiving", "gratitude", "appreciate"]),
    ("missions", ["missionary", "missions", "evangel", "heathen", "lost souls"]),
    ("hymn", ["hymn", "singing", "melody", "song of", "chorus"]),
    ("writing", ["poem", "poet", "verse", "rhyme", "write", "written", "words", "poemize", "poetize"]),
    ("children", ["children", "grandchild", "granddaughter", "grandson", "kids", "child"]),
    ("spouse", ["wife", "husband", "betty", "valentine", "my love", "my dear", "sweetheart"]),
    ("hope", ["hope", "hopeful", "tomorrow", "future", "optimism", "looking forward"]),
    ("memory", ["memory", "memories", "remember", "recall", "past", "yesterday", "long ago"]),
    ("surrender", ["yield", "yielding", "surrender", "commit", "commitment", "consecrate"]),
    ("devotion", ["devotion", "dedication", "dedicate", "loyal", "faithful service"]),
    ("encouragement", ["lift up", "press on", "keep on", "look up", "courage", "victory", "conquer"]),
    ("wisdom", ["wisdom", "wise", "choose", "decision", "double-minded", "discern"]),
    ("presence", ["presence", "abide", "abides", "with me", "beside me", "he is here"]),
    ("seeking", ["quest", "questing", "search", "seeking", "find", "goal", "pursue"]),
    ("nature", ["flower", "flowers", "tree", "trees", "garden", "fruit", "sunset", "sunrise", "sky", "mountain", "river"]),
    ("ministry", ["speaker", "preach", "pulpit", "ministry", "congregation", "serve thee", "good news"]),
    ("rest", ["rest", "relax", "relaxing", "quiet", "stillness", "peaceful", "solitude", "retreat"]),
    ("eternity", ["eternity", "eternal", "everlasting", "forever", "immortal", "hereafter"]),
    ("struggle", ["struggle", "wrestling", "battle", "conflict", "turmoil", "frustrat", "troubled", "despair"]),
    ("service", ["labor", "labors", "laborer", "servant", "serving", "toil", "worker", "harvest field"])
  ]

  /** Position p of t holds a \w character. */
  predicate WordAt(t: string, p: int)
  {
    0 <= p < |t| && IsWordChar(t[p])
  }

  /** The regular-expression assertion \b at position p (0 <= p <= |t|): a word
      character on exactly one side, the outside of t counting as non-word. */
  predicate Boundary(t: string, p: int)
  {
    WordAt(t, p - 1) != WordAt(t, p)
  }

  predicate OccursAt(t: string, k: string, i: int)
  {
    0 <= i && i + |k| <= |t| && t[i..i + |k|] == k
  }

  /** The regular expression \b k \b matches at position i. */
  predicate WholeWordAt(t: string, k: string, i: int)
  {
    OccursAt(t, k, i) && Boundary(t, i) && Boundary(t, i + |k|)
  }

  function ContainsFrom(t: string, k: string, from: nat): (r: bool)
    ensures r <==> exists i :: from <= i && OccursAt(t, k, i)
    decreases |t| - from
  {
    if from + |k| > |t| then false
    else if OccursAt(t, k, from) then true
    else ContainsFrom(t, k, from + 1)
  }

  /** String.prototype.includes. */
  function Contains(t: string, k: string): (r: bool)
    ensures r <==> exists i :: OccursAt(t, k, i)
  {
    ContainsFrom(t, k, 0)
  }

  function WholeWordFrom(t: string, k: string, from: nat): (r: bool)
    ensures r <==> exists i :: from <= i && WholeWordAt(t, k, i)
    decreases |t| - from
  {
    if from + |k| > |t| then false
    else if WholeWordAt(t, k, from) then true
    else WholeWordFrom(t, k, from + 1)
  }

  /** new RegExp('\\b' + k + '\\b').test(t), for a keyword k free of
      regular-expression syntax, as every short keyword of the table is. */
  function HasWholeWord(t: string, k: string): (r: bool)
    ensures r <==> exists i :: WholeWordAt(t, k, i)
  {
    WholeWordFrom(t, k, 0)
  }

  /** A keyword of at most four characters must stand as a whole word; a
      longer one may stand anywhere. */
  predicate KeywordMatches(text: string, keyword: string)
  {
    if |keyword| <= 4 then HasWholeWord(text, keyword) else Contains(text, keyword)
  }

  predicate TopicMatches(text: string, keywords: seq<string>)
  {
    exists m :: 0 <= m < |keywords| && KeywordMatches(text, keywords[m])
  }

  /** `poem.title + ' ' + poem.content`: a missing title reads "undefined". */
  function TitleText(title: Option<string>): string
  {
    match title
    case None => "undefined"
    case Some(t) => t
  }

  function SearchText(title: Option<string>, content: string): string
  {
    ToLower(TitleText(title) + " " + content)
  }

  /** A short keyword matches only as a whole word: "mom" is found in
      "for mom." but not inside "a moment"; a longer one matches anywhere:
      "saviour" in "my saviour lives", and "frustrat" inside "frustration". */
  lemma KeywordMatchExamples()
    ensures KeywordMatches("for mom.", "mom")
    ensures !KeywordMatches("a moment", "mom")
    ensures KeywordMatches("my saviour lives", "saviour")
    ensures KeywordMatches("frustration", "frustrat")
  {
    assert WholeWordAt("for mom.", "mom", 4) by {
      assert "for mom."[4..7] == "mom";
    }
    forall i ensures !WholeWordAt("a moment", "mom", i) {
      if i == 2 {
        assert WordAt("a moment", 5);
      } else if 0 <= i && i + 3 <= 8 {
        assert "a moment"[i..i + 3][0] == "a moment"[i];
        assert "a moment"[i..i + 3][2] == "a moment"[i + 2];
      }
    }
    assert OccursAt("my saviour lives", "saviour", 3) by {
      assert "my saviour lives" == "my " + "saviour" + " lives";
    }
    assert OccursAt("frustration", "frustrat", 0) by {
      assert "frustration"[0..8] == "frustrat";
    }
  }

  /** With the table of build.js, "my saviour lives" is tagged "christ":
      "saviour" is the third keyword of the first topic. */
  lemma SaviourTagsChrist()
    ensures "christ" in Topics(TopicKeywords, "my saviour lives")
  {
    var text := "my saviour lives";
    var keywords := TopicKeywords[0].1;
    assert TopicKeywords[0].0 == "christ" && keywords[2] == "saviour";
    KeywordMatchExamples();
    assert KeywordMatches(text, keywords[2]);
    assert TopicMatches(text, keywords);
    TopicsUpToMembers(TopicKeywords, text, |TopicKeywords|, "christ");
  }

  /** A table from topic name to keywords, in declaration order. */
  type TopicTable = seq<(string, seq<string>)>

  /** The topics among the first n entries of the table that match text, in
      table order, each listed where it first matches. */
  function TopicsUpTo(table: TopicTable, text: string, n: nat): seq<string>
    requires n <= |table|
  {
    if n == 0 then []
    else
      var before := TopicsUpTo(table, text, n - 1);
      var topic := table[n - 1].0;
      before + (if TopicMatches(text, table[n - 1].1) && topic !in before then [topic] else [])
  }

  /** The topics of the table that match text, in table order. */
  function Topics(table: TopicTable, text: string): seq<string>
  {
    TopicsUpTo(table, text, |table|)
  }

  /** The topic names of the table, in declaration order. */
  function TopicNames(table: TopicTable): (r: seq<string>)
    ensures |r| == |table|
    ensures forall i :: 0 <= i < |r| ==> r[i] == table[i].0
  {
    seq(|table|, i requires 0 <= i < |table| => table[i].0)
  }

  /** A topic is listed exactly when it is among the first n and one of its keywords matches. */
  lemma {:induction false} TopicsUpToMembers(table: TopicTable, text: string, n: nat, x: string)
    requires n <= |table|
    ensures x in TopicsUpTo(table, text, n) <==>
      exists i :: 0 <= i < n && table[i].0 == x && TopicMatches(text, table[i].1)
  {
    if n > 0 {
      TopicsUpToMembers(table, text, n - 1, x);
    }
  }

  /** tagPoem, with the table it reads (TopicKeywords in build.js) passed in:
      for every topic, scan its keywords; a matching topic is pushed unless
      already present. */
  method TagPoem(table: TopicTable, title: Option<string>, content: string) returns (tags: seq<string>)
    ensures tags == Topics(table, SearchText(title, content))
  {
    var text := ToLower(TitleText(title) + " " + content);
    tags := [];
    for t := 0 to |table|
      invariant tags == TopicsUpTo(table, text, t)
    {
      var topic, keywords := table[t].0, table[t].1;
      var hit := ScanKeywords(text, keywords);
      if hit && topic !in tags {
        tags := tags + [topic];
      }
    }
  }

  /** The inner loop of tagPoem: the keywords in order, stopping at the first
      that matches; a short keyword is tested as a whole word, a longer one as
      a substring. */
  method ScanKeywords(text: string, keywords: seq<string>) returns (hit: bool)
    ensures hit <==> TopicMatches(text, keywords)
  {
    hit := false;
    for k := 0 to |keywords|
      invariant !hit
      invariant forall m :: 0 <= m < k ==> !KeywordMatches(text, keywords[m])
    {
      var keyword := keywords[k];
      hit := if |keyword| <= 4 then HasWholeWord(text, keyword) else Contains(text, keyword);
      if hit {
        return;
      }
    }
  }

  /** A poem receives each topic at most once, and exactly the topics one of
      whose keywords matches its search text. */
  lemma TopicsMembers(table: TopicTable, text: string)
    ensures NoDup(Topics(table, text))
    ensures forall x :: x in Topics(table, text) <==>
      exists i :: 0 <= i < |table| && table[i].0 == x && TopicMatches(text, table[i].1)
  {
    forall x ensures x in Topics(table, text) <==>
      exists i :: 0 <= i < |table| && table[i].0 == x && TopicMatches(text, table[i].1)
    {
      TopicsUpToMembers(table, text, |table|, x);
    }
    TopicsNoDup(table, text, |table|);
  }

  lemma {:induction false} TopicsNoDup(table: TopicTable, text: string, n: nat)
    requires n <= |table|
    ensures NoDup(TopicsUpTo(table, text, n))
  {
    if n > 0 {
      TopicsNoDup(table, text, n - 1);
    }
  }

  /** The tags come in table order: they are a subsequence of the topic names. */
  lemma TopicsInTableOrder(table: TopicTable, text: string)
    ensures IsSubsequence(Topics(table, text), TopicNames(table))
  {
    TopicsUpToOrder(table, text, |table|);
    assert TopicNames(table)[..|table|] == TopicNames(table);
  }

  lemma {:induction false} TopicsUpToOrder(table: TopicTable, text: string, n: nat)
    requires n <= |table|
    ensures IsSubsequence(TopicsUpTo(table, text, n), TopicNames(table)[..n])
  {
    if n > 0 {
      TopicsUpToOrder(table, text, n - 1);
      var names := TopicNames(table)[..n];
      assert names[..n - 1] == TopicNames(table)[..n - 1];
      var prev := TopicsUpTo(table, text, n - 1);
      var cur := TopicsUpTo(table, text, n);
      assert names[n - 1] == table[n - 1].0;
      assert names[..n - 1] + [names[n - 1]] == names;
      if cur == prev {
        SubsequenceExtend(prev, names[..n - 1], names[n - 1]);
      } else {
        assert cur == prev + [names[n - 1]];
        assert cur[..|prev|] == prev;
      }
    }
  }
}
