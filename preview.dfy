// getPreview, build.js lines 113-118: the trimmed first line of a poem,
// cut to maxLen characters and marked with "..." when it is longer.

module Preview {
  import opened Text
  import opened Seqs

  /** The default of the maxLen parameter. */
  const DefaultMaxLen: nat := 80

  /** getPreview(content, maxLen).  With L the trimmed first line: L itself
      when it fits, otherwise its first maxLen characters and "...". */
  function GetPreview(content: string, maxLen: nat): (r: string)
    ensures |Trim(FirstLine(content))| <= maxLen ==> r == Trim(FirstLine(content))
    ensures |Trim(FirstLine(content))| > maxLen ==>
      |r| == maxLen + 3 && r[..maxLen] == Trim(FirstLine(content))[..maxLen] && r[maxLen..] == "..."
  {
    var firstLine := Trim(FirstLine(content));
    if |firstLine| <= maxLen then firstLine
    else firstLine[..maxLen] + "..."
  }

  /** The preview is a verbatim slice of the poem's first line, followed by
      "..." when the line had to be cut. */
  lemma PreviewFromFirstLine(content: string, maxLen: nat) returns (a: nat)
    ensures a + |Trim(FirstLine(content))| <= |FirstLine(content)|
    ensures |Trim(FirstLine(content))| <= maxLen ==>
      GetPreview(content, maxLen) == content[a..a + |Trim(FirstLine(content))|]
    ensures |Trim(FirstLine(content))| > maxLen ==>
      GetPreview(content, maxLen) == content[a..a + maxLen] + "..."
  {
    a := TrimmedLineSlice(content);
    if |Trim(FirstLine(content))| > maxLen {
      PrefixOfSlice(content, a, |Trim(FirstLine(content))|, maxLen);
    }
  }

  /** The trimmed first line is a slice of the content, inside the first line. */
  lemma TrimmedLineSlice(content: string) returns (a: nat)
    ensures a + |Trim(FirstLine(content))| <= |FirstLine(content)|
    ensures Trim(FirstLine(content)) == content[a..a + |Trim(FirstLine(content))|]
  {
    var line := FirstLine(content);
    a := TrimStartIndex(line);
    SliceInPrefix(content, |line|, a, |Trim(line)|);
  }

  /** A preview is empty only when the first line is blank, and it is never
      longer than maxLen + 3. */
  lemma PreviewEmptyIffBlank(content: string, maxLen: nat)
    ensures GetPreview(content, maxLen) == [] <==> IsBlank(FirstLine(content))
    ensures |GetPreview(content, maxLen)| <= maxLen + 3
  {
    TrimEmptyIffBlank(FirstLine(content));
  }

  /** The preview is a single line: it holds no line break. */
  lemma PreviewSingleLine(content: string, maxLen: nat)
    ensures '\n' !in GetPreview(content, maxLen)
  {
    var line := FirstLine(content);
    var t := Trim(line);
    var a := TrimStartIndex(line);
    forall i | 0 <= i < |t| ensures t[i] != '\n' {
      assert t[i] == content[a + i];
    }
    if |t| > maxLen {
      var r := GetPreview(content, maxLen);
      forall i | 0 <= i < |r| ensures r[i] != '\n' {
        if i < maxLen {
          assert r[i] == t[i];
        } else {
          assert r[i] == '.';
        }
      }
    }
  }
}
