// Character classes and string helpers shared by the metadata pipeline of build.js.
// JavaScript strings are modelled as seq<char>; only the ASCII behaviour of
// toLowerCase, trim and the regular-expression classes \d and \w is modelled.

module Wrappers {
  datatype Option<+T> = None | Some(value: T)
}

module Text {

  /** The white space String.prototype.trim removes, restricted to ASCII. */
  predicate IsSpace(c: char)
  {
    c == ' ' || c == '\t' || c == '\n' || c == '\r' || c == '\U{0B}' || c == '\U{0C}'
  }

  /** The regular-expression class \w, which decides where \b stands. */
  predicate IsWordChar(c: char)
  {
    ('a' <= c <= 'z') || ('A' <= c <= 'Z') || ('0' <= c <= '9') || c == '_'
  }

  /** The regular-expression class \d (ASCII digits only, as without the u flag). */
  predicate IsDigit(c: char)
  {
    '0' <= c <= '9'
  }

  predicate AllDigits(s: string)
  {
    forall i :: 0 <= i < |s| ==> IsDigit(s[i])
  }

  /** toLowerCase on one character, ASCII letters only. */
  function LowerChar(c: char): (r: char)
    ensures 'A' <= c <= 'Z' ==> 'a' <= r <= 'z'
    ensures !('A' <= c <= 'Z') ==> r == c
  {
    if 'A' <= c <= 'Z' then (c as int + 32) as char else c
  }

  function ToLower(s: string): (r: string)
    ensures |r| == |s|
    ensures forall i :: 0 <= i < |s| ==> r[i] == LowerChar(s[i])
  {
    seq(|s|, i requires 0 <= i < |s| => LowerChar(s[i]))
  }

  /** Where the first line of s ends: the index of the first '\n', or |s|. */
  function LineEnd(s: string): (n: nat)
    ensures n <= |s|
    ensures forall i :: 0 <= i < n ==> s[i] != '\n'
    ensures n < |s| ==> s[n] == '\n'
  {
    if s == [] || s[0] == '\n' then 0 else 1 + LineEnd(s[1..])
  }

  /** The text that precedes the first '\n', as content.split('\n')[0] yields it. */
  function FirstLine(s: string): string
  {
    s[..LineEnd(s)]
  }

  /** The number of white-space characters s starts with. */
  function LeadingSpace(s: string): (n: nat)
    ensures n <= |s|
    ensures forall i :: 0 <= i < n ==> IsSpace(s[i])
    ensures n < |s| ==> !IsSpace(s[n])
  {
    if s == [] || !IsSpace(s[0]) then 0 else 1 + LeadingSpace(s[1..])
  }

  /** The end of s[lo..m] once its trailing white space is dropped. */
  function TrailingStart(s: string, lo: nat, m: nat): (e: nat)
    requires lo <= m <= |s|
    ensures lo <= e <= m
    ensures forall i :: e <= i < m ==> IsSpace(s[i])
    ensures e > lo ==> !IsSpace(s[e - 1])
    decreases m
  {
    if m > lo && IsSpace(s[m - 1]) then TrailingStart(s, lo, m - 1) else m
  }

  /** Where the slice that trim keeps starts and ends. */
  function TrimStartIndex(s: string): nat
  {
    LeadingSpace(s)
  }

  function TrimEndIndex(s: string): (e: nat)
    ensures TrimStartIndex(s) <= e <= |s|
  {
    TrailingStart(s, LeadingSpace(s), |s|)
  }

  /** String.prototype.trim: the longest slice of s with no white space at
      either end; all of s around that slice is white space. */
  function Trim(s: string): (r: string)
    ensures r == s[TrimStartIndex(s)..TrimEndIndex(s)]
    ensures forall i :: 0 <= i < TrimStartIndex(s) ==> IsSpace(s[i])
    ensures forall i :: TrimEndIndex(s) <= i < |s| ==> IsSpace(s[i])
    ensures r != [] ==> !IsSpace(r[0]) && !IsSpace(r[|r| - 1])
  {
    s[TrimStartIndex(s)..TrimEndIndex(s)]
  }

  /** Nothing but white space (the empty string included). */
  predicate IsBlank(s: string)
  {
    forall i :: 0 <= i < |s| ==> IsSpace(s[i])
  }

  /** A string trims to nothing exactly when it is made of white space only. */
  lemma TrimEmptyIffBlank(s: string)
    ensures Trim(s) == [] <==> IsBlank(s)
  {
    if TrimStartIndex(s) < |s| {
      assert !IsSpace(s[TrimStartIndex(s)]);
    }
  }
}
