// The order in which Array.prototype.sort without a comparator arranges strings:
// lexicographic by character code, a proper prefix first.  JavaScript compares
// UTF-16 code units; for the ASCII text sorted here that is the order on char.

module StringOrder {

  predicate StrLess(a: string, b: string)
  {
    if a == [] then b != []
    else if b == [] then false
    else if a[0] != b[0] then a[0] < b[0]
    else StrLess(a[1..], b[1..])
  }

  lemma {:induction false} StrLessIrreflexive(a: string)
    ensures !StrLess(a, a)
  {
    if a != [] {
      StrLessIrreflexive(a[1..]);
    }
  }

  lemma {:induction false} StrLessTransitive(a: string, b: string, c: string)
    requires StrLess(a, b) && StrLess(b, c)
    ensures StrLess(a, c)
  {
    if a != [] && b != [] && c != [] && a[0] == b[0] && b[0] == c[0] {
      StrLessTransitive(a[1..], b[1..], c[1..]);
    }
  }

  /** Any two strings are equal or ordered one way round. */
  lemma {:induction false} StrLessTotal(a: string, b: string)
    ensures StrLess(a, b) || a == b || StrLess(b, a)
  {
    if a != [] && b != [] && a[0] == b[0] {
      StrLessTotal(a[1..], b[1..]);
      if a[1..] == b[1..] {
        assert a == [a[0]] + a[1..] && b == [b[0]] + b[1..];
      }
    }
  }

  /** Two strings of equal length that gain one more character each compare
      first on what they had, then on the new character. */
  lemma {:induction false} StrLessSnoc(x: string, c: char, y: string, d: char)
    requires |x| == |y|
    ensures StrLess(x + [c], y + [d]) <==> StrLess(x, y) || (x == y && c < d)
  {
    if x != [] {
      assert (x + [c])[1..] == x[1..] + [c];
      assert (y + [d])[1..] == y[1..] + [d];
      StrLessSnoc(x[1..], c, y[1..], d);
      if x[0] == y[0] && x[1..] == y[1..] {
        assert x == [x[0]] + x[1..] && y == [y[0]] + y[1..];
      }
    }
  }
}
