/**
 JavaScript strings: sequences of 16-bit code units, compared unit by unit. The
 comparison is a strict total order; at the first difference the smaller unit,
 or the end of the shorter text, comes first. Texts of ASCII characters are also
 written as string literals, where that is easier to read.
 */
module Text {
  type CodeUnit = u: int | 0 <= u < 0x1_0000 witness 0

  type Text = seq<CodeUnit>

  predicate Less(a: Text, b: Text) {
    if b == [] then false
    else if a == [] then true
    else if a[0] != b[0] then a[0] < b[0]
    else Less(a[1..], b[1..])
  }

  lemma {:induction false} LessIsAsymmetric(a: Text, b: Text)
    requires Less(a, b)
    ensures !Less(b, a)
  {
    if a != [] && a[0] == b[0] {
      LessIsAsymmetric(a[1..], b[1..]);
    }
  }

  lemma {:induction false} LessSplits(a: Text, b: Text, c: Text)
    requires Less(a, c)
    ensures Less(a, b) || Less(b, c)
  {
    if a != [] && b != [] && a[0] == c[0] == b[0] {
      LessSplits(a[1..], b[1..], c[1..]);
    }
  }

  lemma {:induction false} LessIsTotal(a: Text, b: Text)
    ensures a == b || Less(a, b) || Less(b, a)
  {
    if a != [] && b != [] && a[0] == b[0] {
      LessIsTotal(a[1..], b[1..]);
    }
  }

  /** What the order means: at the first difference the smaller unit, or an end, comes first. */
  lemma {:induction false} LessMeans(a: Text, b: Text)
    ensures Less(a, b) <==>
      exists n :: 0 <= n <= |a| && n < |b| && a[..n] == b[..n] && (n == |a| || a[n] < b[n])
  {
    if a != [] && b != [] && a[0] == b[0] {
      var x, y := a[1..], b[1..];
      LessMeans(x, y);
      if Less(x, y) {
        var n :| 0 <= n <= |x| && n < |y| && x[..n] == y[..n] && (n == |x| || x[n] < y[n]);
        assert a[..n + 1] == [a[0]] + x[..n] && b[..n + 1] == [b[0]] + y[..n];
      }
      forall n | 0 <= n <= |a| && n < |b| && a[..n] == b[..n] && (n == |a| || a[n] < b[n]) ensures Less(x, y) {
        assert n > 0;
        assert x[..n - 1] == a[..n][1..] && y[..n - 1] == b[..n][1..];
      }
    } else {
      assert a[..0] == b[..0];
      if a != [] && b != [] {
        forall n | 0 < n <= |a| && n < |b| ensures a[..n] != b[..n] {
          DifferAtStart(a, b, n);
        }
      }
    }
  }

  lemma DifferAtStart(a: Text, b: Text, n: nat)
    requires 0 < n <= |a| && n <= |b| && a[0] != b[0]
    ensures a[..n] != b[..n]
  {
    assert a[..n][0] == a[0] && b[..n][0] == b[0];
  }

  /** A string of ASCII characters in code units. */
  function Ascii(s: string): Text
    requires forall i :: 0 <= i < |s| ==> s[i] < 128 as char
  {
    seq(|s|, i requires 0 <= i < |s| => s[i] as int)
  }
}
