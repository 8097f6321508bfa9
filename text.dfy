/** The string operations the report relies on: `String.split(",", -1)`, the lexicographic
    `String.compareTo`, and the left-justified `%-Ns` conversion of `String.format`. */
module Text {

  /** Index of the first `c` in `s`, or `|s|` when there is none. */
  function IndexOf(s: string, c: char): (i: nat)
    ensures i <= |s|
    ensures forall j :: 0 <= j < i ==> s[j] != c
    ensures i < |s| ==> s[i] == c
  {
    if s == [] then 0
    else if s[0] == c then 0
    else 1 + IndexOf(s[1..], c)
  }

  /** The fields joined back together with one separator between neighbours. */
  function Join(fields: seq<string>, sep: char): string
  {
    if |fields| <= 1 then (if fields == [] then "" else fields[0])
    else fields[0] + [sep] + Join(fields[1..], sep)
  }

  /** `s.split(sep, -1)` for a one-character, non-special separator: every field between two
      separators is kept, empty ones and trailing ones included, so there is always one field
      more than there are separators and the empty string gives one empty field. The fields
      hold no separator and joining them gives `s` back. */
  function Split(s: string, sep: char): (r: seq<string>)
    ensures |r| >= 1
    ensures forall i :: 0 <= i < |r| ==> sep !in r[i]
    ensures Join(r, sep) == s
    decreases |s|
  {
    var i := IndexOf(s, sep);
    if i == |s| then
      assert s[..i] == s;
      [s]
    else
      var rest := Split(s[i + 1..], sep);
      assert s == s[..i] + [sep] + s[i + 1..];
      assert sep !in s[..i] by {
        forall j | 0 <= j < i ensures s[..i][j] != sep { }
      }
      [s[..i]] + rest
  }

  /** Splitting a joined list of separator-free fields gives the fields back. */
  lemma {:induction false} SplitJoin(fields: seq<string>, sep: char)
    requires |fields| >= 1
    requires forall i :: 0 <= i < |fields| ==> sep !in fields[i]
    ensures Split(Join(fields, sep), sep) == fields
  {
    var head := fields[0];
    if |fields| == 1 {
      assert forall j :: 0 <= j < |head| ==> head[j] != sep;
      assert IndexOf(head, sep) == |head|;
    } else {
      var s := Join(fields, sep);
      var tail := Join(fields[1..], sep);
      assert s == head + [sep] + tail;
      FirstSeparator(head, sep, tail);
      assert s[..|head|] == head;
      assert s[|head| + 1..] == tail;
      SplitJoin(fields[1..], sep);
      assert fields == [head] + fields[1..];
    }
  }

  /** In `head + [sep] + tail` with `sep` absent from `head`, the first `sep` ends `head`. */
  lemma FirstSeparator(head: string, sep: char, tail: string)
    requires sep !in head
    ensures IndexOf(head + [sep] + tail, sep) == |head|
  {
    var s := head + [sep] + tail;
    assert s[|head|] == sep;
  }

  /** The number of fields `Split` returns is one more than the number of separators. */
  function Occurrences(s: string, c: char): (n: nat)
    ensures n <= |s|
  {
    if s == [] then 0 else (if s[0] == c then 1 else 0) + Occurrences(s[1..], c)
  }

  lemma {:induction false} OccurrencesAppend(x: string, y: string, c: char)
    ensures Occurrences(x + y, c) == Occurrences(x, c) + Occurrences(y, c)
  {
    if x != [] {
      assert (x + y)[1..] == x[1..] + y;
      OccurrencesAppend(x[1..], y, c);
    } else {
      assert x + y == y;
    }
  }

  lemma {:induction false} OccurrencesAbsent(s: string, c: char)
    requires c !in s
    ensures Occurrences(s, c) == 0
  {
    if s != [] {
      assert c !in s[1..] by { forall j | 0 <= j < |s| - 1 ensures s[1..][j] != c { assert s[1..][j] == s[j + 1]; } }
      OccurrencesAbsent(s[1..], c);
    }
  }

  lemma {:induction false} SplitCount(s: string, sep: char)
    ensures |Split(s, sep)| == Occurrences(s, sep) + 1
    decreases |s|
  {
    var i := IndexOf(s, sep);
    assert sep !in s[..i] by {
      forall j | 0 <= j < i ensures s[..i][j] != sep { }
    }
    OccurrencesAbsent(s[..i], sep);
    if i == |s| {
      assert s[..i] == s;
    } else {
      SplitCount(s[i + 1..], sep);
      assert s == s[..i] + [sep] + s[i + 1..];
      OccurrencesAppend(s[..i] + [sep], s[i + 1..], sep);
      OccurrencesAppend(s[..i], [sep], sep);
      assert Occurrences([sep], sep) == 1 by { assert [sep][1..] == []; }
    }
  }

  /** `a.compareTo(b)`: the difference of the first pair of characters that differ, or the
      difference of the lengths when one string is a prefix of the other. */
  function CompareTo(a: string, b: string): int
  {
    if a == [] || b == [] then |a| - |b|
    else if a[0] != b[0] then a[0] as int - b[0] as int
    else CompareTo(a[1..], b[1..])
  }

  /** Zero exactly for equal strings. */
  lemma {:induction false} CompareToZero(a: string, b: string)
    ensures CompareTo(a, b) == 0 <==> a == b
  {
    if a != [] && b != [] && a[0] == b[0] {
      CompareToZero(a[1..], b[1..]);
      assert a == [a[0]] + a[1..] && b == [b[0]] + b[1..];
    }
  }

  /** Swapping the arguments negates the result. */
  lemma {:induction false} CompareToAntisymmetric(a: string, b: string)
    ensures CompareTo(b, a) == -CompareTo(a, b)
  {
    if a != [] && b != [] && a[0] == b[0] {
      CompareToAntisymmetric(a[1..], b[1..]);
    }
  }

  /** The order is transitive. */
  lemma {:induction false} CompareToTransitive(a: string, b: string, c: string)
    requires CompareTo(a, b) < 0 && CompareTo(b, c) < 0
    ensures CompareTo(a, c) < 0
  {
    if a != [] && b != [] && c != [] && a[0] == b[0] && b[0] == c[0] {
      CompareToTransitive(a[1..], b[1..], c[1..]);
    }
  }

  function Spaces(n: nat): (r: string)
    ensures |r| == n && forall i :: 0 <= i < n ==> r[i] == ' '
  {
    if n == 0 then "" else Spaces(n - 1) + " "
  }

  /** `String.format("%-" + width + "s", s)`: `s`, then spaces up to `width` characters;
      a longer `s` is kept whole, never cut. */
  function PadRight(s: string, width: nat): (r: string)
    ensures |r| == if |s| >= width then |s| else width
    ensures r[..|s|] == s
    ensures forall i :: |s| <= i < |r| ==> r[i] == ' '
  {
    if |s| >= width then s else s + Spaces(width - |s|)
  }
}
