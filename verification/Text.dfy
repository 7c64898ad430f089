/** The JavaScript string operations the script relies on: `split` on a
    one-character separator, `padStart` with a one-character fill, and
    `slice` with a negative start. */
module Text {
  import opened Outcomes

  /** `i` is the first position of `target` in `xs`. */
  predicate IsFirstMatch<T(==)>(xs: seq<T>, i: nat, target: T) {
    i < |xs| && xs[i] == target && forall j :: 0 <= j < i ==> xs[j] != target
  }

  /** A target has at most one first position. */
  lemma FirstMatchUnique<T>(xs: seq<T>, i: nat, j: nat, target: T)
    requires IsFirstMatch(xs, i, target) && IsFirstMatch(xs, j, target)
    ensures i == j
  {
  }

  /** `Array.prototype.find` / `indexOf`: the first position of `target`. */
  function FindFirst<T(==)>(xs: seq<T>, target: T): (r: Option<nat>)
    ensures r.Some? ==> IsFirstMatch(xs, r.value, target)
    ensures r.None? <==> target !in xs
  {
    FindFrom(xs, target, 0)
  }

  function FindFrom<T(==)>(xs: seq<T>, target: T, i: nat): (r: Option<nat>)
    requires i <= |xs|
    ensures r.Some? ==> i <= r.value < |xs| && xs[r.value] == target
                        && forall j :: i <= j < r.value ==> xs[j] != target
    ensures r.None? <==> target !in xs[i..]
    decreases |xs| - i
  {
    if i == |xs| then None
    else if xs[i] == target then Some(i)
    else FindFrom(xs, target, i + 1)
  }

  /** `parts.join([sep])`. */
  function Join(parts: seq<string>, sep: char): string {
    if |parts| == 0 then ""
    else if |parts| == 1 then parts[0]
    else parts[0] + [sep] + Join(parts[1..], sep)
  }

  /** `s.split(sep)`: the maximal separator-free pieces between separators, so
      the empty string splits into one empty piece and every separator starts
      a new piece. */
  function Split(s: string, sep: char): (parts: seq<string>)
    ensures |parts| >= 1
    ensures Join(parts, sep) == s
    ensures forall i :: 0 <= i < |parts| ==> sep !in parts[i]
    decreases |s|
  {
    if |s| == 0 then [""]
    else
      var rest := Split(s[1..], sep);
      if s[0] == sep then [""] + rest
      else [[s[0]] + rest[0]] + rest[1..]
  }

  /** Splitting after a separator-free prefix yields that prefix as the first piece. */
  lemma {:induction false} SplitAfterPiece(a: string, sep: char, b: string)
    requires sep !in a
    ensures Split(a + [sep] + b, sep) == [a] + Split(b, sep)
    decreases |a|
  {
    if |a| == 0 {
      assert a + [sep] + b == [sep] + b;
      assert ([sep] + b)[1..] == b;
    } else {
      assert (a + [sep] + b)[1..] == a[1..] + [sep] + b;
      SplitAfterPiece(a[1..], sep, b);
      assert [a[0]] + a[1..] == a;
    }
  }

  /** A separator-free string is a single piece. */
  lemma {:induction false} SplitPiece(a: string, sep: char)
    requires sep !in a
    ensures Split(a, sep) == [a]
    decreases |a|
  {
    if |a| > 0 {
      SplitPiece(a[1..], sep);
      assert [a[0]] + a[1..] == a;
    }
  }

  /** Splitting three separator-free pieces joined by the separator gives them back. */
  lemma SplitThree(a: string, b: string, c: string, sep: char)
    requires sep !in a && sep !in b && sep !in c
    ensures Split(a + [sep] + b + [sep] + c, sep) == [a, b, c]
  {
    var tail := b + [sep] + c;
    SplitTwo(b, c, sep);
    JoinAssoc(a, b, c, sep);
    SplitAfterPiece(a, sep, tail);
  }

  lemma SplitTwo(b: string, c: string, sep: char)
    requires sep !in b && sep !in c
    ensures Split(b + [sep] + c, sep) == [b, c]
  {
    SplitAfterPiece(b, sep, c);
    SplitPiece(c, sep);
  }

  lemma JoinAssoc(a: string, b: string, c: string, sep: char)
    ensures a + [sep] + b + [sep] + c == a + [sep] + (b + [sep] + c)
  {
  }

  function Repeat(c: char, n: nat): (r: string)
    ensures |r| == n
    ensures forall i :: 0 <= i < n ==> r[i] == c
  {
    if n == 0 then "" else [c] + Repeat(c, n - 1)
  }

  /** `s.padStart(n, fill)`: a string already `n` long or longer is returned
      unchanged (never truncated); a shorter one gets `fill` prepended up to
      length `n`. */
  function PadStart(s: string, n: nat, fill: char): (r: string)
    ensures |r| == if |s| >= n then |s| else n
    ensures r[|r| - |s|..] == s
    ensures forall i :: 0 <= i < |r| - |s| ==> r[i] == fill
  {
    if |s| >= n then s else Repeat(fill, n - |s|) + s
  }

  /** `s.slice(-k)` for `k >= 1`: the last `k` characters, or all of `s` when it
      is shorter. */
  function SliceLast(s: string, k: nat): (r: string)
    requires k >= 1
    ensures |r| == if |s| < k then |s| else k
    ensures s == s[..|s| - |r|] + r
  {
    if |s| < k then s else s[|s| - k..]
  }

  /** Where each piece of `a + [sep] + b + [sep] + c` sits. */
  lemma PiecesAt(a: string, b: string, c: string, sep: char)
    ensures var s := a + [sep] + b + [sep] + c;
      && |s| == |a| + |b| + |c| + 2
      && s[..|a|] == a && s[..|a| + 1] == a + [sep]
      && s[|a| + 1..|a| + 1 + |b|] == b && s[|a| + 1..|a| + 2 + |b|] == b + [sep]
      && s[|a| + 2 + |b|..] == c
  {
    var s := a + [sep] + b + [sep] + c;
    var t := a + [sep] + b;
    assert s == t + ([sep] + c);
    assert s[..|t|] == t;
    assert t[..|a|] == a;
    assert t[..|a| + 1] == a + [sep];
    assert s[|a| + 1..|a| + 1 + |b|] == t[|a| + 1..] == b;
    assert s[|a| + 1..|a| + 2 + |b|] == b + [sep];
    assert s[|t| + 1..] == c;
  }
}
