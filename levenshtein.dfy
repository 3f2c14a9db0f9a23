/**
 * The Levenshtein distance of the worker utilities (worker/utils.ts).
 *
 * `EditDistance` is the specification: the usual recurrence on the last
 * characters of the two strings, written the way the dynamic-programming
 * table of the worker fills its cells (a matching pair copies the diagonal,
 * otherwise one plus the least of diagonal, left and up). `Levenshtein` is
 * the worker's table-filling algorithm over a two-dimensional array whose
 * rows follow `b` and whose columns follow `a`.
 *
 * A JavaScript string is a sequence of UTF-16 code units: `length` counts
 * them and `charAt` returns one, so a character outside the Basic
 * Multilingual Plane counts as two. Strings are modelled that way here.
 */
module WorkerUtils {

  /** One UTF-16 code unit. */
  newtype CodeUnit = x: int | 0 <= x < 0x1_0000

  /** A JavaScript string, as its sequence of code units. */
  type Utf16 = seq<CodeUnit>

  function Min(x: nat, y: nat): nat
  {
    if x <= y then x else y
  }

  /** Edit distance between `a` and `b`: single code-unit insertions,
      deletions and substitutions, code units compared exactly. */
  function EditDistance(a: Utf16, b: Utf16): nat
    decreases |a| + |b|
  {
    if |a| == 0 then |b|
    else if |b| == 0 then |a|
    else if b[|b| - 1] == a[|a| - 1] then EditDistance(a[..|a| - 1], b[..|b| - 1])
    else Min(EditDistance(a[..|a| - 1], b[..|b| - 1]) + 1,      // substitution
             Min(EditDistance(a[..|a| - 1], b) + 1,             // insertion
                 EditDistance(a, b[..|b| - 1]) + 1))            // deletion
  }

  /** The cell rule of the table, stated on prefixes: cell (i, j) holds the
      distance between the first j characters of `a` and the first i of `b`. */
  lemma CellRecurrence(a: Utf16, b: Utf16, i: nat, j: nat)
    requires 1 <= i <= |b| && 1 <= j <= |a|
    ensures EditDistance(a[..j], b[..i]) ==
      if b[i - 1] == a[j - 1] then EditDistance(a[..j - 1], b[..i - 1])
      else Min(EditDistance(a[..j - 1], b[..i - 1]) + 1,
               Min(EditDistance(a[..j - 1], b[..i]) + 1,
                   EditDistance(a[..j], b[..i - 1]) + 1))
  {
    assert a[..j][..j - 1] == a[..j - 1];
    assert b[..i][..i - 1] == b[..i - 1];
  }

  /** The cell rule applied to the three neighbouring cells' values. */
  lemma CellStep(a: Utf16, b: Utf16, i: nat, j: nat, diag: nat, left: nat, up: nat)
    requires 1 <= i <= |b| && 1 <= j <= |a|
    requires diag == EditDistance(a[..j - 1], b[..i - 1])
    requires left == EditDistance(a[..j - 1], b[..i])
    requires up == EditDistance(a[..j], b[..i - 1])
    ensures EditDistance(a[..j], b[..i]) ==
      if b[i - 1] == a[j - 1] then diag else Min(diag + 1, Min(left + 1, up + 1))
  {
    CellRecurrence(a, b, i, j);
  }

  /** Row 0 and column 0 of the table, stated on prefixes. */
  lemma TableBorders(a: Utf16, b: Utf16)
    ensures forall c :: 0 <= c <= |a| ==> EditDistance(a[..c], b[..0]) == c
    ensures forall r :: 0 <= r <= |b| ==> EditDistance(a[..0], b[..r]) == r
    ensures EditDistance(a, []) == |a| && EditDistance([], b) == |b|
  {
  }

  /** The worker's algorithm: a (|b|+1) x (|a|+1) table, row 0 and column 0
      set to their index, then every other cell filled row by row. */
  method Levenshtein(a: Utf16, b: Utf16) returns (d: nat)
    ensures d == EditDistance(a, b)
  {
    var matrix := new nat[|b| + 1, |a| + 1];

    var i := 0;
    while i <= |b|
      invariant 0 <= i <= |b| + 1
      invariant forall r :: 0 <= r < i ==> matrix[r, 0] == r
    {
      matrix[i, 0] := i;
      i := i + 1;
    }

    var j := 0;
    while j <= |a|
      invariant 0 <= j <= |a| + 1
      invariant forall c :: 0 <= c < j ==> matrix[0, c] == c
      invariant forall r :: 0 <= r <= |b| ==> matrix[r, 0] == r
    {
      matrix[0, j] := j;
      j := j + 1;
    }

    TableBorders(a, b);
    i := 1;
    while i <= |b|
      invariant 1 <= i <= |b| + 1
      invariant forall r, c {:trigger matrix[r, c]} :: 0 <= r <= |b| && 0 <= c <= |a| && (r < i || c == 0) ==>
                  matrix[r, c] == EditDistance(a[..c], b[..r])
    {
      j := 1;
      while j <= |a|
        invariant 1 <= j <= |a| + 1
        invariant forall r, c {:trigger matrix[r, c]} :: 0 <= r <= |b| && 0 <= c <= |a| && (r < i || c == 0 || (r == i && c < j)) ==>
                    matrix[r, c] == EditDistance(a[..c], b[..r])
      {
        CellStep(a, b, i, j, matrix[i - 1, j - 1], matrix[i, j - 1], matrix[i - 1, j]);
        if b[i - 1] == a[j - 1] {
          matrix[i, j] := matrix[i - 1, j - 1];
        } else {
          matrix[i, j] := Min(matrix[i - 1, j - 1] + 1,     // substitution
                              Min(matrix[i, j - 1] + 1,     // insertion
                                  matrix[i - 1, j] + 1));   // deletion
        }
        assert matrix[i, j] == EditDistance(a[..j], b[..i]);
        j := j + 1;
      }
      i := i + 1;
    }

    assert a[..|a|] == a && b[..|b|] == b;
    d := matrix[|b|, |a|];
  }

  /** A string is at distance 0 from itself. */
  lemma {:induction false} EditDistanceSelf(a: Utf16)
    ensures EditDistance(a, a) == 0
  {
    if |a| > 0 {
      EditDistanceSelf(a[..|a| - 1]);
    }
  }

  /** Distance 0 means the strings are equal, and only then. */
  lemma {:induction false} EditDistanceZeroIff(a: Utf16, b: Utf16)
    ensures EditDistance(a, b) == 0 <==> a == b
    decreases |a| + |b|
  {
    if a == b {
      EditDistanceSelf(a);
    } else if |a| > 0 && |b| > 0 && b[|b| - 1] == a[|a| - 1] {
      EditDistanceZeroIff(a[..|a| - 1], b[..|b| - 1]);
      assert a == a[..|a| - 1] + [a[|a| - 1]];
      assert b == b[..|b| - 1] + [b[|b| - 1]];
    }
  }

  /** Two one-unit strings are at distance 0 when the units are equal and
      at distance 1 otherwise: units are compared exactly. */
  lemma EditDistanceSingle(x: CodeUnit, y: CodeUnit)
    ensures EditDistance([x], [y]) == if x == y then 0 else 1
  {
    assert [x][..0] == [] && [y][..0] == [];
  }

  /** No case folding happens inside the distance: "A" (unit 0x41) and "a"
      (unit 0x61) differ, and so do "Sofia" and "sofia". */
  lemma EditDistanceCaseSensitive()
    ensures EditDistance([0x41], [0x61]) == 1
    ensures EditDistance([0x53, 0x6F, 0x66, 0x69, 0x61], [0x73, 0x6F, 0x66, 0x69, 0x61]) == 1
  {
    EditDistanceSingle(0x41, 0x61);
    var upper: Utf16 := [0x53, 0x6F, 0x66, 0x69, 0x61];
    var lower: Utf16 := [0x73, 0x6F, 0x66, 0x69, 0x61];
    assert upper[..1] == [0x53] && lower[..1] == [0x73];
    EditDistanceSingle(0x53, 0x73);
    CellRecurrence(upper, lower, 2, 2);
    CellRecurrence(upper, lower, 3, 3);
    CellRecurrence(upper, lower, 4, 4);
    CellRecurrence(upper, lower, 5, 5);
    assert upper[..5] == upper && lower[..5] == lower;
  }

  /** A character outside the Basic Multilingual Plane is two code units, so
      its distance from the empty string is 2: U+1F600 is 0xD83D 0xDE00. */
  lemma EditDistanceSurrogatePair()
    ensures EditDistance([0xD83D, 0xDE00], []) == 2
  {
  }

  /** The distance does not depend on the order of the arguments. */
  lemma {:induction false} EditDistanceSymmetric(a: Utf16, b: Utf16)
    ensures EditDistance(a, b) == EditDistance(b, a)
    decreases |a| + |b|
  {
    if |a| > 0 && |b| > 0 {
      var a', b' := a[..|a| - 1], b[..|b| - 1];
      EditDistanceSymmetric(a', b');
      EditDistanceSymmetric(a', b);
      EditDistanceSymmetric(a, b');
    }
  }

  /** The distance is at least the difference of the lengths and at most the
      longer length. */
  lemma {:induction false} EditDistanceBounds(a: Utf16, b: Utf16)
    ensures EditDistance(a, b) >= |a| - |b| && EditDistance(a, b) >= |b| - |a|
    ensures EditDistance(a, b) <= if |a| >= |b| then |a| else |b|
    decreases |a| + |b|
  {
    if |a| > 0 && |b| > 0 {
      var a', b' := a[..|a| - 1], b[..|b| - 1];
      EditDistanceBounds(a', b');
      EditDistanceBounds(a', b);
      EditDistanceBounds(a, b');
    }
  }

  /** The textbook recurrence: every cell is the least of the three edits,
      the diagonal step costing nothing when the last characters agree. */
  function StandardDistance(a: Utf16, b: Utf16): nat
    decreases |a| + |b|
  {
    if |a| == 0 then |b|
    else if |b| == 0 then |a|
    else
      var cost := if b[|b| - 1] == a[|a| - 1] then 0 else 1;
      Min(StandardDistance(a[..|a| - 1], b[..|b| - 1]) + cost,
          Min(StandardDistance(a[..|a| - 1], b) + 1,
              StandardDistance(a, b[..|b| - 1]) + 1))
  }

  /** Appending a character to `x` raises the distance by at most one. */
  lemma {:induction false} EditDistanceAppendBound(x: Utf16, y: Utf16)
    requires |x| > 0
    ensures EditDistance(x, y) <= EditDistance(x[..|x| - 1], y) + 1
    decreases |x| + |y|, 1
  {
    var x' := x[..|x| - 1];
    if |y| > 0 && y[|y| - 1] == x[|x| - 1] {
      var y' := y[..|y| - 1];
      EditDistanceDropBound(y, x');
      EditDistanceSymmetric(y', x');
      EditDistanceSymmetric(y, x');
    }
  }

  /** Removing the last character of `x` raises the distance by at most one. */
  lemma {:induction false} EditDistanceDropBound(x: Utf16, y: Utf16)
    requires |x| > 0
    ensures EditDistance(x[..|x| - 1], y) <= EditDistance(x, y) + 1
    decreases |x| + |y|, 0
  {
    var x' := x[..|x| - 1];
    if |y| > 0 {
      var y' := y[..|y| - 1];
      EditDistanceAppendBound(y, x');
      EditDistanceSymmetric(y, x');
      EditDistanceSymmetric(y', x');
      if y[|y| - 1] != x[|x| - 1] {
        EditDistanceDropBound(x, y');
      }
    }
  }

  /** Copying the diagonal on a match, as the table does, gives the same
      distance as the textbook recurrence that always takes the minimum. */
  lemma {:induction false} EditDistanceIsStandard(a: Utf16, b: Utf16)
    ensures EditDistance(a, b) == StandardDistance(a, b)
    decreases |a| + |b|
  {
    if |a| > 0 && |b| > 0 {
      var a', b' := a[..|a| - 1], b[..|b| - 1];
      EditDistanceIsStandard(a', b');
      EditDistanceIsStandard(a', b);
      EditDistanceIsStandard(a, b');
      if b[|b| - 1] == a[|a| - 1] {
        EditDistanceDropBound(a, b');
        EditDistanceDropBound(b, a');
        EditDistanceSymmetric(a', b);
        EditDistanceSymmetric(a', b');
      }
    }
  }
}
