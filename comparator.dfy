/**
 * Byte-lexicographic comparison of opaque byte strings (comparator.c), and
 * the ordering contract every tree comparator must meet (binary_tree.h).
 */
module Comparator {

  /** A C `char`, taken to be signed 8-bit: `*ap - *bp` subtracts two of these. */
  type Char = c: int | -128 <= c < 128

  /** A run of bytes `(ptr, len)`: its length is the sequence's length. */
  type Bytes = seq<Char>

  /** A comparator with its context argument already bound. */
  type Compare = (Bytes, Bytes) -> int

  /**
   * The contract of `binary_tree_comparator`: a strict weak order. A negative
   * result means "less", zero "same key", positive "greater"; keys comparing
   * zero are interchangeable in every other comparison.
   */
  ghost predicate StrictWeakOrder(cmp: Compare)
  {
    && (forall a, b :: cmp(a, b) < 0 <==> cmp(b, a) > 0)
    && (forall a, b, c :: cmp(a, b) < 0 && cmp(b, c) < 0 ==> cmp(a, c) < 0)
    && (forall a, b, c :: cmp(a, b) == 0 && cmp(b, c) == 0 ==> cmp(a, c) == 0)
    && (forall a, b, c :: cmp(a, b) == 0 && cmp(b, c) < 0 ==> cmp(a, c) < 0)
    && (forall a, b, c :: cmp(a, b) < 0 && cmp(b, c) == 0 ==> cmp(a, c) < 0)
  }

  // ---------------------------------------------------------------------
  // compare_lex
  // ---------------------------------------------------------------------

  /** `*ap - *bp`: both bytes promoted to int before subtracting. */
  function Diff(x: Char, y: Char): int
  {
    x as int - y as int
  }

  /**
   * compare_lex: scans both strings in step. At the first position where one
   * string has ended, that string is smaller (-1 or 1); at the first position
   * where the bytes differ, the result is their difference; 0 if both end
   * together.
   */
  function CompareLex(a: Bytes, b: Bytes): int
  {
    if |a| == 0 && |b| == 0 then 0
    else if |a| == 0 then -1
    else if |b| == 0 then 1
    else if Diff(a[0], b[0]) != 0 then Diff(a[0], b[0])
    else CompareLex(a[1..], b[1..])
  }

  /** The result is 0 exactly when both lengths and all bytes agree. */
  lemma {:induction false} CompareLexZeroIff(a: Bytes, b: Bytes)
    ensures CompareLex(a, b) == 0 <==> a == b
  {
    if |a| > 0 && |b| > 0 && a[0] == b[0] {
      CompareLexZeroIff(a[1..], b[1..]);
      assert a == [a[0]] + a[1..] && b == [b[0]] + b[1..];
    }
  }

  /** A proper prefix compares smaller, by exactly -1 (and the other way round by 1). */
  lemma {:induction false} CompareLexPrefix(a: Bytes, b: Bytes)
    requires |a| < |b| && a == b[..|a|]
    ensures CompareLex(a, b) == -1 && CompareLex(b, a) == 1
  {
    if |a| > 0 {
      assert a[1..] == b[1..][..|a| - 1];
      CompareLexPrefix(a[1..], b[1..]);
    }
  }

  /** Past a common prefix, the first differing bytes decide: the result is their difference. */
  lemma {:induction false} CompareLexFirstDifference(a: Bytes, b: Bytes, i: nat)
    requires i < |a| && i < |b| && a[..i] == b[..i] && a[i] != b[i]
    ensures CompareLex(a, b) == Diff(a[i], b[i])
  {
    if i > 0 {
      assert a[0] == a[..i][0] && b[0] == b[..i][0];
      assert a[1..][..i - 1] == b[1..][..i - 1] by {
        assert a[1..][..i - 1] == a[..i][1..];
        assert b[1..][..i - 1] == b[..i][1..];
      }
      CompareLexFirstDifference(a[1..], b[1..], i - 1);
    }
  }

  /** Swapping the operands negates the result exactly. */
  lemma {:induction false} CompareLexAntisymmetric(a: Bytes, b: Bytes)
    ensures CompareLex(a, b) == -CompareLex(b, a)
  {
    if |a| > 0 && |b| > 0 && a[0] == b[0] {
      CompareLexAntisymmetric(a[1..], b[1..]);
    }
  }

  /** "Less" is transitive. */
  lemma {:induction false} CompareLexTransitive(a: Bytes, b: Bytes, c: Bytes)
    requires CompareLex(a, b) < 0 && CompareLex(b, c) < 0
    ensures CompareLex(a, c) < 0
  {
    if |a| > 0 && |b| > 0 && |c| > 0 && a[0] == b[0] && b[0] == c[0] {
      CompareLexTransitive(a[1..], b[1..], c[1..]);
    }
  }

  /** compare_lex meets the tree's comparator contract. */
  lemma CompareLexIsStrictWeakOrder()
    ensures StrictWeakOrder(CompareLex)
  {
    forall a, b ensures CompareLex(a, b) < 0 <==> CompareLex(b, a) > 0 {
      CompareLexAntisymmetric(a, b);
    }
    forall a, b, c | CompareLex(a, b) < 0 && CompareLex(b, c) < 0 ensures CompareLex(a, c) < 0 {
      CompareLexTransitive(a, b, c);
    }
    forall a, b | CompareLex(a, b) == 0 ensures a == b {
      CompareLexZeroIff(a, b);
    }
  }

  // ---------------------------------------------------------------------
  // compare_lex_to
  // ---------------------------------------------------------------------

  /** 1 when the C comparison `x == end` holds, else 0. */
  function IsEnd(x: Char, end: Char): int
  {
    if x == end then 1 else 0
  }

  /**
   * compare_lex_to: like compare_lex, but at each position a byte equal to
   * `end` ranks below every other byte. The scan does not stop at `end`.
   */
  function CompareLexTo(a: Bytes, b: Bytes, end: Char): int
  {
    if |a| == 0 && |b| == 0 then 0
    else if |a| == 0 then -1
    else if |b| == 0 then 1
    else if IsEnd(b[0], end) - IsEnd(a[0], end) != 0 then IsEnd(b[0], end) - IsEnd(a[0], end)
    else if Diff(a[0], b[0]) != 0 then Diff(a[0], b[0])
    else CompareLexTo(a[1..], b[1..], end)
  }

  /** The result is 0 exactly for identical inputs. */
  lemma {:induction false} CompareLexToZeroIff(a: Bytes, b: Bytes, end: Char)
    ensures CompareLexTo(a, b, end) == 0 <==> a == b
  {
    if |a| > 0 && |b| > 0 && a[0] == b[0] {
      CompareLexToZeroIff(a[1..], b[1..], end);
      assert a == [a[0]] + a[1..] && b == [b[0]] + b[1..];
    }
  }

  /**
   * At the first position where exactly one side holds `end`, that side is
   * smaller, whatever the bytes are.
   */
  lemma {:induction false} CompareLexToEndRanksLowest(a: Bytes, b: Bytes, end: Char, i: nat)
    requires i < |a| && i < |b| && a[..i] == b[..i]
    requires (a[i] == end) != (b[i] == end)
    ensures CompareLexTo(a, b, end) == if a[i] == end then -1 else 1
  {
    if i > 0 {
      assert a[0] == a[..i][0] && b[0] == b[..i][0];
      assert a[1..][..i - 1] == b[1..][..i - 1] by {
        assert a[1..][..i - 1] == a[..i][1..];
        assert b[1..][..i - 1] == b[..i][1..];
      }
      CompareLexToEndRanksLowest(a[1..], b[1..], end, i - 1);
    }
  }

  /**
   * The scan does not stop at `end`: after any common prefix, even one that
   * contains `end`, the remainders decide.
   */
  lemma {:induction false} CompareLexToSkipsCommonPrefix(p: Bytes, x: Bytes, y: Bytes, end: Char)
    ensures CompareLexTo(p + x, p + y, end) == CompareLexTo(x, y, end)
  {
    if |p| > 0 {
      assert (p + x)[0] == p[0] == (p + y)[0];
      assert (p + x)[1..] == p[1..] + x && (p + y)[1..] == p[1..] + y;
      CompareLexToSkipsCommonPrefix(p[1..], x, y, end);
    } else {
      assert p + x == x && p + y == y;
    }
  }

  /** When neither input contains `end`, compare_lex_to agrees with compare_lex. */
  lemma {:induction false} CompareLexToWithoutEnd(a: Bytes, b: Bytes, end: Char)
    requires end !in a && end !in b
    ensures CompareLexTo(a, b, end) == CompareLex(a, b)
  {
    if |a| > 0 && |b| > 0 && a[0] == b[0] {
      assert end !in a[1..] && end !in b[1..];
      CompareLexToWithoutEnd(a[1..], b[1..], end);
    }
  }

  /** Swapping the operands negates the result exactly. */
  lemma {:induction false} CompareLexToAntisymmetric(a: Bytes, b: Bytes, end: Char)
    ensures CompareLexTo(a, b, end) == -CompareLexTo(b, a, end)
  {
    if |a| > 0 && |b| > 0 && a[0] == b[0] {
      CompareLexToAntisymmetric(a[1..], b[1..], end);
    }
  }

  /** "Less" is transitive. */
  lemma {:induction false} CompareLexToTransitive(a: Bytes, b: Bytes, c: Bytes, end: Char)
    requires CompareLexTo(a, b, end) < 0 && CompareLexTo(b, c, end) < 0
    ensures CompareLexTo(a, c, end) < 0
  {
    if |a| > 0 && |b| > 0 && |c| > 0 && a[0] == b[0] && b[0] == c[0] {
      CompareLexToTransitive(a[1..], b[1..], c[1..], end);
    }
  }

  /** compare_lex_to, for any fixed `end`, meets the tree's comparator contract. */
  lemma CompareLexToIsStrictWeakOrder(end: Char)
    ensures StrictWeakOrder((a, b) => CompareLexTo(a, b, end))
  {
    forall a, b ensures CompareLexTo(a, b, end) < 0 <==> CompareLexTo(b, a, end) > 0 {
      CompareLexToAntisymmetric(a, b, end);
    }
    forall a, b, c | CompareLexTo(a, b, end) < 0 && CompareLexTo(b, c, end) < 0
      ensures CompareLexTo(a, c, end) < 0
    {
      CompareLexToTransitive(a, b, c, end);
    }
    forall a, b | CompareLexTo(a, b, end) == 0 ensures a == b {
      CompareLexToZeroIff(a, b, end);
    }
  }
}
