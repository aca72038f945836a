/** The three-way comparison results of Rust's `std::cmp`, the `Option`
    that wraps a partial comparison, and the lexicographic comparison
    that `String::cmp` performs on two strings.

    Rust compares `String`s byte by byte over their UTF-8 encoding; UTF-8
    is order-preserving, so that is the same as comparing the sequences of
    Unicode scalar values one by one, which is what `LexCmp` does on
    Dafny's `string` (a `seq<char>`). Dafny's own `<` on sequences means
    "proper prefix", so it is not used for names. */
module Orderings {

  /** `std::cmp::Ordering`. */
  datatype Ordering = Less | Equal | Greater {

    /** `Ordering::reverse`: swaps `Less` and `Greater`. */
    function Reverse(): Ordering
    {
      match this
      case Less => Greater
      case Equal => Equal
      case Greater => Less
    }
  }

  /** `std::option::Option`, for `partial_cmp`. */
  datatype Option<+T> = None | Some(value: T)

  /** Lexicographic comparison of two strings, character by character;
      a proper prefix comes first. It answers Equal exactly for equal
      strings. */
  function LexCmp(a: string, b: string): (r: Ordering)
    ensures r == Equal <==> a == b
    decreases |a|
  {
    if |a| == 0 && |b| == 0 then Equal
    else if |a| == 0 then Less
    else if |b| == 0 then Greater
    else if a[0] < b[0] then Less
    else if b[0] < a[0] then Greater
    else
      assert a == [a[0]] + a[1..] && b == [b[0]] + b[1..];
      LexCmp(a[1..], b[1..])
  }

  /** Reference definition of "a sorts strictly before b": either a is a
      proper prefix of b, or at the first position where they differ a has
      the smaller character. */
  ghost predicate LexLess(a: string, b: string) {
    || (|a| < |b| && a == b[..|a|])
    || (exists k :: 0 <= k < |a| && k < |b| && a[..k] == b[..k] && a[k] < b[k])
  }

  /** Swapping the arguments reverses the result. */
  lemma {:induction false} LexCmpAntisymmetric(a: string, b: string)
    ensures LexCmp(b, a) == LexCmp(a, b).Reverse()
    decreases |a|
  {
    if |a| > 0 && |b| > 0 && a[0] == b[0] {
      LexCmpAntisymmetric(a[1..], b[1..]);
    }
  }

  /** Strictly-before is transitive. */
  lemma {:induction false} LexCmpLessTransitive(a: string, b: string, c: string)
    requires LexCmp(a, b) == Less && LexCmp(b, c) == Less
    ensures LexCmp(a, c) == Less
    decreases |a|
  {
    if |a| > 0 {
      assert |b| > 0 && |c| > 0;
      if a[0] == b[0] && b[0] == c[0] {
        LexCmpLessTransitive(a[1..], b[1..], c[1..]);
      }
    }
  }

  /** Before-or-equal is transitive too, and so the comparison is a total
      preorder whose equivalence classes are single strings: a total order. */
  lemma LexCmpTransitive(a: string, b: string, c: string)
    requires LexCmp(a, b) != Greater && LexCmp(b, c) != Greater
    ensures LexCmp(a, c) != Greater
    ensures LexCmp(a, c) == Equal ==> a == b == c
  {
    if LexCmp(a, b) == Less && LexCmp(b, c) == Less {
      LexCmpLessTransitive(a, b, c);
    } else if LexCmp(a, c) == Equal {
      // a == c, and a <= b <= a forces a == b
      LexCmpAntisymmetric(a, b);
    }
  }

  /** Two strings with the same first character are ordered by their tails:
      from the whole strings to the tails. */
  lemma LexLessDropHead(a: string, b: string)
    requires |a| > 0 && |b| > 0 && a[0] == b[0]
    requires LexLess(a, b)
    ensures LexLess(a[1..], b[1..])
  {
    var a', b' := a[1..], b[1..];
    if |a| < |b| && a == b[..|a|] {
      assert a' == b'[..|a'|];
    } else {
      var k :| 0 <= k < |a| && k < |b| && a[..k] == b[..k] && a[k] < b[k];
      assert k != 0;
      assert a'[..k - 1] == a[1..k] == b[1..k] == b'[..k - 1];
      assert a'[k - 1] < b'[k - 1];
    }
  }

  /** Two strings with the same first character are ordered by their tails:
      from the tails to the whole strings. */
  lemma LexLessAddHead(a: string, b: string)
    requires |a| > 0 && |b| > 0 && a[0] == b[0]
    requires LexLess(a[1..], b[1..])
    ensures LexLess(a, b)
  {
    var a', b' := a[1..], b[1..];
    if |a'| < |b'| && a' == b'[..|a'|] {
      assert a == [a[0]] + a' && b[..|a|] == [b[0]] + b'[..|a'|];
    } else {
      var k :| 0 <= k < |a'| && k < |b'| && a'[..k] == b'[..k] && a'[k] < b'[k];
      assert a[..k + 1] == [a[0]] + a'[..k] && b[..k + 1] == [b[0]] + b'[..k];
      assert a[k + 1] < b[k + 1];
    }
  }

  /** The recursive comparison agrees with the reference definition. */
  lemma {:induction false} LexCmpLessIff(a: string, b: string)
    ensures LexCmp(a, b) == Less <==> LexLess(a, b)
    decreases |a|
  {
    if |a| == 0 && |b| == 0 {
    } else if |a| == 0 {
      assert a == b[..0];
    } else if |b| == 0 {
    } else if a[0] < b[0] {
      assert a[..0] == b[..0];
    } else if b[0] < a[0] {
      // a first difference can only be at position 0, where b is smaller
      forall k | 0 < k <= |a| && k <= |b|
        ensures a[..k] != b[..k]
      {
        assert a[..k][0] == a[0] && b[..k][0] == b[0];
      }
    } else {
      LexCmpLessIff(a[1..], b[1..]);
      if LexLess(a, b) { LexLessDropHead(a, b); }
      if LexLess(a[1..], b[1..]) { LexLessAddHead(a, b); }
    }
  }
}
