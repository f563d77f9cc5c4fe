/**
 * The string operations the directory's filter and comparator call on:
 * `String.prototype.toLowerCase`, `String.prototype.includes` and
 * `String.prototype.localeCompare`. Lowercasing is modelled on ASCII letters
 * and locale comparison as lexicographic order on code points.
 */
module Text {

  predicate IsUpper(c: char) {
    'A' <= c <= 'Z'
  }

  /** Lowercase one character: ASCII capitals map to their small letter. */
  function LowerChar(c: char): (r: char)
    ensures !IsUpper(r)
    ensures r == c <==> !IsUpper(c)
    ensures IsUpper(c) ==> 'a' <= r <= 'z' && r as int == c as int + 32
  {
    if IsUpper(c) then (c as int + 32) as char else c
  }

  /**
   * Two characters lower to the same one exactly when they are equal or one
   * is the capital of the other, so matching after lowering ignores case.
   */
  lemma LowerCharCaseless(c: char, c': char)
    ensures LowerChar(c) == LowerChar(c') <==>
      (c == c' || (IsUpper(c) && c' as int == c as int + 32) || (IsUpper(c') && c as int == c' as int + 32))
  {
  }

  /** The model of `s.toLowerCase()`. */
  function Lower(s: string): (r: string)
    ensures |r| == |s|
    ensures forall i :: 0 <= i < |s| ==> r[i] == LowerChar(s[i])
  {
    if s == [] then [] else [LowerChar(s[0])] + Lower(s[1..])
  }

  /** Lowercasing is idempotent: a lowercased string has nothing left to lower. */
  lemma LowerIdempotent(s: string)
    ensures Lower(Lower(s)) == Lower(s)
  {
    var l := Lower(s);
    assert forall i :: 0 <= i < |l| ==> Lower(l)[i] == l[i];
  }

  /** `t` occurs in `s` starting at index `i`. */
  predicate OccursAt(s: string, t: string, i: nat) {
    i + |t| <= |s| && s[i..i + |t|] == t
  }

  /**
   * The model of `s.includes(t)`: `t` is a prefix of some suffix of `s`.
   * The empty term is included in every string, and no string includes a
   * longer one.
   */
  function Includes(s: string, t: string): (r: bool)
    ensures t == [] ==> r
    ensures r ==> |t| <= |s|
    decreases |s|
  {
    (|t| <= |s| && s[..|t|] == t) || (|s| > 0 && Includes(s[1..], t))
  }

  /** `Includes` holds exactly when `t` occurs at some index of `s`. */
  lemma {:induction false} IncludesIffOccurs(s: string, t: string)
    ensures Includes(s, t) <==> exists i: nat :: OccursAt(s, t, i)
    decreases |s|
  {
    if |t| <= |s| && s[..|t|] == t {
      assert OccursAt(s, t, 0);
    } else if |s| > 0 {
      IncludesIffOccurs(s[1..], t);
      if Includes(s[1..], t) {
        var i: nat :| OccursAt(s[1..], t, i);
        assert s[1..][i..i + |t|] == s[i + 1..i + 1 + |t|];
        assert OccursAt(s, t, i + 1);
      } else {
        forall i: nat | OccursAt(s, t, i) ensures false {
          if i > 0 {
            assert s[1..][i - 1..i - 1 + |t|] == s[i..i + |t|];
            assert OccursAt(s[1..], t, i - 1);
          }
        }
      }
    } else {
      assert forall i: nat :: !OccursAt(s, t, i);
    }
  }

  /** A non-empty term whose first character never occurs in `s` is not included in it. */
  lemma {:induction false} NotIncludedWithoutFirstChar(s: string, t: string)
    requires |t| > 0 && t[0] !in s
    ensures !Includes(s, t)
    decreases |s|
  {
    if |s| > 0 {
      NotIncludedWithoutFirstChar(s[1..], t);
    }
  }

  /** Every string includes the empty string, so an empty search term matches everything. */
  lemma IncludesEmpty(s: string)
    ensures Includes(s, "")
  {
  }

  /**
   * The model of `a.localeCompare(b)`: -1, 0 or 1 as `a` sorts before, with
   * or after `b` in code-point lexicographic order (a proper prefix first).
   */
  function LexCompare(a: string, b: string): (r: int)
    ensures -1 <= r <= 1
  {
    if a == [] && b == [] then 0
    else if a == [] then -1
    else if b == [] then 1
    else if a[0] < b[0] then -1
    else if a[0] > b[0] then 1
    else LexCompare(a[1..], b[1..])
  }

  /** Swapping the arguments negates the comparison. */
  lemma {:induction false} LexCompareAntisymmetric(a: string, b: string)
    ensures LexCompare(a, b) == -LexCompare(b, a)
  {
    if a != [] && b != [] && a[0] == b[0] {
      LexCompareAntisymmetric(a[1..], b[1..]);
    }
  }

  /** The comparison reports equality exactly for equal strings. */
  lemma {:induction false} LexCompareZeroIffEqual(a: string, b: string)
    ensures LexCompare(a, b) == 0 <==> a == b
  {
    if a != [] && b != [] && a[0] == b[0] {
      LexCompareZeroIffEqual(a[1..], b[1..]);
      assert a == [a[0]] + a[1..] && b == [b[0]] + b[1..];
    }
  }

  /** "Sorts no later than" is transitive. */
  lemma {:induction false} LexCompareTransitive(a: string, b: string, c: string)
    requires LexCompare(a, b) <= 0 && LexCompare(b, c) <= 0
    ensures LexCompare(a, c) <= 0
  {
    if a != [] && b != [] && c != [] && a[0] == b[0] == c[0] {
      LexCompareTransitive(a[1..], b[1..], c[1..]);
    }
  }
}
