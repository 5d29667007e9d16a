/**
 * Text primitives used by the listings: whitespace as .NET's
 * `char.IsWhiteSpace` classifies it, a case fold, the case-insensitive
 * substring test behind `Contains`, and the order in which `OrderBy`
 * ranks nullable string keys.
 */
module Text {
  import opened Nullable

  /** `String.IsNullOrEmpty`. */
  predicate IsNullOrEmpty(s: Option<string>) {
    s.None? || s.value == ""
  }

  /** `char.IsWhiteSpace`: the Unicode space, line and paragraph separators plus U+0009..U+000D and U+0085. */
  predicate IsWhiteSpace(c: char) {
    var n := c as int;
    || n == 0x20 || (0x09 <= n <= 0x0D) || n == 0x85 || n == 0xA0
    || n == 0x1680 || (0x2000 <= n <= 0x200A) || n == 0x2028 || n == 0x2029
    || n == 0x202F || n == 0x205F || n == 0x3000
  }

  /** `String.IsNullOrWhiteSpace` for a present string: empty or made of whitespace only. */
  predicate IsBlank(s: string) {
    forall i :: 0 <= i < |s| ==> IsWhiteSpace(s[i])
  }

  /**
   * The case fold under which search terms are compared and keys are
   * ordered: ASCII lower-case letters map to upper case, every other
   * character to itself.
   */
  function Fold(c: char): (f: char)
    ensures 'a' <= c <= 'z' ==> 'A' <= f <= 'Z' && f as int - c as int == 'A' as int - 'a' as int
    ensures !('a' <= c <= 'z') ==> f == c
  {
    if 'a' <= c <= 'z' then (c as int - 32) as char else c
  }

  /** Folding twice is folding once, and folding undoes lower-casing an upper-case ASCII letter. */
  lemma FoldProperties(c: char)
    ensures Fold(Fold(c)) == Fold(c)
    ensures 'A' <= c <= 'Z' ==> Fold((c as int + 32) as char) == c
  {
  }

  /** Case-insensitive equality of two characters. */
  predicate SameLetter(a: char, b: char) {
    Fold(a) == Fold(b)
  }

  /** `needle` occurs in `hay` at position `i`, case-insensitively. */
  ghost predicate OccursAt(hay: string, needle: string, i: int) {
    0 <= i && i + |needle| <= |hay| &&
    forall k :: 0 <= k < |needle| ==> SameLetter(hay[i + k], needle[k])
  }

  /** `hay` begins with `needle`, case-insensitively. */
  predicate StartsWith(hay: string, needle: string) {
    |needle| <= |hay| && forall k :: 0 <= k < |needle| ==> SameLetter(hay[k], needle[k])
  }

  /** `String.Contains` under a case-insensitive collation: a scan of every start position. */
  predicate Contains(hay: string, needle: string) {
    StartsWith(hay, needle) || (hay != [] && Contains(hay[1..], needle))
  }

  /**
   * `field.Contains(term)` inside a database query: a null column never
   * matches (SQL's `NULL LIKE ...` is not true).
   */
  predicate FieldContains(field: Option<string>, term: string) {
    field.Some? && Contains(field.value, term)
  }

  /** The scan finds an occurrence exactly when one exists. */
  lemma {:induction false} ContainsIffOccurs(hay: string, needle: string)
    ensures Contains(hay, needle) <==> exists i :: OccursAt(hay, needle, i)
  {
    if StartsWith(hay, needle) {
      assert OccursAt(hay, needle, 0);
    } else if hay == [] {
      if i :| OccursAt(hay, needle, i) {
        assert StartsWith(hay, needle);
      }
    } else {
      ContainsIffOccurs(hay[1..], needle);
      if Contains(hay[1..], needle) {
        var i :| OccursAt(hay[1..], needle, i);
        assert OccursAt(hay, needle, i + 1);
      }
      if i :| OccursAt(hay, needle, i) {
        assert i != 0;
        assert OccursAt(hay[1..], needle, i - 1);
      }
    }
  }

  /** The empty term occurs in every string, and no longer term occurs in a shorter string. */
  lemma {:induction false} ContainsLength(hay: string, needle: string)
    ensures needle == [] ==> Contains(hay, needle)
    ensures |needle| > |hay| ==> !Contains(hay, needle)
  {
    if hay != [] {
      ContainsLength(hay[1..], needle);
    }
  }

  /** Case does not matter to the search: upper-casing the term finds the same strings. */
  lemma {:induction false} ContainsIgnoresCase(hay: string, needle: string)
    ensures Contains(hay, needle) <==> Contains(hay, FoldAll(needle))
  {
    assert |FoldAll(needle)| == |needle|;
    assert forall k :: 0 <= k < |needle| ==> Fold(FoldAll(needle)[k]) == Fold(needle[k]);
    assert StartsWith(hay, needle) <==> StartsWith(hay, FoldAll(needle));
    if hay != [] {
      ContainsIgnoresCase(hay[1..], needle);
    }
  }

  /** Every character of `s` folded. */
  function FoldAll(s: string): (r: string)
    ensures |r| == |s| && forall k :: 0 <= k < |s| ==> r[k] == Fold(s[k])
  {
    seq(|s|, k requires 0 <= k < |s| => Fold(s[k]))
  }

  /**
   * Case-insensitive lexicographic order on strings: the order `OrderBy`
   * applies to a string key.  A proper prefix comes first.
   */
  predicate LexLe(a: string, b: string) {
    a == [] ||
    (b != [] &&
     (Fold(a[0]) < Fold(b[0]) || (Fold(a[0]) == Fold(b[0]) && LexLe(a[1..], b[1..]))))
  }

  /** Order on nullable string keys: null sorts before every string, as in SQL Server. */
  predicate KeyLe(a: Option<string>, b: Option<string>) {
    match (a, b)
    case (None, _) => true
    case (Some(_), None) => false
    case (Some(x), Some(y)) => LexLe(x, y)
  }

  lemma {:induction false} LexLeReflexive(a: string)
    ensures LexLe(a, a)
  {
    if a != [] {
      LexLeReflexive(a[1..]);
    }
  }

  lemma {:induction false} LexLeTotal(a: string, b: string)
    ensures LexLe(a, b) || LexLe(b, a)
  {
    if a != [] && b != [] && Fold(a[0]) == Fold(b[0]) {
      LexLeTotal(a[1..], b[1..]);
    }
  }

  lemma {:induction false} LexLeTransitive(a: string, b: string, c: string)
    requires LexLe(a, b) && LexLe(b, c)
    ensures LexLe(a, c)
  {
    if a != [] && Fold(a[0]) == Fold(b[0]) && Fold(b[0]) == Fold(c[0]) {
      LexLeTransitive(a[1..], b[1..], c[1..]);
    }
  }

  /** The key order is a total preorder, the precondition of a well-defined sort. */
  lemma KeyLeTotal(a: Option<string>, b: Option<string>)
    ensures KeyLe(a, b) || KeyLe(b, a)
  {
    if a.Some? && b.Some? {
      LexLeTotal(a.value, b.value);
    }
  }

  lemma KeyLeTransitive(a: Option<string>, b: Option<string>, c: Option<string>)
    requires KeyLe(a, b) && KeyLe(b, c)
    ensures KeyLe(a, c)
  {
    if a.Some? {
      LexLeTransitive(a.value, b.value, c.value);
    }
  }

  lemma KeyLeReflexive(a: Option<string>)
    ensures KeyLe(a, a)
  {
    if a.Some? {
      LexLeReflexive(a.value);
    }
  }
}
