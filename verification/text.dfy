/** Strings as the repositories use them: the .NET null/blank tests on a
    search query, substring search, and name comparison under a collation. */
module Text {
  import opened Values

  type String = seq<char>

  /** `char.IsWhiteSpace`: the Unicode White_Space characters .NET
      recognises (U+0009..U+000D, U+0020, U+0085, U+00A0, U+1680,
      U+2000..U+200A, U+2028, U+2029, U+202F, U+205F, U+3000). */
  predicate IsWhiteSpace(c: char) {
    var n := c as int;
    || 0x09 <= n <= 0x0D
    || n == 0x20 || n == 0x85 || n == 0xA0 || n == 0x1680
    || 0x2000 <= n <= 0x200A
    || n == 0x2028 || n == 0x2029 || n == 0x202F || n == 0x205F || n == 0x3000
  }

  /** `string.IsNullOrEmpty`. */
  predicate IsNullOrEmpty(s: Option<String>) {
    s.None? || |s.value| == 0
  }

  /** `string.IsNullOrWhiteSpace`. */
  predicate IsNullOrWhiteSpace(s: Option<String>) {
    s.None? || forall i | 0 <= i < |s.value| :: IsWhiteSpace(s.value[i])
  }

  lemma EmptyIsBlank(s: Option<String>)
    ensures IsNullOrEmpty(s) ==> IsNullOrWhiteSpace(s)
    ensures IsNullOrWhiteSpace(Some(" ")) && !IsNullOrEmpty(Some(" "))
  {
  }

  /** `q` occurs in `s` starting at position `i`. */
  predicate OccursAt<T(==)>(s: seq<T>, q: seq<T>, i: int) {
    0 <= i && i + |q| <= |s| && s[i..i + |q|] == q
  }

  /** Substring search: `q` occurs somewhere in `s` (ordinal `string.Contains`
      when `T` is `char`). */
  predicate Contains<T(==)>(s: seq<T>, q: seq<T>) {
    exists i | 0 <= i <= |s| - |q| :: OccursAt(s, q, i)
  }

  /** A collation, reduced to what the queries need: a weight per character.
      Two strings compare character by character on their weights, and a
      substring matches when its weights match. A case-insensitive collation
      gives `'a'` and `'A'` the same weight. */
  datatype Collation = Collation(weight: char -> int)

  /** Ordinal matching: a character weighs its code point, so two strings
      match exactly where their characters are equal. */
  const Ordinal: Collation := Collation(c => c as int)

  function Weigh(col: Collation, s: String): (w: seq<int>)
    ensures |w| == |s|
    ensures forall i | 0 <= i < |s| :: w[i] == col.weight(s[i])
  {
    seq(|s|, i requires 0 <= i < |s| => col.weight(s[i]))
  }

  /** Substring search as the database performs it under `col`. */
  predicate CollatedContains(col: Collation, s: String, q: String) {
    Contains(Weigh(col, s), Weigh(col, q))
  }

  /** Under the ordinal collation the database's substring search is the
      in-memory `string.Contains`. */
  lemma OrdinalContains(s: String, q: String)
    ensures CollatedContains(Ordinal, s, q) <==> Contains(s, q)
  {
    var ws, wq := Weigh(Ordinal, s), Weigh(Ordinal, q);
    forall i | 0 <= i <= |s| - |q|
      ensures OccursAt(ws, wq, i) <==> OccursAt(s, q, i)
    {
      if OccursAt(ws, wq, i) {
        forall j | 0 <= j < |q| ensures s[i + j] == q[j] {
          assert ws[i..i + |q|][j] == wq[j];
        }
      }
      if OccursAt(s, q, i) {
        forall j | 0 <= j < |q| ensures ws[i..i + |q|][j] == wq[j] {
          assert s[i..i + |q|][j] == q[j];
        }
      }
    }
    if Contains(ws, wq) {
      var i :| 0 <= i <= |ws| - |wq| && OccursAt(ws, wq, i);
      assert OccursAt(s, q, i);
    }
    if Contains(s, q) {
      var i :| 0 <= i <= |s| - |q| && OccursAt(s, q, i);
      assert OccursAt(ws, wq, i);
    }
  }

  /** Lexicographic order on weight sequences: a proper prefix comes first. */
  predicate LexLe(a: seq<int>, b: seq<int>)
    decreases |a|
  {
    |a| == 0 || (|b| > 0 && (a[0] < b[0] || (a[0] == b[0] && LexLe(a[1..], b[1..]))))
  }

  lemma {:induction false} LexLeTotal(a: seq<int>, b: seq<int>)
    ensures LexLe(a, b) || LexLe(b, a)
    decreases |a|
  {
    if |a| > 0 && |b| > 0 && a[0] == b[0] {
      LexLeTotal(a[1..], b[1..]);
    }
  }

  lemma {:induction false} LexLeTransitive(a: seq<int>, b: seq<int>, c: seq<int>)
    requires LexLe(a, b) && LexLe(b, c)
    ensures LexLe(a, c)
    decreases |a|
  {
    if |a| > 0 && a[0] == b[0] && b[0] == c[0] {
      LexLeTransitive(a[1..], b[1..], c[1..]);
    }
  }

  /** `ORDER BY Name` under `col`: a null name sorts before every string. */
  predicate NameLe(col: Collation, x: Option<String>, y: Option<String>) {
    x.None? || (y.Some? && LexLe(Weigh(col, x.value), Weigh(col, y.value)))
  }

  lemma NameLeTotal(col: Collation, x: Option<String>, y: Option<String>)
    ensures NameLe(col, x, y) || NameLe(col, y, x)
  {
    if x.Some? && y.Some? {
      LexLeTotal(Weigh(col, x.value), Weigh(col, y.value));
    }
  }

  lemma NameLeTransitive(col: Collation, x: Option<String>, y: Option<String>, z: Option<String>)
    requires NameLe(col, x, y) && NameLe(col, y, z)
    ensures NameLe(col, x, z)
  {
    if x.Some? {
      LexLeTransitive(Weigh(col, x.value), Weigh(col, y.value), Weigh(col, z.value));
    }
  }
}
