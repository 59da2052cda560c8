/** Vocabulary shared by every part of the model: optional values, results, user
    identifiers, Python's whitespace class and word splitting, and the filter that
    an ORM query applies to a table. */
module Common {

  datatype Option<+T> = None | Some(value: T)

  datatype Result<+T, +E> = Success(value: T) | Failure(error: E)

  /** A user's primary key. */
  type UserId = nat

  /** A byte, as held by Python's `bytes`. */
  newtype byte = b: int | 0 <= b < 256

  /** Python's `str.isspace()`: the characters `str.strip()` removes and `str.split()`
      splits on. */
  predicate IsSpace(c: char) {
    ('\t' <= c <= '\r') || ('\U{1C}' <= c <= '\U{1F}') || c == ' ' || c == '\U{85}' ||
    c == '\U{A0}' || c == '\U{1680}' || ('\U{2000}' <= c <= '\U{200A}') || c == '\U{2028}' ||
    c == '\U{2029}' || c == '\U{202F}' || c == '\U{205F}' || c == '\U{3000}'
  }

  /** `bytes.isspace()`: ASCII space, tab, line feed, vertical tab, form feed, carriage return. */
  predicate IsSpaceByte(b: byte) {
    b == 32 || 9 <= b <= 13
  }

  /** ASCII lower-casing of one character; other characters are left alone. */
  function LowerChar(c: char): char {
    if 'A' <= c <= 'Z' then (c as int + 32) as char else c
  }

  function LowerByte(b: byte): byte {
    if 65 <= b <= 90 then b + 32 else b
  }

  /** Length of the longest prefix of `s` that holds no separator. */
  function WordLength<T>(s: seq<T>, sep: T -> bool): (n: nat)
    ensures n <= |s|
    ensures forall i | 0 <= i < n :: !sep(s[i])
    ensures n < |s| ==> sep(s[n])
  {
    if s == [] || sep(s[0]) then 0 else 1 + WordLength(s[1..], sep)
  }

  /** Python's `split()` without arguments: the maximal runs of non-separators, in order;
      leading, trailing and repeated separators produce no empty words. */
  function Words<T>(s: seq<T>, sep: T -> bool): (ws: seq<seq<T>>)
    ensures forall i | 0 <= i < |ws| :: ws[i] != []
    ensures forall i, j | 0 <= i < |ws| && 0 <= j < |ws[i]| :: !sep(ws[i][j])
    decreases |s|
  {
    if s == [] then []
    else if sep(s[0]) then Words(s[1..], sep)
    else
      var n := WordLength(s, sep);
      [s[..n]] + Words(s[n..], sep)
  }

  lemma {:induction false} WordLengthOfWord<T>(w: seq<T>, rest: seq<T>, sep: T -> bool)
    requires forall i | 0 <= i < |w| :: !sep(w[i])
    requires rest == [] || sep(rest[0])
    ensures WordLength(w + rest, sep) == |w|
  {
    if w != [] {
      assert (w + rest)[1..] == w[1..] + rest;
      WordLengthOfWord(w[1..], rest, sep);
    }
  }

  /** A word followed by one separator and a second word splits into exactly those two
      words. */
  lemma {:induction false} WordsOfPair<T>(a: seq<T>, space: T, b: seq<T>, sep: T -> bool)
    requires a != [] && b != [] && sep(space)
    requires forall i | 0 <= i < |a| :: !sep(a[i])
    requires forall i | 0 <= i < |b| :: !sep(b[i])
    ensures Words(a + [space] + b, sep) == [a, b]
  {
    var s := a + [space] + b;
    assert s == a + ([space] + b);
    WordLengthOfWord(a, [space] + b, sep);
    assert s[..|a|] == a;
    var tail := [space] + b;
    assert s[|a|..] == tail;
    assert tail[1..] == b;
    assert Words(tail, sep) == Words(b, sep);
    WordLengthOfWord(b, [], sep);
    assert b + [] == b;
    assert b[..|b|] == b;
    assert b[|b|..] == [];
    assert Words(b, sep) == [b] + Words([], sep);
    assert Words(s, sep) == [a] + Words(tail, sep);
  }

  /** The positions of the rows that satisfy `keep`, in ascending order: what an ORM
      filter returns from a table whose primary key is the position. */
  function Select<T>(rows: seq<T>, keep: T -> bool): (ids: seq<nat>)
    ensures forall k: nat :: k in ids <==> k < |rows| && keep(rows[k])
    ensures forall i, j | 0 <= i < j < |ids| :: ids[i] < ids[j]
  {
    if rows == [] then []
    else
      var front := rows[..|rows| - 1];
      var ids := Select(front, keep);
      assert forall k: nat | k < |front| :: front[k] == rows[k];
      assert forall i | 0 <= i < |ids| :: ids[i] in ids && ids[i] < |front|;
      if keep(rows[|rows| - 1]) then ids + [|rows| - 1] else ids
  }

  /** Adding an unvisited element of `all` to `visited` shrinks what is left to visit:
      the measure of every visited-set walk. */
  lemma VisitShrinks<T>(all: set<T>, visited: set<T>, x: T)
    requires x in all && x !in visited
    ensures |all - (visited + {x})| < |all - visited|
  {
    assert all - visited == (all - (visited + {x})) + {x};
  }

  lemma SubsetSize<T>(a: set<T>, b: set<T>)
    requires a <= b
    ensures |a| <= |b|
  {
    assert b == a + (b - a);
    assert a * (b - a) == {};
  }

  /** A function that is one-to-one on 0 .. k-1 has k distinct values there. */
  lemma {:induction false} InjectiveImageSize<T>(f: nat -> T, k: nat)
    requires forall a: nat, b: nat | a < b < k :: f(a) != f(b)
    ensures |set m: nat | m < k :: f(m)| == k
  {
    if k > 0 {
      InjectiveImageSize(f, k - 1);
      var front := set m: nat | m < k - 1 :: f(m);
      assert (set m: nat | m < k :: f(m)) == front + {f(k - 1)};
      assert f(k - 1) !in front;
    }
  }

  /** The table after writing row `r` with primary key `self` (an update), or as a new
      row at the end when `self` is `None` (an insert). */
  function Upsert<T>(rows: seq<T>, self: Option<nat>, r: T): (rows': seq<T>)
    requires self.Some? ==> self.value < |rows|
    ensures self.Some? ==> rows' == rows[self.value := r]
    ensures self.None? ==> rows' == rows + [r]
  {
    match self
    case Some(i) => rows[i := r]
    case None => rows + [r]
  }
}
