/** Unique-name allocation, as the bucket and page slug generators and the new-user
    username generator do it: try the base name, then base + separator + 1, 2, 3, ...
    and take the first candidate nobody else holds. Slugs use '-', usernames '_'. */
module Slugs {

  import opened Common

  function DigitChar(d: nat): (c: char)
    requires d < 10
    ensures '0' <= c <= '9'
  {
    (d + 48) as char
  }

  /** Python's `str(n)` for a natural number. */
  function Decimal(n: nat): (s: string)
    ensures s != []
    ensures forall i | 0 <= i < |s| :: '0' <= s[i] <= '9'
  {
    if n < 10 then [DigitChar(n)] else Decimal(n / 10) + [DigitChar(n % 10)]
  }

  /** Python's `int(s)` for a string of decimal digits. */
  function DecimalValue(s: string): nat
    requires forall i | 0 <= i < |s| :: '0' <= s[i] <= '9'
  {
    if s == [] then 0 else DecimalValue(s[..|s| - 1]) * 10 + (s[|s| - 1] as int - 48)
  }

  lemma {:induction false} DecimalRoundTrip(n: nat)
    ensures DecimalValue(Decimal(n)) == n
  {
    if n >= 10 {
      var s := Decimal(n);
      assert s[..|s| - 1] == Decimal(n / 10);
      DecimalRoundTrip(n / 10);
    }
  }

  /** The k-th name tried: `base` itself, then `base<sep>k`. */
  function Candidate(base: string, sep: char, k: nat): string {
    if k == 0 then base else base + [sep] + Decimal(k)
  }

  /** Different counters never produce the same name, so the search never revisits one. */
  lemma CandidateInjective(base: string, sep: char, j: nat, k: nat)
    requires Candidate(base, sep, j) == Candidate(base, sep, k)
    ensures j == k
  {
    if j != 0 && k != 0 {
      assert Candidate(base, sep, j)[|base| + 1..] == Decimal(j);
      assert Candidate(base, sep, k)[|base| + 1..] == Decimal(k);
      DecimalRoundTrip(j);
      DecimalRoundTrip(k);
    }
  }

  /** The names tried before the counter reaches k. */
  ghost function Tried(base: string, sep: char, k: nat): set<string> {
    set j | 0 <= j < k :: Candidate(base, sep, j)
  }

  lemma {:induction false} TriedSize(base: string, sep: char, k: nat)
    ensures |Tried(base, sep, k)| == k
  {
    if k > 0 {
      TriedSize(base, sep, k - 1);
      var last := Candidate(base, sep, k - 1);
      assert Tried(base, sep, k) == Tried(base, sep, k - 1) + {last};
      if last in Tried(base, sep, k - 1) {
        var j :| 0 <= j < k - 1 && Candidate(base, sep, j) == last;
        CandidateInjective(base, sep, j, k - 1);
        assert false;
      }
    }
  }

  /** The search cannot try more names than are taken: it terminates. */
  lemma CandidatesBounded(base: string, sep: char, taken: set<string>, k: nat)
    requires forall j | 0 <= j < k :: Candidate(base, sep, j) in taken
    ensures k <= |taken|
  {
    TriedSize(base, sep, k);
    SubsetSize(Tried(base, sep, k), taken);
  }

  /** `name` is the first candidate not in `taken`. */
  ghost predicate SmallestFree(base: string, sep: char, taken: set<string>, name: string) {
    exists k: nat ::
      && name == Candidate(base, sep, k)
      && name !in taken
      && forall j | 0 <= j < k :: Candidate(base, sep, j) in taken
  }

  /** The base a generator starts from: the slugified title, or a fixed word when that
      comes out empty. */
  function Base(slugified: string, fallback: string): (base: string)
    requires fallback != ""
    ensures base != ""
    ensures slugified != "" ==> base == slugified
  {
    if slugified == "" then fallback else slugified
  }

  /** Every candidate extends the base, so a non-empty base gives non-empty names. */
  lemma SmallestFreeNonEmpty(base: string, sep: char, taken: set<string>, name: string)
    requires base != "" && SmallestFree(base, sep, taken, name)
    ensures name != "" && name !in taken
  {
    var k: nat :| name == Candidate(base, sep, k) && name !in taken &&
      forall j | 0 <= j < k :: Candidate(base, sep, j) in taken;
    assert name[0] == base[0];
  }

  /** There is exactly one smallest free name. */
  lemma SmallestFreeIsUnique(base: string, sep: char, taken: set<string>, a: string, b: string)
    requires SmallestFree(base, sep, taken, a) && SmallestFree(base, sep, taken, b)
    ensures a == b
  {
    var ka: nat :| a == Candidate(base, sep, ka) && a !in taken &&
      forall j | 0 <= j < ka :: Candidate(base, sep, j) in taken;
    var kb: nat :| b == Candidate(base, sep, kb) && b !in taken &&
      forall j | 0 <= j < kb :: Candidate(base, sep, j) in taken;
    assert ka == kb;
  }

  /** The allocation loop of the slug and username generators: start from `base` and
      move to the next candidate while the current one is taken. The set of taken names
      does not change while the loop runs. */
  method Allocate(base: string, sep: char, taken: set<string>) returns (name: string)
    ensures SmallestFree(base, sep, taken, name)
  {
    name := base;
    var counter: nat := 1;
    while name in taken
      invariant name == Candidate(base, sep, counter - 1)
      invariant forall j | 0 <= j < counter - 1 :: Candidate(base, sep, j) in taken
      invariant counter - 1 <= |taken|
      decreases |taken| - (counter - 1)
    {
      CandidatesBounded(base, sep, taken, counter);
      name := base + [sep] + Decimal(counter);
      counter := counter + 1;
    }
  }

  /** The slug column of a table holds no value twice. */
  predicate Distinct(column: seq<string>)
  {
    forall i, j | 0 <= i < |column| && 0 <= j < |column| && i != j :: column[i] != column[j]
  }

  /** The row holding `slug`, if any: the lookup `save` makes by the current slug. */
  function IndexOf(column: seq<string>, slug: string): (k: Option<nat>)
    ensures k.Some? ==> k.value < |column| && column[k.value] == slug
    ensures k.None? ==> slug !in column
  {
    if column == [] then None
    else if column[|column| - 1] == slug then Some(|column| - 1)
    else IndexOf(column[..|column| - 1], slug)
  }

  /** The slugs a new slug must avoid: every stored slug except the record's own current
      one (an empty current slug excludes nothing). */
  function TakenBy(column: seq<string>, own: string): (taken: set<string>)
    ensures forall s :: s in taken <==> s in column && (own == "" || s != own)
  {
    set k | 0 <= k < |column| && (own == "" || column[k] != own) :: column[k]
  }

  /** Some row other than `self` holds `slug`: writing it would break the unique index. */
  predicate HeldElsewhere(column: seq<string>, self: Option<nat>, slug: string)
  {
    exists k | 0 <= k < |column| :: column[k] == slug && self != Some(k)
  }

  /** The slug a save settles on: the current one, or, when it must be regenerated, the
      first free candidate built from `base` with '-' before the counter. */
  ghost predicate Settled(column: seq<string>, current: string, regenerate: bool, base: string,
                          slug: string)
  {
    if regenerate then SmallestFree(base, '-', TakenBy(column, current), slug) else slug == current
  }

  /** A record that was never saved (empty slug), or that carries its stored slug, settles
      on a slug no other row holds: a regenerated slug avoids every slug but its own, a
      kept one is its own. */
  lemma SettledIsFree(column: seq<string>, self: Option<nat>, current: string, regenerate: bool,
                      base: string, slug: string)
    requires Distinct(column) && base != "" && (current == "" ==> regenerate)
    requires current == "" || (self.Some? && self.value < |column| && current == column[self.value])
    requires Settled(column, current, regenerate, base, slug)
    ensures slug != "" && !HeldElsewhere(column, self, slug)
  {
    if regenerate {
      SmallestFreeNonEmpty(base, '-', TakenBy(column, current), slug);
    }
    forall k | 0 <= k < |column| && column[k] == slug
      ensures self == Some(k)
    {
      assert column[k] in column;
    }
  }
}
