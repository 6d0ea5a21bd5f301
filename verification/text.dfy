/**
 * The string operations the key schema relies on: the lexicographic order the store
 * sorts keys by, decimal formatting of numbers inside template literals, and
 * JavaScript's `String.prototype.split` with a non-empty separator.
 */
module Text {
  import opened Wrappers

  // ---------------------------------------------------------------------------
  // Key order
  // ---------------------------------------------------------------------------

  /** `a` sorts at or before `b`: character-by-character comparison, a proper prefix first. */
  predicate Below(a: string, b: string)
  {
    a == [] || (b != [] && (a[0] < b[0] || (a[0] == b[0] && Below(a[1..], b[1..]))))
  }

  lemma {:induction false} BelowReflexive(a: string)
    ensures Below(a, a)
  {
    if a != [] {
      BelowReflexive(a[1..]);
    }
  }

  lemma {:induction false} BelowTotal(a: string, b: string)
    ensures Below(a, b) || Below(b, a)
  {
    if a != [] && b != [] && a[0] == b[0] {
      BelowTotal(a[1..], b[1..]);
    }
  }

  lemma {:induction false} BelowTransitive(a: string, b: string, c: string)
    requires Below(a, b) && Below(b, c)
    ensures Below(a, c)
  {
    if a != [] && b != [] && c != [] && a[0] == b[0] && b[0] == c[0] {
      BelowTransitive(a[1..], b[1..], c[1..]);
    }
  }

  /** Two keys that sort at or before each other are the same key. */
  lemma {:induction false} BelowAntisymmetric(a: string, b: string)
    requires Below(a, b) && Below(b, a)
    ensures a == b
  {
    if a != [] && b != [] {
      BelowAntisymmetric(a[1..], b[1..]);
      assert a == [a[0]] + a[1..] && b == [b[0]] + b[1..];
    }
  }

  // ---------------------------------------------------------------------------
  // Decimal numbers, as `${n}` prints them
  // ---------------------------------------------------------------------------

  predicate IsDigit(c: char)
  {
    '0' <= c <= '9'
  }

  predicate AllDigits(s: string)
  {
    forall i :: 0 <= i < |s| ==> IsDigit(s[i])
  }

  function DigitChar(d: nat): (c: char)
    requires d < 10
    ensures IsDigit(c)
  {
    (48 + d) as char
  }

  /** The decimal numeral of `n`: no sign, no leading zero. */
  function NatToString(n: nat): (s: string)
    ensures |s| >= 1 && AllDigits(s)
    ensures s[0] == '0' ==> n == 0
  {
    if n < 10 then [DigitChar(n)] else NatToString(n / 10) + [DigitChar(n % 10)]
  }

  /** `${i}` for an integer: a minus sign before the numeral of a negative number. */
  function IntToString(i: int): (s: string)
    ensures |s| >= 1 && (i >= 0 ==> AllDigits(s))
    ensures forall k :: 0 <= k < |s| ==> s[k] != '#'
  {
    if i < 0 then "-" + NatToString(-i) else NatToString(i)
  }

  /** The number a numeral denotes. */
  function ParseNat(s: string): nat
    requires AllDigits(s)
  {
    if s == [] then 0 else 10 * ParseNat(s[..|s| - 1]) + ((s[|s| - 1] as int) - 48)
  }

  /** Parsing a printed natural number gives the number back. */
  lemma {:induction false} ParseNatToString(n: nat)
    ensures ParseNat(NatToString(n)) == n
  {
    var s := NatToString(n);
    if n >= 10 {
      ParseNatToString(n / 10);
      assert s[..|s| - 1] == NatToString(n / 10);
    }
  }

  /** Distinct integers print as distinct strings. */
  lemma IntToStringInjective(i: int, j: int)
    requires IntToString(i) == IntToString(j)
    ensures i == j
  {
    if i >= 0 && j >= 0 {
      ParseNatToString(i);
      ParseNatToString(j);
    } else if i < 0 && j < 0 {
      assert NatToString(-i) == IntToString(i)[1..];
      ParseNatToString(-i);
      ParseNatToString(-j);
    }
  }

  // ---------------------------------------------------------------------------
  // Splitting on a separator
  // ---------------------------------------------------------------------------

  /** `sep` occurs in `s` starting at position `j`. */
  predicate OccursAt(s: string, sep: string, j: int)
  {
    0 <= j && j + |sep| <= |s| && s[j..j + |sep|] == sep
  }

  /** `s.indexOf(sep)`: the first position at which `sep` occurs, if any. */
  function IndexOf(s: string, sep: string): (r: Option<nat>)
    requires sep != []
    ensures r.None? ==> forall j :: !OccursAt(s, sep, j)
    ensures r.Some? ==> OccursAt(s, sep, r.value) && forall j :: 0 <= j < r.value ==> !OccursAt(s, sep, j)
    decreases |s|
  {
    if |s| < |sep| then None
    else if s[..|sep|] == sep then Some(0)
    else
      var rest := IndexOf(s[1..], sep);
      assert forall j :: 0 < j ==> (OccursAt(s, sep, j) <==> OccursAt(s[1..], sep, j - 1));
      match rest
      case None => None
      case Some(i) => Some(i + 1)
  }

  /** `s.split(sep)` for a non-empty separator: the pieces between the occurrences. */
  function Split(s: string, sep: string): (pieces: seq<string>)
    requires sep != []
    ensures |pieces| >= 1
    decreases |s|
  {
    match IndexOf(s, sep)
    case None => [s]
    case Some(i) => [s[..i]] + Split(s[i + |sep|..], sep)
  }

  /** A separator whose first character occurs nowhere else in it cannot overlap itself. */
  predicate HeadUnique(sep: string)
  {
    sep != [] && forall k :: 0 < k < |sep| ==> sep[k] != sep[0]
  }

  /**
   * Splitting `base + sep + tail` gives back `base` and `tail` when `base` does not contain
   * `sep`, `sep` cannot overlap itself, and `tail` does not contain the separator's first
   * character.
   */
  lemma SplitJoined(base: string, sep: string, tail: string)
    requires HeadUnique(sep)
    requires forall j :: !OccursAt(base, sep, j)
    requires forall k :: 0 <= k < |tail| ==> tail[k] != sep[0]
    ensures Split(base + sep + tail, sep) == [base, tail]
  {
    var s := base + sep + tail;
    assert OccursAt(s, sep, |base|) by {
      assert s[|base|..|base| + |sep|] == sep;
    }
    forall j | 0 <= j < |base|
      ensures !OccursAt(s, sep, j)
    {
      if j + |sep| <= |base| {
        assert s[j..j + |sep|] == base[j..j + |sep|];
        assert !OccursAt(base, sep, j);
      } else if j + |sep| <= |s| {
        var k := |base| - j;
        assert s[j..j + |sep|][k] == s[|base|] == sep[0] != sep[k];
      }
    }
    assert IndexOf(s, sep) == Some(|base|);
    assert s[..|base|] == base;
    assert s[|base| + |sep|..] == tail;
    forall j ensures !OccursAt(tail, sep, j) {
      if 0 <= j && j + |sep| <= |tail| {
        assert tail[j..j + |sep|][0] == tail[j];
      }
    }
    assert IndexOf(tail, sep) == None;
  }
}
