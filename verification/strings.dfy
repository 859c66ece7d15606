/** Text operations of the two host languages: Python's `str.partition`,
    Java's `String.split` with a one-character separator, suffix tests and
    decimal rendering of integers.  Strings are sequences of characters;
    encodings (utf-8, cp1250) are not modelled. */
module Strings {
  import opened Wrappers

  /** `sep` occurs in `s` starting at index `k`. */
  predicate OccursAt(s: string, sep: string, k: int) {
    0 <= k && k + |sep| <= |s| && s[k..k + |sep|] == sep
  }

  predicate Contains(s: string, sep: string) {
    exists k :: 0 <= k <= |s| && OccursAt(s, sep, k)
  }

  /** The first index at or after `from` where `sep` occurs. */
  function FindFrom(s: string, sep: string, from: nat): (r: Option<nat>)
    requires from <= |s|
    ensures r.Some? ==> from <= r.value && OccursAt(s, sep, r.value)
    ensures r.Some? ==> forall k :: from <= k < r.value ==> !OccursAt(s, sep, k)
    ensures r.None? ==> forall k :: from <= k <= |s| ==> !OccursAt(s, sep, k)
    decreases |s| - from
  {
    if OccursAt(s, sep, from) then Some(from)
    else if from == |s| then None
    else FindFrom(s, sep, from + 1)
  }

  /** Python's `s.partition(sep)`: split at the first occurrence of `sep`
      into (head, sep, tail); when `sep` does not occur, (s, "", "").
      Python raises ValueError for an empty separator; every caller here
      passes a non-empty literal. */
  function Partition(s: string, sep: string): (r: (string, string, string))
    requires sep != ""
    ensures r.0 + r.1 + r.2 == s
    ensures r.1 == sep || r.1 == ""
    ensures r.1 == sep <==> Contains(s, sep)
    ensures r.1 == sep ==> OccursAt(s, sep, |r.0|)
    ensures r.1 == sep ==> forall k :: 0 <= k < |r.0| ==> !OccursAt(s, sep, k)
    ensures r.1 == "" ==> r.0 == s && r.2 == ""
  {
    match FindFrom(s, sep, 0)
    case Some(k) => (s[..k], sep, s[k + |sep|..])
    case None => (s, "", "")
  }

  /** For a one-character separator, an occurrence is just that character. */
  lemma OccursAtChar(s: string, c: char, k: int)
    ensures OccursAt(s, [c], k) <==> 0 <= k < |s| && s[k] == c
  {
    if 0 <= k < |s| && s[k] == c {
      assert s[k..k + 1] == [c];
    }
  }

  lemma ContainsChar(s: string, c: char)
    ensures Contains(s, [c]) <==> c in s
  {
    if c in s {
      var k :| 0 <= k < |s| && s[k] == c;
      OccursAtChar(s, c, k);
    }
    if Contains(s, [c]) {
      var k :| 0 <= k <= |s| && OccursAt(s, [c], k);
      OccursAtChar(s, c, k);
    }
  }

  /** Partitioning `a + [c] + b` at `c`, where `a` has no `c`, gives back `a` and `b`. */
  lemma PartitionAtChar(a: string, c: char, b: string)
    requires c !in a
    ensures Partition(a + [c] + b, [c]) == (a, [c], b)
  {
    var s := a + [c] + b;
    OccursAtChar(s, c, |a|);
    assert s[|a|] == c;
    ContainsChar(s, c);
    var r := Partition(s, [c]);
    assert r.1 == [c];
    OccursAtChar(s, c, |r.0|);
    if |r.0| > |a| {
      OccursAtChar(s, c, |a|);
      assert false;
    }
    assert |r.0| == |a|;
    assert r.0 == s[..|a|] == a;
    assert r.2 == s[|a| + 1..] == b;
  }

  /** The head of a partition at `c` never contains `c`. */
  lemma PartitionHeadHasNoSep(s: string, c: char)
    ensures c !in Partition(s, [c]).0
  {
    var r := Partition(s, [c]);
    if r.1 == "" {
      ContainsChar(s, c);
    } else {
      forall k | 0 <= k < |r.0| ensures r.0[k] != c {
        OccursAtChar(s, c, k);
      }
    }
  }

  /** Every piece of `s` between occurrences of `c`, in order: no occurrence
      gives `[s]`, and an occurrence at either end gives an empty piece there. */
  function SplitAll(s: string, c: char): (r: seq<string>)
    ensures |r| >= 1
    ensures forall i :: 0 <= i < |r| ==> c !in r[i]
  {
    if s == [] then [""]
    else
      var rest := SplitAll(s[1..], c);
      if s[0] == c then [""] + rest
      else [[s[0]] + rest[0]] + rest[1..]
  }

  /** Without `c`, there is one piece: the whole string. */
  lemma {:induction false} SplitNoSep(a: string, c: char)
    requires c !in a
    ensures SplitAll(a, c) == [a]
  {
    if a != [] {
      SplitNoSep(a[1..], c);
      assert [a[0]] + a[1..] == a;
    }
  }

  /** The first piece ends at the first `c`. */
  lemma {:induction false} SplitAtFirst(a: string, c: char, b: string)
    requires c !in a
    ensures SplitAll(a + [c] + b, c) == [a] + SplitAll(b, c)
  {
    var s := a + [c] + b;
    if a == [] {
      assert s[1..] == b;
    } else {
      assert s[1..] == a[1..] + [c] + b;
      SplitAtFirst(a[1..], c, b);
      assert [a[0]] + a[1..] == a;
    }
  }

  /** Joining fields with `c` and splitting again gives the fields back,
      provided no field contains `c`. */
  lemma {:induction false} SplitJoin(fields: seq<string>, c: char)
    requires |fields| >= 1
    requires forall i :: 0 <= i < |fields| ==> c !in fields[i]
    ensures SplitAll(Join(fields, c), c) == fields
    decreases |fields|
  {
    if |fields| == 1 {
      SplitNoSep(fields[0], c);
    } else {
      var rest := Join(fields[1..], c);
      SplitAtFirst(fields[0], c, rest);
      assert forall i :: 0 <= i < |fields| - 1 ==> fields[1..][i] == fields[i + 1];
      SplitJoin(fields[1..], c);
      assert fields == [fields[0]] + fields[1..];
    }
  }

  function Join(fields: seq<string>, c: char): (r: string)
    requires |fields| >= 1
  {
    if |fields| == 1 then fields[0] else fields[0] + [c] + Join(fields[1..], c)
  }

  /** Drop the empty strings at the end of a list of fields. */
  function DropTrailingEmpty(fields: seq<string>): (r: seq<string>)
    ensures r <= fields
    ensures r == [] || r[|r| - 1] != ""
    ensures forall i :: |r| <= i < |fields| ==> fields[i] == ""
  {
    if fields == [] then []
    else if fields[|fields| - 1] == "" then DropTrailingEmpty(fields[..|fields| - 1])
    else fields
  }

  /** Java's `s.split(String.valueOf(c))` for a separator with no regular-expression
      meaning: no occurrence gives `[s]`; otherwise every piece, with the
      trailing empty pieces removed. */
  function JavaSplit(s: string, c: char): (r: seq<string>)
    ensures c !in s ==> r == [s]
    ensures forall i :: 0 <= i < |r| ==> c !in r[i]
  {
    if c !in s then [s] else DropTrailingEmpty(SplitAll(s, c))
  }

  /** Splitting a join whose last field is non-empty and which has at least
      two fields (so contains the separator) gives the fields back. */
  lemma JavaSplitJoin(fields: seq<string>, c: char)
    requires |fields| >= 2
    requires forall i :: 0 <= i < |fields| ==> c !in fields[i]
    requires fields[|fields| - 1] != ""
    ensures JavaSplit(Join(fields, c), c) == fields
  {
    var s := Join(fields, c);
    assert s == fields[0] + [c] + Join(fields[1..], c);
    assert s[|fields[0]|] == c;
    SplitJoin(fields, c);
  }

  predicate EndsWith(s: string, suffix: string) {
    |suffix| <= |s| && s[|s| - |suffix|..] == suffix
  }

  /** Decimal digits of a natural number, most significant first, no leading zeros. */
  function NatToString(n: nat): (r: string)
    ensures |r| >= 1
    ensures forall i :: 0 <= i < |r| ==> '0' <= r[i] <= '9'
    ensures n > 0 ==> r[0] != '0'
  {
    if n < 10 then [DigitChar(n)] else NatToString(n / 10) + [DigitChar(n % 10)]
  }

  function DigitChar(d: nat): (r: char)
    requires d < 10
    ensures '0' <= r <= '9' && r as int - '0' as int == d
  {
    (d + '0' as int) as char
  }

  /** Value of a string of decimal digits. */
  function DigitsValue(s: string): (r: nat)
    requires forall i :: 0 <= i < |s| ==> '0' <= s[i] <= '9'
  {
    if s == [] then 0
    else 10 * DigitsValue(s[..|s| - 1]) + (s[|s| - 1] as int - '0' as int)
  }

  /** Rendering a number in decimal and reading it back gives the number. */
  lemma {:induction false} DigitsValueOfNatToString(n: nat)
    ensures DigitsValue(NatToString(n)) == n
  {
    if n >= 10 {
      var s := NatToString(n);
      assert s[..|s| - 1] == NatToString(n / 10);
      DigitsValueOfNatToString(n / 10);
    }
  }

  /** Java's and Python's decimal rendering of an integer. */
  function IntToString(x: int): (r: string)
    ensures |r| >= 1
    ensures x >= 0 <==> r[0] != '-'
  {
    if x < 0 then "-" + NatToString(-x) else NatToString(x)
  }
}
