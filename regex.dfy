/**
 * The parts of Python's `re` semantics the core relies on, stated once:
 * a greedy run of a character class, the `$` anchor, the leftmost match
 * position of `re.search`, and the left-to-right rewriting of `re.sub`.
 * Each pattern of the source is written, in the module that uses it, as a
 * function that gives the match at one position; these combine them.
 */
module Regex {
  import opened Results

  /** The length of the greedy run `[p]*` starting at index `k`. */
  function Span(s: string, k: nat, p: char -> bool): (n: nat)
    requires k <= |s|
    ensures k + n <= |s|
    ensures forall j :: k <= j < k + n ==> p(s[j])
    ensures k + n == |s| || !p(s[k + n])
    decreases |s| - k
  {
    if k < |s| && p(s[k]) then 1 + Span(s, k + 1, p) else 0
  }

  /** A greedy run is determined by its class: any run that is followed by a
      character outside the class, or by the end, is the greedy one. */
  lemma {:induction false} SpanUnique(s: string, k: nat, p: char -> bool, n: nat)
    requires k + n <= |s|
    requires forall j :: k <= j < k + n ==> p(s[j])
    requires k + n == |s| || !p(s[k + n])
    ensures Span(s, k, p) == n
    decreases n
  {
    if n > 0 {
      SpanUnique(s, k + 1, p, n - 1);
    }
  }

  /** Python's `$` without MULTILINE: the end of the string, or just before a
      newline that ends the string. */
  predicate EndAnchor(s: string, i: int) {
    i == |s| || (0 <= i == |s| - 1 && s[i] == '\n')
  }

  /** The first position in `from..to` (both inclusive) where `p` holds: the
      position `re.search` reports when `p` says whether the pattern matches there. */
  function Leftmost(from: nat, to: nat, p: nat -> bool): (r: Option<nat>)
    ensures r.Some? ==> from <= r.value <= to && p(r.value)
    ensures r.Some? ==> forall j :: from <= j < r.value ==> !p(j)
    ensures r.None? ==> forall j :: from <= j <= to ==> !p(j)
    decreases (to as int) - (from as int)
  {
    if from > to then None
    else if p(from) then Some(from)
    else Leftmost(from + 1, to, p)
  }

  /** `re.sub` for a pattern whose match at the head of a string is given by
      `m` (its length, 0 for no match) and whose replacement for the matched
      text is given by `rep`: matches are taken left to right and never overlap,
      and text between matches is copied. */
  function SubAll(s: string, m: string -> nat, rep: string -> string): string
    decreases |s|
  {
    if s == [] then []
    else
      var n := m(s);
      if 0 < n <= |s| then rep(s[..n]) + SubAll(s[n..], m, rep)
      else [s[0]] + SubAll(s[1..], m, rep)
  }

  /** Where the pattern matches nowhere, `re.sub` returns its input. */
  lemma {:induction false} SubAllNoMatch(s: string, m: string -> nat, rep: string -> string)
    requires forall k :: 0 <= k < |s| ==> !(0 < m(s[k..]) <= |s| - k)
    ensures SubAll(s, m, rep) == s
    decreases |s|
  {
    if s != [] {
      assert s[0..] == s;
      forall k | 0 <= k < |s| - 1
        ensures !(0 < m(s[1..][k..]) <= |s| - 1 - k)
      {
        assert s[1..][k..] == s[k + 1..];
      }
      SubAllNoMatch(s[1..], m, rep);
    }
  }

  /** A prefix that matches at none of its positions is copied unchanged. */
  lemma {:induction false} SubAllCopiedPrefix(a: string, t: string, m: string -> nat, rep: string -> string)
    requires forall k :: 0 <= k < |a| ==> m((a + t)[k..]) == 0
    ensures SubAll(a + t, m, rep) == a + SubAll(t, m, rep)
    decreases |a|
  {
    if a != [] {
      assert (a + t)[0..] == a + t;
      assert (a + t)[1..] == a[1..] + t;
      forall k | 0 <= k < |a| - 1
        ensures m((a[1..] + t)[k..]) == 0
      {
        assert (a[1..] + t)[k..] == (a + t)[k + 1..];
      }
      SubAllCopiedPrefix(a[1..], t, m, rep);
    } else {
      assert a + t == t;
    }
  }
}
