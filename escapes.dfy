/**
 * `SPECIAL_CHARS` and `encode_special_chars`, identical in
 * doi2bib2/utils.py, doi2bib3/utils.py and bib_utils.py: each key of the
 * table, in its insertion order, is replaced everywhere by its TeX escape.
 */
module TexEscapes {
  import opened Text

  /** The table in its insertion order: "a" followed by a combining grave
      accent, then the eleven single characters. */
  const SpecialChars: seq<(string, string)> := [
    ("a\U{0300}", "\\`a"),
    ("\U{00f4}", "\\^o"),
    ("\U{00ea}", "\\^e"),
    ("\U{00e2}", "\\^a"),
    ("\U{00ae}", "{\\textregistered}"),
    ("\U{00e7}", "\\c{c}"),
    ("\U{00f6}", "\\\"{o}"),
    ("\U{00e4}", "\\\"{a}"),
    ("\U{00fc}", "\\\"{u}"),
    ("\U{00d6}", "\\\"{O}"),
    ("\U{00c4}", "\\\"{A}"),
    ("\U{00dc}", "\\\"{U}")
  ]

  /** Every key is non-empty, as `replace` needs for a meaningful pattern. */
  predicate KeysNonEmpty(table: seq<(string, string)>) {
    forall i :: 0 <= i < |table| ==> table[i].0 != []
  }

  predicate IsAscii(s: string) {
    forall k :: 0 <= k < |s| ==> s[k] as int < 128
  }

  /** Replacing each key of `table` in turn, first to last. */
  function EncodeWith(table: seq<(string, string)>, value: string): string
    requires KeysNonEmpty(table)
    decreases |table|
  {
    if table == [] then value
    else EncodeWith(table[1..], ReplaceAll(value, table[0].0, table[0].1))
  }

  lemma SpecialCharsKeys()
    ensures KeysNonEmpty(SpecialChars)
  {
  }

  lemma SpecialCharsShape()
    ensures KeysNonEmpty(SpecialChars)
    ensures forall i :: 0 <= i < |SpecialChars| ==> IsAscii(SpecialChars[i].1)
    ensures forall i :: 1 <= i < |SpecialChars| ==>
      |SpecialChars[i].0| == 1 && SpecialChars[i].0[0] as int >= 128
    ensures SpecialChars[0].0[1] as int >= 128
  {
  }

  /** The replacements of `SpecialChars` from index `i` on. */
  function EncodeFrom(i: nat, value: string): string
    decreases |SpecialChars| - i
  {
    if i >= |SpecialChars| then value
    else
      SpecialCharsKeys();
      EncodeFrom(i + 1, ReplaceAll(value, SpecialChars[i].0, SpecialChars[i].1))
  }

  /** `encode_special_chars` as a function of the value. */
  function Encode(value: string): string {
    EncodeFrom(0, value)
  }

  /** `encode_special_chars`: the loop over the table, reassigning `value`. */
  method EncodeSpecialChars(value: string) returns (r: string)
    ensures r == Encode(value)
  {
    SpecialCharsKeys();
    r := value;
    for i := 0 to |SpecialChars|
      invariant EncodeFrom(i, r) == Encode(value)
    {
      var entry := SpecialChars[i];
      r := ReplaceAll(r, entry.0, entry.1);
    }
  }

  lemma {:induction false} EncodeFromIsEncodeWith(i: nat, value: string)
    requires i <= |SpecialChars|
    ensures KeysNonEmpty(SpecialChars[i..])
    ensures EncodeFrom(i, value) == EncodeWith(SpecialChars[i..], value)
    decreases |SpecialChars| - i
  {
    SpecialCharsKeys();
    if i < |SpecialChars| {
      var t := SpecialChars[i..];
      assert t[0] == SpecialChars[i] && t[1..] == SpecialChars[i + 1..];
      EncodeFromIsEncodeWith(i + 1, ReplaceAll(value, SpecialChars[i].0, SpecialChars[i].1));
    }
  }

  /** The table-driven form of `Encode`, on which the lemmas below work. */
  lemma EncodeIsEncodeWith(value: string)
    ensures KeysNonEmpty(SpecialChars)
    ensures Encode(value) == EncodeWith(SpecialChars, value)
  {
    EncodeFromIsEncodeWith(0, value);
    assert SpecialChars[0..] == SpecialChars;
  }

  /** A character the text lacks and no replacement holds stays absent. */
  lemma {:induction false} EncodeWithKeepsAbsent(table: seq<(string, string)>, s: string, d: char)
    requires KeysNonEmpty(table)
    requires d !in s
    requires forall i :: 0 <= i < |table| ==> d !in table[i].1
    ensures d !in EncodeWith(table, s)
    decreases |table|
  {
    if table != [] {
      ReplaceAllMembers(s, table[0].0, table[0].1, d);
      EncodeWithKeepsAbsent(table[1..], ReplaceAll(s, table[0].0, table[0].1), d);
    }
  }

  /** Every single-character key that no replacement reintroduces is gone after encoding. */
  lemma {:induction false} EncodeWithRemovesKeys(table: seq<(string, string)>, s: string)
    requires KeysNonEmpty(table)
    requires forall i, j :: 0 <= i < |table| && 0 <= j < |table| && |table[i].0| == 1 ==>
      table[i].0[0] !in table[j].1
    ensures forall i :: 0 <= i < |table| && |table[i].0| == 1 ==> table[i].0[0] !in EncodeWith(table, s)
    decreases |table|
  {
    if table != [] {
      var s1 := ReplaceAll(s, table[0].0, table[0].1);
      EncodeWithRemovesKeys(table[1..], s1);
      if |table[0].0| == 1 {
        var c := table[0].0[0];
        assert table[0].0 == [c];
        ReplaceCharIsMapChars(s, c, table[0].1);
        MapCharsMembers(s, c, table[0].1, c);
        EncodeWithKeepsAbsent(table[1..], s1, c);
      }
      forall i | 0 <= i < |table| && |table[i].0| == 1
        ensures table[i].0[0] !in EncodeWith(table, s)
      {
        if i > 0 {
          assert table[1..][i - 1] == table[i];
        }
      }
    }
  }

  /** After `encode_special_chars`, none of the eleven single-character keys
      (ô ê â ® ç ö ä ü Ö Ä Ü) is left. */
  lemma EncodeRemovesSingleKeys(value: string)
    ensures forall i :: 0 <= i < |SpecialChars| && |SpecialChars[i].0| == 1 ==>
      SpecialChars[i].0[0] !in Encode(value)
  {
    SpecialCharsShape();
    forall i, j | 0 <= i < |SpecialChars| && 0 <= j < |SpecialChars| && |SpecialChars[i].0| == 1
      ensures SpecialChars[i].0[0] !in SpecialChars[j].1
    {
    }
    EncodeWithRemovesKeys(SpecialChars, value);
    EncodeIsEncodeWith(value);
  }

  /** `replace` leaves the text alone when one character of the pattern is missing from it. */
  lemma {:induction false} ReplaceAllAbsent(s: string, pat: string, rep: string, c: char)
    requires pat != [] && c in pat && c !in s
    ensures ReplaceAll(s, pat, rep) == s
    decreases |s|
  {
    if |s| >= |pat| {
      assert s[..|pat|] != pat by {
        assert c !in s[..|pat|];
      }
      assert c !in s[1..];
      ReplaceAllAbsent(s[1..], pat, rep, c);
    }
  }

  /** Text without an accented character or a combining accent is not changed. */
  lemma {:induction false} EncodeWithKeepsPlain(table: seq<(string, string)>, s: string)
    requires KeysNonEmpty(table)
    requires forall i :: 0 <= i < |table| ==> !IsAscii(table[i].0)
    requires IsAscii(s)
    ensures EncodeWith(table, s) == s
    decreases |table|
  {
    if table != [] {
      var k :| 0 <= k < |table[0].0| && table[0].0[k] as int >= 128;
      var c := table[0].0[k];
      assert c !in s;
      ReplaceAllAbsent(s, table[0].0, table[0].1, c);
      assert forall i :: 0 <= i < |table[1..]| ==> table[1..][i] == table[i + 1];
      EncodeWithKeepsPlain(table[1..], s);
    }
  }

  /** ASCII text passes through `encode_special_chars` unchanged. */
  lemma EncodeKeepsAscii(value: string)
    requires IsAscii(value)
    ensures Encode(value) == value
  {
    SpecialCharsShape();
    forall i | 0 <= i < |SpecialChars|
      ensures !IsAscii(SpecialChars[i].0)
    {
      if i == 0 {
        assert SpecialChars[0].0[1] as int >= 128;
      } else {
        assert SpecialChars[i].0[0] as int >= 128;
      }
    }
    EncodeWithKeepsPlain(SpecialChars, value);
    EncodeIsEncodeWith(value);
  }
}
