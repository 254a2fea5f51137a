/**
 * URL slug generation for article titles: trim, lower-case, replace accented
 * letters and punctuation through a fixed table, keep only [a-z0-9 -],
 * turn white-space runs into one hyphen, collapse hyphen runs, and add a
 * numeric suffix when stored slugs already match.
 */
module Slug {
  import opened Wrappers
  import opened JsText

  // ---------------------------------------------------------------------
  // Lower-casing (`String.prototype.toLowerCase`) for the Latin letters.
  // ---------------------------------------------------------------------

  /** Upper-case letters whose lower case is 32 code points higher:
      A-Z and the Latin-1 capitals except the multiplication sign. */
  predicate ShiftUpper(c: char) {
    ('A' <= c <= 'Z') || ('\U{C0}' <= c <= '\U{DE}' && c != '\U{D7}')
  }

  /** Upper-case letters at even code points in the Latin Extended blocks
      where capitals and small letters alternate. */
  predicate EvenUpper(c: char) {
    (('\U{100}' <= c <= '\U{12F}') || ('\U{132}' <= c <= '\U{137}') ||
     ('\U{14A}' <= c <= '\U{177}') || ('\U{200}' <= c <= '\U{21F}') ||
     ('\U{1E00}' <= c <= '\U{1E95}') || ('\U{1EA0}' <= c <= '\U{1EFF}')) &&
    c as int % 2 == 0
  }

  /** Upper-case letters at odd code points in Latin Extended-A. */
  predicate OddUpper(c: char) {
    (('\U{139}' <= c <= '\U{148}') || ('\U{179}' <= c <= '\U{17E}')) && c as int % 2 == 1
  }

  /** The capitals with an irregular lower case. */
  predicate SpecialUpper(c: char) {
    c == '\U{130}' || c == '\U{178}' || c == '\U{1E9E}' || c == '\U{212A}' || c == '\U{212B}'
  }

  predicate HasLower(c: char) {
    ShiftUpper(c) || EvenUpper(c) || OddUpper(c) || SpecialUpper(c)
  }

  /** The lower case of one character. Capital I with dot above becomes two
      characters; characters that are not capitals stay as they are. */
  function LowerChar(c: char): (r: string)
    ensures |r| == if c == '\U{130}' then 2 else 1
    ensures !HasLower(c) ==> r == [c]
    ensures HasLower(c) ==> r != [c]
    ensures forall i :: 0 <= i < |r| ==> !HasLower(r[i])
    ensures 'A' <= c <= 'Z' ==> r == [SmallLatin[c as int - 'A' as int]]
  {
    if ShiftUpper(c) then [(c as int + 32) as char]
    else if c == '\U{130}' then ['i', '\U{307}']
    else if c == '\U{178}' then ['\U{FF}']
    else if c == '\U{1E9E}' then ['\U{DF}']
    else if c == '\U{212A}' then ['k']
    else if c == '\U{212B}' then ['\U{E5}']
    else if EvenUpper(c) || OddUpper(c) then [(c as int + 1) as char]
    else [c]
  }

  const SmallLatin := "abcdefghijklmnopqrstuvwxyz"

  /** Small letters whose upper case is 32 code points lower. */
  predicate ShiftLower(c: char) {
    ('a' <= c <= 'z') || ('\U{E0}' <= c <= '\U{FE}' && c != '\U{F7}')
  }

  /** Small letters at odd code points in the alternating blocks. */
  predicate EvenLower(c: char) {
    (('\U{100}' <= c <= '\U{12F}') || ('\U{132}' <= c <= '\U{137}') ||
     ('\U{14A}' <= c <= '\U{177}') || ('\U{200}' <= c <= '\U{21F}') ||
     ('\U{1E00}' <= c <= '\U{1E95}') || ('\U{1EA0}' <= c <= '\U{1EFF}')) &&
    c as int % 2 == 1
  }

  /** Small letters at even code points in Latin Extended-A's odd-first runs. */
  predicate OddLower(c: char) {
    (('\U{139}' <= c <= '\U{148}') || ('\U{179}' <= c <= '\U{17E}')) && c as int % 2 == 0
  }

  /** The upper case of a small letter of the regular Latin pairs and of
      y with diaeresis, the reference the lower-casing is checked against. */
  function UpperChar(c: char): char {
    if ShiftLower(c) then (c as int - 32) as char
    else if EvenLower(c) || OddLower(c) then (c as int - 1) as char
    else if c == '\U{FF}' then '\U{178}'
    else c
  }

  /** Lower-casing the capital of a small letter gives the letter back. */
  lemma LowerOfUpper(c: char)
    requires ShiftLower(c) || EvenLower(c) || OddLower(c) || c == '\U{FF}'
    ensures HasLower(UpperChar(c)) && LowerChar(UpperChar(c)) == [c]
  {
  }

  /** Every regular capital is the upper case of its lower case. */
  lemma UpperOfLower(c: char)
    requires HasLower(c) && !SpecialUpper(c)
    ensures UpperChar(LowerChar(c)[0]) == c
  {
  }

  /** Lower-casing works character by character: without a capital I with
      dot above, the result has the input's length and each character is
      the lower case of the one at the same place. */
  function Lower(s: string): (r: string)
    ensures |r| >= |s|
    ensures forall i :: 0 <= i < |r| ==> !HasLower(r[i])
    ensures (forall i :: 0 <= i < |s| ==> s[i] != '\U{130}') ==>
      |r| == |s| && forall i :: 0 <= i < |s| ==> [r[i]] == LowerChar(s[i])
  {
    if s == [] then [] else LowerChar(s[0]) + Lower(s[1..])
  }

  /** Lower-casing a concatenation lower-cases each part. */
  lemma {:induction false} LowerAppend(a: string, b: string)
    ensures Lower(a + b) == Lower(a) + Lower(b)
  {
    if a == [] {
      assert a + b == b;
    } else {
      assert (a + b)[0] == a[0] && (a + b)[1..] == a[1..] + b;
      LowerAppend(a[1..], b);
      assert LowerChar(a[0]) + (Lower(a[1..]) + Lower(b)) == (LowerChar(a[0]) + Lower(a[1..])) + Lower(b);
    }
  }

  // ---------------------------------------------------------------------
  // The replacement table.
  // ---------------------------------------------------------------------

  const FromUpper := "ÁÄÂÀÃÅČÇĆĎÉĚËÈÊẼĔȆÍÌÎÏŇÑÓÖÒÔÕØŘŔŠŤÚŮÜÙÛÝŸŽ"
  const ToUpper := "AAAAAACCCDEEEEEEEEIIIINNOOOOOORRSTUUUUUYYZ"
  const FromLowerA := "áäâàãåčçćďéěëèêẽĕȇíìîï"
  const ToLowerA := "aaaaaacccdeeeeeeeeiiii"
  const FromLowerB := "ňñóöòôõøðřŕšťúůüùûýÿž"
  const ToLowerB := "nnooooooorrstuuuuuyyz"
  const FromThorn := "þÞĐđ"
  const ToThorn := "bBDd"
  const FromPunct := "·/_,:;"
  const ToPunct := "------"

  /** The last thirteen entries: þ Þ Đ đ, then ß, Æ and a, then the punctuation. */
  const FromRest := FromThorn + "ßÆa" + FromPunct
  const ToRest := ToThorn + "BAa" + ToPunct

  /** Each character `From[i]` is replaced by `To[i]`, in order of i. */
  const From := FromUpper + FromLowerA + FromLowerB + FromRest
  const To := ToUpper + ToLowerA + ToLowerB + ToRest

  lemma TableShape()
    ensures |From| == |To| == 98
    ensures |FromUpper| == |ToUpper| == 42 && |FromLowerA| == |ToLowerA| == 22
    ensures |FromLowerB| == |ToLowerB| == 21 && |FromRest| == |ToRest| == 13
    ensures |FromThorn| == |ToThorn| == 4 && |FromPunct| == |ToPunct| == 6
  {
  }

  /** What the character `c` becomes after the replacements `from[i]` to
      `to[i]`, applied in order. */
  function Apply(c: char, from: string, to: string): char
    decreases |from|
  {
    if from == [] || to == [] then c
    else Apply(if c == from[0] then to[0] else c, from[1..], to[1..])
  }

  /** Replacing through `a + b` is replacing through `a`, then through `b`. */
  lemma {:induction false} ApplyAppend(c: char, a: string, b: string, x: string, y: string)
    requires |a| == |x| && |b| == |y|
    ensures Apply(c, a + b, x + y) == Apply(Apply(c, a, x), b, y)
    decreases |a|
  {
    if a == [] {
      assert a + b == b && x + y == y;
    } else {
      assert (a + b)[0] == a[0] && (x + y)[0] == x[0];
      assert (a + b)[1..] == a[1..] + b;
      assert (x + y)[1..] == x[1..] + y;
      ApplyAppend(if c == a[0] then x[0] else c, a[1..], b, x[1..], y);
    }
  }

  /** A character none of the entries mention is left alone. */
  lemma {:induction false} Untouched(c: char, from: string, to: string)
    requires c !in from
    ensures Apply(c, from, to) == c
    decreases |from|
  {
    if from != [] && to != [] {
      Untouched(c, from[1..], to[1..]);
    }
  }

  /** The whole table, chunk by chunk. */
  lemma TableInChunks(c: char)
    ensures Apply(c, From, To) ==
      Apply(Apply(Apply(Apply(c, FromUpper, ToUpper), FromLowerA, ToLowerA), FromLowerB, ToLowerB), FromRest, ToRest)
  {
    TableShape();
    ApplyAppend(c, FromUpper, FromLowerA, ToUpper, ToLowerA);
    ApplyAppend(c, FromUpper + FromLowerA, FromLowerB, ToUpper + ToLowerA, ToLowerB);
    ApplyAppend(c, FromUpper + FromLowerA + FromLowerB, FromRest, ToUpper + ToLowerA + ToLowerB, ToRest);
  }

  /** A character outside the accented chunks meets only the last thirteen entries. */
  lemma OnlyRestApplies(c: char)
    requires c !in FromUpper && c !in FromLowerA && c !in FromLowerB
    ensures Apply(c, From, To) == Apply(c, FromRest, ToRest)
  {
    TableInChunks(c);
    Untouched(c, FromUpper, ToUpper);
    Untouched(c, FromLowerA, ToLowerA);
    Untouched(c, FromLowerB, ToLowerB);
  }

  /** A single entry replaces exactly its own character. */
  lemma ApplyOne(c: char, f: char, t: char)
    ensures Apply(c, [f], [t]) == if c == f then t else c
  {
    assert [f][1..] == [];
  }

  /** The last thirteen entries, piece by piece. */
  lemma RestInPieces(c: char)
    ensures Apply(c, FromRest, ToRest) ==
      var d := Apply(c, FromThorn, ToThorn);
      var e := if d == 'ß' then 'B' else if d == 'Æ' then 'A' else d;
      Apply(e, FromPunct, ToPunct)
  {
    TableShape();
    ApplyAppend(c, FromThorn, "ßÆa" + FromPunct, ToThorn, "BAa" + ToPunct);
    assert FromRest == FromThorn + ("ßÆa" + FromPunct);
    assert ToRest == ToThorn + ("BAa" + ToPunct);
    MiddleEntries(Apply(c, FromThorn, ToThorn));
  }

  /** The three entries between the thorns and the punctuation. */
  lemma MiddleEntries(d: char)
    ensures Apply(d, "ßÆa" + FromPunct, "BAa" + ToPunct) ==
      Apply(if d == 'ß' then 'B' else if d == 'Æ' then 'A' else d, FromPunct, ToPunct)
  {
    TableShape();
    ApplyAppend(d, "ßÆa", FromPunct, "BAa", ToPunct);
    ApplyAppend(d, ['ß'], ['Æ'] + ['a'], ['B'], ['A'] + ['a']);
    assert ['ß'] + (['Æ'] + ['a']) == "ßÆa";
    assert ['B'] + (['A'] + ['a']) == "BAa";
    ApplyOne(d, 'ß', 'B');
    var d1 := if d == 'ß' then 'B' else d;
    ApplyAppend(d1, ['Æ'], ['a'], ['A'], ['a']);
    ApplyOne(d1, 'Æ', 'A');
    ApplyOne(if d1 == 'Æ' then 'A' else d1, 'a', 'a');
  }

  /** A character matched by one of a run of entries that all have the same
      target ends as that target, provided the target is not itself an entry. */
  lemma {:induction false} ApplyToCommonTarget(c: char, from: string, to: string, d: char)
    requires |from| == |to| && c in from && d !in from
    requires forall i :: 0 <= i < |to| ==> to[i] == d
    ensures Apply(c, from, to) == d
    decreases |from|
  {
    if c == from[0] {
      Untouched(d, from[1..], to[1..]);
    } else {
      ApplyToCommonTarget(c, from[1..], to[1..], d);
    }
  }

  /** Every character of `s` after the whole table. */
  function TableApplied(s: string): (r: string)
    ensures |r| == |s| && forall k :: 0 <= k < |s| ==> r[k] == Apply(s[k], From, To)
  {
    TableShape();
    seq(|s|, k requires 0 <= k < |s| => Apply(s[k], From, To))
  }

  /** `s.replace(new RegExp(x, 'g'), y)` for a single character `x` that is
      not a pattern metacharacter. */
  function ReplaceChar(s: string, x: char, y: char): (r: string)
    ensures |r| == |s|
    ensures forall k :: 0 <= k < |s| ==> r[k] == (if s[k] == x then y else s[k])
  {
    seq(|s|, k requires 0 <= k < |s| => if s[k] == x then y else s[k])
  }

  /** The table loop: one global replacement per table entry. */
  method ApplyTable(s: string) returns (r: string)
    ensures r == TableApplied(s)
  {
    TableShape();
    r := s;
    var i := 0;
    while i < |From|
      invariant 0 <= i <= 98
      invariant |r| == |s|
      invariant forall k :: 0 <= k < |s| ==> r[k] == Apply(s[k], From[..i], To[..i])
    {
      forall k | 0 <= k < |s|
        ensures Apply(s[k], From[..i + 1], To[..i + 1]) ==
                (if r[k] == From[i] then To[i] else r[k])
      {
        ApplyStep(s[k], From, To, i);
      }
      r := ReplaceChar(r, From[i], To[i]);
      i := i + 1;
    }
    ApplyWhole(From, To);
  }

  /** One more entry of the table. */
  lemma ApplyStep(c: char, from: string, to: string, i: nat)
    requires i < |from| == |to|
    ensures Apply(c, from[..i + 1], to[..i + 1]) ==
      var d := Apply(c, from[..i], to[..i]);
      if d == from[i] then to[i] else d
  {
    assert from[..i + 1] == from[..i] + [from[i]];
    assert to[..i + 1] == to[..i] + [to[i]];
    ApplyAppend(c, from[..i], [from[i]], to[..i], [to[i]]);
    ApplyOne(Apply(c, from[..i], to[..i]), from[i], to[i]);
  }

  /** The prefix of full length is the whole table. */
  lemma ApplyWhole(from: string, to: string)
    ensures from[..|from|] == from && to[..|to|] == to
  {
  }

  lemma AsciiNotInUpper(c: char)
    requires c < '\U{80}'
    ensures c !in FromUpper
  {
  }

  lemma AsciiNotInLower(c: char)
    requires c < '\U{80}'
    ensures c !in FromLowerA && c !in FromLowerB
  {
  }

  predicate SlugChar(c: char) {
    ('a' <= c <= 'z') || ('0' <= c <= '9') || c == '-'
  }

  /** Where letters, digits, space and hyphen occur in the table: only 'a',
      which is mapped to itself. */
  lemma SlugCharEntries(c: char)
    requires SlugChar(c) || c == ' '
    ensures c !in FromUpper && c !in FromLowerA && c !in FromLowerB
    ensures c !in FromThorn && c !in FromPunct && c != 'ß' && c != 'Æ'
  {
    AsciiNotInUpper(c);
    AsciiNotInLower(c);
  }

  /** Letters, digits, space and hyphen come out of the table as they went in. */
  lemma TableKeepsSlugChars(c: char)
    requires SlugChar(c) || c == ' '
    ensures Apply(c, From, To) == c
  {
    SlugCharEntries(c);
    OnlyRestApplies(c);
    RestInPieces(c);
    Untouched(c, FromThorn, ToThorn);
    Untouched(c, FromPunct, ToPunct);
  }

  /** Where the punctuation characters occur in the table: only among the
      last six entries, whose targets are all hyphens. */
  lemma PunctuationEntries(c: char)
    requires c in FromPunct
    ensures c !in FromUpper && c !in FromLowerA && c !in FromLowerB
    ensures c !in FromThorn && c != 'ß' && c != 'Æ'
    ensures '-' !in FromPunct && forall i :: 0 <= i < |ToPunct| ==> ToPunct[i] == '-'
  {
    if c == '·' {
      NotInUpper(c);
      NotInLowerA(c);
      NotInLowerB(c);
    } else {
      AsciiNotInUpper(c);
      AsciiNotInLower(c);
    }
  }


  /** The characters `·/_,:;` all become hyphens. */
  lemma PunctuationBecomesHyphen(c: char)
    requires c in FromPunct
    ensures Apply(c, From, To) == '-'
  {
    PunctuationEntries(c);
    OnlyRestApplies(c);
    RestInPieces(c);
    Untouched(c, FromThorn, ToThorn);
    ApplyToCommonTarget(c, FromPunct, ToPunct, '-');
  }

  /** Where sharp s and its target occur in the table. */
  lemma SharpSEntries()
    ensures 'ß' !in FromUpper && 'ß' !in FromLowerA && 'ß' !in FromLowerB
    ensures 'ß' !in FromThorn && 'B' !in FromPunct
  {
    NotInUpper('ß');
    NotInLowerA('ß');
    NotInLowerB('ß');
  }

  lemma NotInUpper(c: char)
    requires c == 'ß' || c == '·'
    ensures c !in FromUpper
  {
  }

  lemma NotInLowerA(c: char)
    requires c == 'ß' || c == '·'
    ensures c !in FromLowerA
  {
  }

  lemma NotInLowerB(c: char)
    requires c == 'ß' || c == '·'
    ensures c !in FromLowerB
  {
  }

  /** Sharp s is turned into the capital 'B'. */
  lemma SharpSBecomesCapital()
    ensures Apply('ß', From, To) == 'B'
  {
    SharpSEntries();
    OnlyRestApplies('ß');
    RestInPieces('ß');
    Untouched('ß', FromThorn, ToThorn);
    Untouched('B', FromPunct, ToPunct);
  }

  /** Sharp s becomes the capital 'B', which the filter then removes. */
  lemma SharpSRemoved()
    ensures KeepSlugChars([Apply('ß', From, To)]) == []
  {
    SharpSBecomesCapital();
  }

  /** The capital entries of the table: the first 42, and Þ, Đ and Æ. */
  lemma CapitalEntries()
    ensures forall i :: 0 <= i < |FromUpper| ==> HasLower(FromUpper[i])
    ensures HasLower('Þ') && HasLower('Đ') && HasLower('Æ')
  {
  }

  /** The capital entries of the table never match: after lower-casing, no
      capital is left for them to replace. */
  lemma CapitalEntriesNeverMatch(s: string, c: char)
    requires c in FromUpper || c == 'Þ' || c == 'Đ' || c == 'Æ'
    ensures c !in Lower(s)
  {
    CapitalEntries();
  }

  // ---------------------------------------------------------------------
  // The regular-expression passes after the table.
  // ---------------------------------------------------------------------

  /** `replace(/[^a-z0-9 -]/g, '')`. */
  function KeepSlugChars(s: string): (r: string)
    ensures forall i :: 0 <= i < |r| ==> SlugChar(r[i]) || r[i] == ' '
    ensures |r| <= |s|
  {
    if s == [] then []
    else if SlugChar(s[0]) || s[0] == ' ' then [s[0]] + KeepSlugChars(s[1..])
    else KeepSlugChars(s[1..])
  }

  /** Each maximal run of characters satisfying `p` becomes the single
      character `r`; `inRun` says that such a run has just been replaced. */
  function ReplaceRunsFrom(s: string, p: char -> bool, r: char, inRun: bool): string {
    if s == [] then []
    else if p(s[0]) then (if inRun then [] else [r]) + ReplaceRunsFrom(s[1..], p, r, true)
    else [s[0]] + ReplaceRunsFrom(s[1..], p, r, false)
  }

  function ReplaceRuns(s: string, p: char -> bool, r: char): string {
    ReplaceRunsFrom(s, p, r, false)
  }

  predicate IsHyphen(c: char) {
    c == '-'
  }

  /** `replace(/\s+/g, '-')`. */
  function Hyphenate(s: string): string {
    ReplaceRuns(s, IsSpace, '-')
  }

  /** `replace(/-+/g, '-')`. */
  function CollapseHyphens(s: string): string {
    ReplaceRuns(s, IsHyphen, '-')
  }

  /** Every character of `o` is `r` or has property `q` and lies outside the runs. */
  predicate RunOutput(o: string, p: char -> bool, q: char -> bool, r: char) {
    forall i :: 0 <= i < |o| ==> o[i] == r || (q(o[i]) && !p(o[i]))
  }

  /** Every character of the output is `r` or a character of `s` outside
      the runs: whatever property `q` those characters have, the output has. */
  lemma {:induction false} ReplaceRunsChars(s: string, p: char -> bool, q: char -> bool, r: char, inRun: bool)
    requires forall i :: 0 <= i < |s| ==> p(s[i]) || q(s[i])
    ensures RunOutput(ReplaceRunsFrom(s, p, r, inRun), p, q, r)
  {
    if s != [] {
      var rest := ReplaceRunsFrom(s[1..], p, r, p(s[0]));
      ReplaceRunsChars(s[1..], p, q, r, p(s[0]));
      var o := ReplaceRunsFrom(s, p, r, inRun);
      if p(s[0]) && inRun {
        assert o == rest;
      } else {
        var h := if p(s[0]) then r else s[0];
        assert o == [h] + rest;
        assert p(s[0]) || q(s[0]);
        assert RunOutput([h], p, q, r);
      }
    }
  }

  /** No two `r` are adjacent in `o`. */
  predicate NoRepeat(o: string, r: char) {
    forall i :: 0 <= i < |o| - 1 ==> !(o[i] == r && o[i + 1] == r)
  }

  /** When `r` itself belongs to the runs, two `r` are never adjacent in the
      output, and right after a run the output does not start with `r`. */
  lemma {:induction false} ReplaceRunsNoRepeat(s: string, p: char -> bool, r: char, inRun: bool)
    requires p(r)
    ensures NoRepeat(ReplaceRunsFrom(s, p, r, inRun), r)
    ensures inRun && ReplaceRunsFrom(s, p, r, inRun) != [] ==> ReplaceRunsFrom(s, p, r, inRun)[0] != r
  {
    if s != [] {
      var rest := ReplaceRunsFrom(s[1..], p, r, p(s[0]));
      ReplaceRunsNoRepeat(s[1..], p, r, p(s[0]));
      var o := ReplaceRunsFrom(s, p, r, inRun);
      if p(s[0]) && inRun {
        assert o == rest;
      } else {
        var h := if p(s[0]) then r else s[0];
        assert o == [h] + rest;
        assert h != r ==> !p(s[0]);
        assert rest != [] && h == r ==> rest[0] != r;
        forall i | 0 <= i < |o| - 1 ensures !(o[i] == r && o[i + 1] == r) {
          if i > 0 {
            assert o[i] == rest[i - 1] && o[i + 1] == rest[i];
          }
        }
      }
    }
  }

  /** Without any character of the runs, nothing is replaced. */
  lemma {:induction false} ReplaceRunsNone(s: string, p: char -> bool, r: char, inRun: bool)
    requires forall i :: 0 <= i < |s| ==> !p(s[i])
    ensures ReplaceRunsFrom(s, p, r, inRun) == s
  {
    if s != [] {
      ReplaceRunsNone(s[1..], p, r, false);
    }
  }

  predicate NoDoubleHyphen(s: string) {
    NoRepeat(s, '-')
  }

  /** Collapsing hyphens in a string without two adjacent hyphens changes nothing. */
  lemma {:induction false} CollapseUnchanged(s: string, inRun: bool)
    requires NoDoubleHyphen(s)
    requires inRun && s != [] ==> s[0] != '-'
    ensures ReplaceRunsFrom(s, IsHyphen, '-', inRun) == s
  {
    if s != [] {
      CollapseUnchanged(s[1..], IsHyphen(s[0]));
    }
  }

  // ---------------------------------------------------------------------
  // The whole transformation and the suffix.
  // ---------------------------------------------------------------------

  /** The transformation of lines 11-27: trim, lower-case, table, filter,
      white-space runs to hyphens, hyphen runs collapsed. */
  function Transform(s: string): (r: string)
    ensures IsSlug(r)
  {
    RunsMakeSlug(KeepSlugChars(TableApplied(Lower(Trim(s)))));
    CollapseHyphens(Hyphenate(KeepSlugChars(TableApplied(Lower(Trim(s))))))
  }

  predicate IsSlug(s: string) {
    (forall i :: 0 <= i < |s| ==> SlugChar(s[i])) && NoDoubleHyphen(s)
  }

  predicate SlugOrSpace(c: char) {
    SlugChar(c) || c == ' '
  }

  /** The two run replacements turn filtered text into a slug. */
  lemma RunsMakeSlug(f: string)
    requires forall i :: 0 <= i < |f| ==> SlugOrSpace(f[i])
    ensures IsSlug(CollapseHyphens(Hyphenate(f)))
  {
    var h := Hyphenate(f);
    ReplaceRunsChars(f, IsSpace, SlugOrSpace, '-', false);
    assert RunOutput(h, IsSpace, SlugOrSpace, '-');
    assert IsSpace(' ');
    assert forall i :: 0 <= i < |h| ==> SlugChar(h[i]);
    var c := CollapseHyphens(h);
    ReplaceRunsChars(h, IsHyphen, SlugChar, '-', false);
    assert RunOutput(c, IsHyphen, SlugChar, '-');
    ReplaceRunsNoRepeat(h, IsHyphen, '-', false);
  }

  /** Lower-casing leaves letters, digits, spaces and hyphens unchanged. */
  lemma {:induction false} LowerKeepsSlugText(s: string)
    requires forall i :: 0 <= i < |s| ==> SlugOrSpace(s[i])
    ensures Lower(s) == s
  {
    if s != [] {
      LowerKeepsSlugText(s[1..]);
    }
  }

  /** The filter leaves letters, digits, spaces and hyphens unchanged. */
  lemma {:induction false} FilterKeepsSlugText(s: string)
    requires forall i :: 0 <= i < |s| ==> SlugOrSpace(s[i])
    ensures KeepSlugChars(s) == s
  {
    if s != [] {
      FilterKeepsSlugText(s[1..]);
    }
  }

  /** On text made of letters, digits, spaces and hyphens that does not
      start or end with a space, only the two run replacements act. */
  lemma TransformOfSlugText(s: string)
    requires forall i :: 0 <= i < |s| ==> SlugOrSpace(s[i])
    requires s == [] || (s[0] != ' ' && s[|s| - 1] != ' ')
    ensures Transform(s) == CollapseHyphens(Hyphenate(s))
  {
    TrimUnchanged(s);
    LowerKeepsSlugText(s);
    TableKeepsSlugText(s);
    FilterKeepsSlugText(s);
  }

  /** The table leaves letters, digits, spaces and hyphens unchanged. */
  lemma TableKeepsSlugText(s: string)
    requires forall i :: 0 <= i < |s| ==> SlugOrSpace(s[i])
    ensures TableApplied(s) == s
  {
    forall k | 0 <= k < |s| ensures Apply(s[k], From, To) == s[k] {
      TableKeepsSlugChars(s[k]);
    }
  }

  /** A slug is slug text that neither starts nor ends with a space. */
  lemma SlugIsSlugText(t: string)
    requires IsSlug(t)
    ensures forall i :: 0 <= i < |t| ==> SlugOrSpace(t[i])
    ensures t == [] || (t[0] != ' ' && t[|t| - 1] != ' ')
  {
  }

  /** The two run replacements leave a slug unchanged. */
  lemma RunsKeepSlug(t: string)
    requires IsSlug(t)
    ensures CollapseHyphens(Hyphenate(t)) == t
  {
    assert forall i :: 0 <= i < |t| ==> !IsSpace(t[i]);
    ReplaceRunsNone(t, IsSpace, '-', false);
    CollapseUnchanged(t, false);
  }

  /** A slug is left unchanged by the transformation. */
  lemma SlugFixed(t: string)
    requires IsSlug(t)
    ensures Transform(t) == t
  {
    SlugIsSlugText(t);
    TransformOfSlugText(t);
    RunsKeepSlug(t);
  }

  /** Transforming a slug again returns it unchanged. */
  lemma TransformIdempotent(s: string)
    ensures Transform(Transform(s)) == Transform(s)
  {
    SlugFixed(Transform(s));
  }

  /** A run of spaces between two words becomes one hyphen. */
  lemma SpacesBecomeOneHyphen(n: nat)
    requires n >= 1
    ensures Transform("a" + seq(n, _ => ' ') + "b") == "a-b"
  {
    var sp := seq(n, _ => ' ');
    var s := "a" + sp + "b";
    assert forall i :: 0 <= i < |s| ==> SlugOrSpace(s[i]);
    TransformOfSlugText(s);
    HyphenateSpaced(sp);
    CollapseUnchanged("a-b", false);
  }

  lemma HyphenateSpaced(sp: string)
    requires sp != [] && forall i :: 0 <= i < |sp| ==> sp[i] == ' '
    ensures Hyphenate("a" + sp + "b") == "a-b"
  {
    var s := "a" + sp + "b";
    SpaceRun(sp[1..], "b");
    assert s[1..] == sp + "b";
    assert (sp + "b")[1..] == sp[1..] + "b";
    assert IsSpace(s[1]) && !IsSpace(s[0]);
    calc {
      Hyphenate(s);
      ['a'] + ReplaceRunsFrom(sp + "b", IsSpace, '-', false);
      ['a'] + ['-'] + ReplaceRunsFrom(sp[1..] + "b", IsSpace, '-', true);
      "a-b";
    }
  }

  lemma {:induction false} SpaceRun(sp: string, rest: string)
    requires forall i :: 0 <= i < |sp| ==> sp[i] == ' '
    requires rest == "b"
    ensures ReplaceRunsFrom(sp + rest, IsSpace, '-', true) == "b"
  {
    if sp == [] {
      assert sp + rest == "b";
    } else {
      assert (sp + rest)[1..] == sp[1..] + rest;
      SpaceRun(sp[1..], rest);
    }
  }

  /** The slug returned when `matches` stored slugs already match the base. */
  function WithSuffix(base: string, matches: nat): string {
    if matches > 0 then base + "-" + NatToString(matches + 1) else base
  }

  /** Without matches the base is returned; with n matches the base is
      followed by a hyphen and text that reads back as n + 1. */
  lemma SuffixReadsBack(base: string, matches: nat)
    ensures matches == 0 ==> WithSuffix(base, matches) == base
    ensures matches > 0 ==>
      var r := WithSuffix(base, matches);
      |r| > |base| + 1 && r[..|base|] == base && r[|base|] == '-' &&
      ParseInt(r[|base| + 1..]) == Int(matches + 1)
  {
    if matches > 0 {
      var r := WithSuffix(base, matches);
      assert r[|base| + 1..] == NatToString(matches + 1);
      ParseIntOfNat(matches + 1);
    }
  }

  /** A suffixed slug is still a slug when its base is. */
  lemma SuffixKeepsSlug(base: string, matches: nat)
    requires IsSlug(base) && (base == [] || base[|base| - 1] != '-')
    ensures IsSlug(WithSuffix(base, matches))
  {
  }

  /** `generateSlug`: the transformation, then the suffix rule on the number
      of stored slugs that match; a failed lookup returns its error. */
  method GenerateSlug(title: string, matches: Result<nat, string>) returns (out: Result<string, string>)
    ensures matches.Err? ==> out == Err(matches.error)
    ensures matches.Ok? ==> out.Ok? && out.value == WithSuffix(Transform(title), matches.value)
  {
    var str := Trim(title);
    str := Lower(str);
    str := ApplyTable(str);
    str := CollapseHyphens(Hyphenate(KeepSlugChars(str)));
    if matches.Err? {
      return Err(matches.error);
    }
    out := Ok(WithSuffix(str, matches.value));
  }
}
