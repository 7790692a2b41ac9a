/** `expand_abbreviations` (text/cleaners.py): the `_abbreviations` table and the
    `re.sub` pass that each of its entries runs over the text, in table order. */
module Abbreviations {
  import opened TextChars
  import opened Lowercase

  /** `_abbreviations`: (abbreviation, expansion) pairs, in the order the passes run.
      Each abbreviation is compiled as `\b<abbreviation>\.` with IGNORECASE. */
  const ABBREVIATIONS: seq<(string, string)> := [
    ("mrs", "misess"),
    ("mr", "mister"),
    ("dr", "doctor"),
    ("st", "saint"),
    ("co", "company"),
    ("jr", "junior"),
    ("maj", "major"),
    ("gen", "general"),
    ("drs", "doctors"),
    ("rev", "reverend"),
    ("lt", "lieutenant"),
    ("hon", "honorable"),
    ("sgt", "sergeant"),
    ("capt", "captain"),
    ("esq", "esquire"),
    ("ltd", "limited"),
    ("col", "colonel"),
    ("ft", "fort")
  ]

  predicate LowerLetters(s: string)
  {
    forall k | 0 <= k < |s| :: IsLowerLetter(s[k])
  }

  /** A non-empty lower-case abbreviation and a lower-case expansion. */
  predicate WellFormedEntry(e: (string, string))
  {
    e.0 != [] && LowerLetters(e.0) && LowerLetters(e.1)
  }

  predicate WellFormedTable(table: seq<(string, string)>)
  {
    forall k | 0 <= k < |table| :: WellFormedEntry(table[k])
  }

  /** `\b` at position `i` of `s`: a word character on exactly one side of it. */
  predicate WordBoundary(s: string, i: nat)
    requires i <= |s|
  {
    (i > 0 && IsWord(s[i - 1])) != (i < |s| && IsWord(s[i]))
  }

  /** `abbr` occurs at position `i` of `s`, ignoring the case of letters. */
  predicate CaselessAt(s: string, abbr: string, i: nat)
    requires i + |abbr| <= |s|
    decreases |abbr|
  {
    abbr == [] || (LowerChar(s[i]) == LowerChar(abbr[0]) && CaselessAt(s, abbr[1..], i + 1))
  }

  lemma {:induction false} CaselessAtIff(s: string, abbr: string, i: nat)
    requires i + |abbr| <= |s|
    ensures CaselessAt(s, abbr, i) <==>
      forall k | 0 <= k < |abbr| :: LowerChar(s[i + k]) == LowerChar(abbr[k])
    decreases |abbr|
  {
    if abbr != [] {
      CaselessAtIff(s, abbr[1..], i + 1);
      assert forall k | 1 <= k < |abbr| :: abbr[k] == abbr[1..][k - 1];
    }
  }

  /** Whether `abbr` occurs at a position depends only on the characters there. */
  lemma {:induction false} CaselessAtSame(s: string, t: string, abbr: string, i: nat, j: nat)
    requires i + |abbr| <= |s| && j + |abbr| <= |t|
    requires s[i..i + |abbr|] == t[j..j + |abbr|]
    ensures CaselessAt(s, abbr, i) == CaselessAt(t, abbr, j)
    decreases |abbr|
  {
    if abbr != [] {
      var n := |abbr|;
      assert s[i] == s[i..i + n][0] && t[j] == t[j..j + n][0];
      assert s[i + 1..i + n] == s[i..i + n][1..];
      assert t[j + 1..j + n] == t[j..j + n][1..];
      CaselessAtSame(s, t, abbr[1..], i + 1, j + 1);
    }
  }

  /** The pattern `\b<abbr>\.`, case-insensitive, matches `s` at position `i`. */
  predicate IsMatchAt(s: string, abbr: string, i: nat)
  {
    && i + |abbr| < |s|
    && WordBoundary(s, i)
    && CaselessAt(s, abbr, i)
    && s[i + |abbr|] == '.'
  }

  predicate NoMatch(s: string, abbr: string)
  {
    forall j | 0 <= j < |s| :: !IsMatchAt(s, abbr, j)
  }

  /** The number of positions at or after `i` where the pattern matches. */
  function MatchesFrom(s: string, abbr: string, i: nat): (n: nat)
    requires i <= |s|
    ensures n <= |s| - i
    ensures n == 0 <==> forall j | i <= j < |s| :: !IsMatchAt(s, abbr, j)
    decreases |s| - i
  {
    if i == |s| then 0 else (if IsMatchAt(s, abbr, i) then 1 else 0) + MatchesFrom(s, abbr, i + 1)
  }

  /** One `re.sub(regex, replacement, text)` pass, scanning `s` from position `i`:
      a match is replaced by the expansion and scanning resumes after its `.`;
      otherwise the character is copied. Matches are always judged on the pass's
      input `s`, never on the partly rewritten text. */
  function SubFrom(s: string, abbr: string, rep: string, i: nat): string
    requires i <= |s|
    decreases |s| - i
  {
    if i == |s| then []
    else if IsMatchAt(s, abbr, i) then rep + SubFrom(s, abbr, rep, i + |abbr| + 1)
    else [s[i]] + SubFrom(s, abbr, rep, i + 1)
  }

  function Sub(s: string, abbr: string, rep: string): string
  {
    SubFrom(s, abbr, rep, 0)
  }

  /** The loop of `expand_abbreviations`: one pass per table entry, in order. */
  function ExpandWith(table: seq<(string, string)>, s: string): string
    decreases |table|
  {
    if table == [] then s else ExpandWith(table[1..], Sub(s, table[0].0, table[0].1))
  }

  /** `expand_abbreviations`. Text without a `.` comes back unchanged; the
      text never gains a `.`, and lower-case text stays lower-case. */
  function ExpandAbbreviations(s: string): (r: string)
    ensures '.' !in s ==> r == s
    ensures Count('.', r) <= Count('.', s)
    ensures NoUpper(s) ==> NoUpper(r)
  {
    AbbreviationsWellFormed();
    ExpandWithDots(ABBREVIATIONS, s);
    ExpandWithKeepsLowercase(ABBREVIATIONS, s);
    assert '.' !in s ==> ExpandWith(ABBREVIATIONS, s) == s by {
      if '.' !in s { ExpandWithNoDot(ABBREVIATIONS, s); }
    }
    ExpandWith(ABBREVIATIONS, s)
  }

  /** `expand_abbreviations` leaves the text unchanged exactly when no entry of
      the table matches it anywhere. */
  lemma ExpandUnchangedIff(s: string)
    ensures ExpandAbbreviations(s) == s <==>
      forall k | 0 <= k < |ABBREVIATIONS| :: NoMatch(s, ABBREVIATIONS[k].0)
  {
    AbbreviationsWellFormed();
    ExpandWithUnchangedIff(ABBREVIATIONS, s);
  }

  // ---------------------------------------------------------------------------
  // Properties of one pass

  /** Two matches of a lower-case abbreviation never overlap: inside a match
      every character but the `.` is a letter, so no `\b` falls there. */
  lemma NoOverlap(s: string, abbr: string, i: nat, j: nat)
    requires abbr != [] && LowerLetters(abbr)
    requires IsMatchAt(s, abbr, i) && i < j <= i + |abbr|
    ensures !IsMatchAt(s, abbr, j)
  {
    CaselessAtIff(s, abbr, i);
    if j == i + |abbr| {
      assert LowerChar(s[j]) == '.';
      assert IsLowerLetter(LowerChar(abbr[0]));
    } else {
      assert LowerChar(s[i + (j - 1 - i)]) == LowerChar(abbr[j - 1 - i]);
      assert LowerChar(s[i + (j - i)]) == LowerChar(abbr[j - i]);
    }
  }

  lemma {:induction false} MatchesFromGap(s: string, abbr: string, i: nat, j: nat)
    requires i <= j <= |s|
    requires forall p | i <= p < j :: !IsMatchAt(s, abbr, p)
    ensures MatchesFrom(s, abbr, i) == MatchesFrom(s, abbr, j)
    decreases j - i
  {
    if i < j {
      MatchesFromGap(s, abbr, i + 1, j);
    }
  }

  /** At a match, the count steps over the whole match. */
  lemma MatchesFromAtMatch(s: string, abbr: string, i: nat)
    requires abbr != [] && LowerLetters(abbr)
    requires IsMatchAt(s, abbr, i)
    ensures MatchesFrom(s, abbr, i) == 1 + MatchesFrom(s, abbr, i + |abbr| + 1)
  {
    forall p | i + 1 <= p < i + |abbr| + 1 ensures !IsMatchAt(s, abbr, p) {
      NoOverlap(s, abbr, i, p);
    }
    MatchesFromGap(s, abbr, i + 1, i + |abbr| + 1);
  }

  lemma CountSuffixStep(c: char, s: string, i: nat)
    requires i < |s|
    ensures Count(c, s[i..]) == (if s[i] == c then 1 else 0) + Count(c, s[i + 1..])
  {
    assert s[i..][1..] == s[i + 1..];
  }

  /** A match holds exactly one `.`, its last character. */
  lemma MatchDots(s: string, abbr: string, i: nat)
    requires abbr != [] && LowerLetters(abbr)
    requires IsMatchAt(s, abbr, i)
    ensures Count('.', s[i..]) == 1 + Count('.', s[i + |abbr| + 1..])
  {
    var n := |abbr|;
    var t := s[i..i + n];
    CaselessAtIff(s, abbr, i);
    forall k | 0 <= k < n ensures t[k] != '.' {
      assert t[k] == s[i + k];
      assert LowerChar(s[i + k]) == LowerChar(abbr[k]);
    }
    assert s[i..] == t + (['.'] + s[i + n + 1..]);
    CountAppend('.', t, ['.'] + s[i + n + 1..]);
    CountAppend('.', ['.'], s[i + n + 1..]);
  }

  /** Each match consumes exactly one `.` and the expansion adds none: the pass
      removes one `.` per match. */
  lemma {:induction false} SubFromDots(s: string, abbr: string, rep: string, i: nat)
    requires abbr != [] && LowerLetters(abbr) && '.' !in rep
    requires i <= |s|
    ensures Count('.', SubFrom(s, abbr, rep, i)) + MatchesFrom(s, abbr, i) == Count('.', s[i..])
    decreases |s| - i
  {
    if i < |s| {
      if IsMatchAt(s, abbr, i) {
        var j := i + |abbr| + 1;
        var rest := SubFrom(s, abbr, rep, j);
        assert SubFrom(s, abbr, rep, i) == rep + rest;
        SubFromDots(s, abbr, rep, j);
        MatchesFromAtMatch(s, abbr, i);
        CountAppend('.', rep, rest);
        MatchDots(s, abbr, i);
      } else {
        var rest := SubFrom(s, abbr, rep, i + 1);
        assert SubFrom(s, abbr, rep, i) == [s[i]] + rest;
        SubFromDots(s, abbr, rep, i + 1);
        CountAppend('.', [s[i]], rest);
        CountSuffixStep('.', s, i);
      }
    } else {
      assert s[i..] == [];
    }
  }

  /** Each match of `abbr.` becomes the expansion; everything else is copied. */
  lemma {:induction false} SubFromLength(s: string, abbr: string, rep: string, i: nat)
    requires abbr != [] && LowerLetters(abbr)
    requires i <= |s|
    ensures |SubFrom(s, abbr, rep, i)| == |s| - i + MatchesFrom(s, abbr, i) * (|rep| - |abbr| - 1)
    decreases |s| - i
  {
    if i < |s| {
      if IsMatchAt(s, abbr, i) {
        SubFromLength(s, abbr, rep, i + |abbr| + 1);
        SubFromLengthAtMatch(s, abbr, rep, i);
      } else {
        SubFromLength(s, abbr, rep, i + 1);
        assert SubFrom(s, abbr, rep, i) == [s[i]] + SubFrom(s, abbr, rep, i + 1);
        assert MatchesFrom(s, abbr, i) == MatchesFrom(s, abbr, i + 1);
      }
    }
  }

  /** The step of SubFromLength at a match. */
  lemma SubFromLengthAtMatch(s: string, abbr: string, rep: string, i: nat)
    requires abbr != [] && LowerLetters(abbr) && IsMatchAt(s, abbr, i)
    requires var j := i + |abbr| + 1;
      |SubFrom(s, abbr, rep, j)| == |s| - j + MatchesFrom(s, abbr, j) * (|rep| - |abbr| - 1)
    ensures |SubFrom(s, abbr, rep, i)| == |s| - i + MatchesFrom(s, abbr, i) * (|rep| - |abbr| - 1)
  {
    var j := i + |abbr| + 1;
    assert SubFrom(s, abbr, rep, i) == rep + SubFrom(s, abbr, rep, j);
    MatchesFromAtMatch(s, abbr, i);
    StepProduct(MatchesFrom(s, abbr, j), |rep| - |abbr| - 1);
  }

  lemma StepProduct(m: nat, d: int)
    ensures (1 + m) * d == m * d + d
  {
  }

  /** Without a match from `i` on, the pass copies the rest of the text. */
  lemma {:induction false} SubFromNoMatch(s: string, abbr: string, rep: string, i: nat)
    requires i <= |s|
    requires forall j | i <= j < |s| :: !IsMatchAt(s, abbr, j)
    ensures SubFrom(s, abbr, rep, i) == s[i..]
    decreases |s| - i
  {
    if i < |s| {
      SubFromNoMatch(s, abbr, rep, i + 1);
      assert s[i..] == [s[i]] + s[i + 1..];
    }
  }

  /** A pass leaves the text unchanged exactly when its pattern matches nowhere. */
  lemma SubUnchangedIff(s: string, abbr: string, rep: string)
    requires abbr != [] && LowerLetters(abbr) && '.' !in rep
    ensures Sub(s, abbr, rep) == s <==> NoMatch(s, abbr)
  {
    SubFromDots(s, abbr, rep, 0);
    assert s[0..] == s;
    if NoMatch(s, abbr) {
      SubFromNoMatch(s, abbr, rep, 0);
    }
  }

  /** A pass never adds a `.`, and removes one exactly when it finds a match. */
  lemma SubDots(s: string, abbr: string, rep: string)
    requires abbr != [] && LowerLetters(abbr) && '.' !in rep
    ensures Count('.', Sub(s, abbr, rep)) <= Count('.', s)
    ensures Count('.', Sub(s, abbr, rep)) == Count('.', s) <==> NoMatch(s, abbr)
  {
    SubFromDots(s, abbr, rep, 0);
    assert s[0..] == s;
  }

  /** Every match needs a `.`: text without one has no match. */
  lemma NoDotNoMatch(s: string, abbr: string)
    requires '.' !in s
    ensures NoMatch(s, abbr)
  {
  }

  /** A pass over lower-case text with a lower-case expansion gives lower-case text. */
  lemma {:induction false} SubFromKeepsLowercase(s: string, abbr: string, rep: string, i: nat)
    requires NoUpper(s) && LowerLetters(rep)
    requires i <= |s|
    ensures NoUpper(SubFrom(s, abbr, rep, i))
    decreases |s| - i
  {
    if i < |s| {
      var rest := if IsMatchAt(s, abbr, i) then i + |abbr| + 1 else i + 1;
      SubFromKeepsLowercase(s, abbr, rep, rest);
    }
  }

  // ---------------------------------------------------------------------------
  // Properties of the whole table

  /** The shipped table is well formed: lower-case abbreviations, and lower-case
      expansions, none of which contains a `.`. */
  lemma AbbreviationsWellFormed()
    ensures WellFormedTable(ABBREVIATIONS)
    ensures |ABBREVIATIONS| == 18
  {
    forall k | 0 <= k < |ABBREVIATIONS| ensures WellFormedEntry(ABBREVIATIONS[k]) {
      var e := ABBREVIATIONS[k];
      forall j | 0 <= j < |e.1| ensures IsLowerLetter(e.1[j]) { }
    }
  }

  lemma LowerLettersNoDot(s: string)
    requires LowerLetters(s)
    ensures '.' !in s
  {
  }

  lemma WellFormedTail(table: seq<(string, string)>)
    requires table != [] && WellFormedTable(table)
    ensures WellFormedTable(table[1..])
    ensures WellFormedEntry(table[0]) && '.' !in table[0].1
  {
    assert WellFormedEntry(table[0]);
    LowerLettersNoDot(table[0].1);
    forall k | 0 <= k < |table| - 1 ensures WellFormedEntry(table[1..][k]) {
      assert table[1..][k] == table[k + 1];
    }
  }

  /** Expansion never increases the number of `.` characters. */
  lemma {:induction false} ExpandWithDots(table: seq<(string, string)>, s: string)
    requires WellFormedTable(table)
    ensures Count('.', ExpandWith(table, s)) <= Count('.', s)
    decreases |table|
  {
    if table != [] {
      WellFormedTail(table);
      SubDots(s, table[0].0, table[0].1);
      ExpandWithDots(table[1..], Sub(s, table[0].0, table[0].1));
    }
  }

  /** The passes leave the text unchanged exactly when no entry of the table
      matches it anywhere. */
  lemma {:induction false} ExpandWithUnchangedIff(table: seq<(string, string)>, s: string)
    requires WellFormedTable(table)
    ensures ExpandWith(table, s) == s <==> forall k | 0 <= k < |table| :: NoMatch(s, table[k].0)
    decreases |table|
  {
    if table != [] {
      WellFormedTail(table);
      var abbr, rep := table[0].0, table[0].1;
      var s1 := Sub(s, abbr, rep);
      SubDots(s, abbr, rep);
      SubUnchangedIff(s, abbr, rep);
      if NoMatch(s, abbr) {
        ExpandWithUnchangedIff(table[1..], s);
        assert forall k | 1 <= k < |table| :: table[k] == table[1..][k - 1];
      } else {
        ExpandWithDots(table[1..], s1);
      }
    }
  }

  /** Text without a `.` is left alone by any table. */
  lemma {:induction false} ExpandWithNoDot(table: seq<(string, string)>, s: string)
    requires '.' !in s
    ensures ExpandWith(table, s) == s
    decreases |table|
  {
    if table != [] {
      NoDotNoMatch(s, table[0].0);
      SubFromNoMatch(s, table[0].0, table[0].1, 0);
      ExpandWithNoDot(table[1..], s);
    }
  }

  /** On lower-case text the expansions keep the text lower-case. */
  lemma {:induction false} ExpandWithKeepsLowercase(table: seq<(string, string)>, s: string)
    requires WellFormedTable(table)
    ensures NoUpper(s) ==> NoUpper(ExpandWith(table, s))
    decreases |table|
  {
    if table != [] && NoUpper(s) {
      WellFormedTail(table);
      SubFromKeepsLowercase(s, table[0].0, table[0].1, 0);
      ExpandWithKeepsLowercase(table[1..], Sub(s, table[0].0, table[0].1));
    }
  }

  // ---------------------------------------------------------------------------
  // Locality: matches never cross a separator

  /** A character that can be neither inside a match nor its final `.`. */
  predicate Separator(c: char)
  {
    !IsWord(c) && c != '.'
  }

  /** Every character of a match is a letter or its final `.`. */
  lemma MatchAvoidsSeparator(s: string, abbr: string, i: nat, p: nat)
    requires abbr != [] && LowerLetters(abbr) && IsMatchAt(s, abbr, i)
    requires i <= p <= i + |abbr|
    ensures !Separator(s[p])
  {
    CaselessAtIff(s, abbr, i);
    if p < i + |abbr| {
      assert LowerChar(s[i + (p - i)]) == LowerChar(abbr[p - i]);
    }
  }

  /** Behind a non-word character, `b` matches inside `a + b` exactly where it matches alone. */
  lemma ShiftMatch(a: string, b: string, abbr: string, j: nat)
    requires a != [] && !IsWord(a[|a| - 1]) && j <= |b|
    ensures IsMatchAt(a + b, abbr, |a| + j) <==> IsMatchAt(b, abbr, j)
  {
    if j + |abbr| < |b| {
      assert (a + b)[|a| + j..|a| + j + |abbr|] == b[j..j + |abbr|];
      CaselessAtSame(a + b, b, abbr, |a| + j, j);
    }
  }

  lemma {:induction false} SubFromShift(a: string, b: string, abbr: string, rep: string, j: nat)
    requires a != [] && !IsWord(a[|a| - 1]) && j <= |b|
    ensures SubFrom(a + b, abbr, rep, |a| + j) == SubFrom(b, abbr, rep, j)
    decreases |b| - j
  {
    if j < |b| {
      ShiftMatch(a, b, abbr, j);
      var k := if IsMatchAt(b, abbr, j) then j + |abbr| + 1 else j + 1;
      SubFromShift(a, b, abbr, rep, k);
      SubFromShiftStep(a, b, abbr, rep, j, k);
    }
  }

  /** One step of `SubFromShift`: both passes take the same step at `j`. */
  lemma SubFromShiftStep(a: string, b: string, abbr: string, rep: string, j: nat, k: nat)
    requires j < k <= |b|
    requires IsMatchAt(a + b, abbr, |a| + j) <==> IsMatchAt(b, abbr, j)
    requires k == if IsMatchAt(b, abbr, j) then j + |abbr| + 1 else j + 1
    requires SubFrom(a + b, abbr, rep, |a| + k) == SubFrom(b, abbr, rep, k)
    ensures SubFrom(a + b, abbr, rep, |a| + j) == SubFrom(b, abbr, rep, j)
  {
    var ab := a + b;
    if IsMatchAt(b, abbr, j) {
      assert |a| + j + |abbr| + 1 == |a| + k;
      assert SubFrom(ab, abbr, rep, |a| + j) == rep + SubFrom(ab, abbr, rep, |a| + k);
      assert SubFrom(b, abbr, rep, j) == rep + SubFrom(b, abbr, rep, k);
    } else {
      assert ab[|a| + j] == b[j];
      assert SubFrom(ab, abbr, rep, |a| + j) == [b[j]] + SubFrom(ab, abbr, rep, |a| + k);
      assert SubFrom(b, abbr, rep, j) == [b[j]] + SubFrom(b, abbr, rep, k);
    }
  }

  /** Before a final separator, `a` matches inside `a + b` exactly where it matches
      alone, and every such match ends before that separator. */
  lemma PrefixMatch(a: string, b: string, abbr: string, i: nat)
    requires abbr != [] && LowerLetters(abbr)
    requires a != [] && Separator(a[|a| - 1]) && i < |a|
    ensures IsMatchAt(a + b, abbr, i) <==> IsMatchAt(a, abbr, i)
    ensures IsMatchAt(a, abbr, i) ==> i + |abbr| + 1 < |a|
  {
    var n := |abbr|;
    if IsMatchAt(a + b, abbr, i) && |a| - 1 <= i + n {
      MatchAvoidsSeparator(a + b, abbr, i, |a| - 1);
    }
    if i + n + 1 < |a| {
      assert (a + b)[i..i + n] == a[i..i + n];
      CaselessAtSame(a + b, a, abbr, i, i);
    }
  }

  lemma {:induction false} SubFromPrefix(a: string, b: string, abbr: string, rep: string, i: nat)
    requires abbr != [] && LowerLetters(abbr)
    requires a != [] && Separator(a[|a| - 1]) && i <= |a|
    ensures SubFrom(a + b, abbr, rep, i) == SubFrom(a, abbr, rep, i) + Sub(b, abbr, rep)
    decreases |a| - i
  {
    if i == |a| {
      SubFromShift(a, b, abbr, rep, 0);
    } else {
      PrefixMatch(a, b, abbr, i);
      var j := if IsMatchAt(a, abbr, i) then i + |abbr| + 1 else i + 1;
      SubFromPrefix(a, b, abbr, rep, j);
      SubFromPrefixStep(a, b, abbr, rep, i, j);
    }
  }

  /** One step of `SubFromPrefix`: the pass over `a + b` and the pass over `a`
      take the same step at `i`, to the same next position `j`. */
  lemma SubFromPrefixStep(a: string, b: string, abbr: string, rep: string, i: nat, j: nat)
    requires i < j <= |a|
    requires IsMatchAt(a + b, abbr, i) <==> IsMatchAt(a, abbr, i)
    requires j == if IsMatchAt(a, abbr, i) then i + |abbr| + 1 else i + 1
    requires SubFrom(a + b, abbr, rep, j) == SubFrom(a, abbr, rep, j) + Sub(b, abbr, rep)
    ensures SubFrom(a + b, abbr, rep, i) == SubFrom(a, abbr, rep, i) + Sub(b, abbr, rep)
  {
    if !IsMatchAt(a, abbr, i) {
      assert (a + b)[i] == a[i];
    }
  }

  /** One pass treats the text on either side of a separator independently. */
  lemma SubAppend(a: string, b: string, abbr: string, rep: string)
    requires abbr != [] && LowerLetters(abbr)
    requires a != [] && Separator(a[|a| - 1])
    ensures Sub(a + b, abbr, rep) == Sub(a, abbr, rep) + Sub(b, abbr, rep)
  {
    SubFromPrefix(a, b, abbr, rep, 0);
  }

  /** A final separator is never rewritten. */
  lemma {:induction false} SubFromKeepsLast(a: string, abbr: string, rep: string, i: nat)
    requires abbr != [] && LowerLetters(abbr)
    requires a != [] && Separator(a[|a| - 1]) && i < |a|
    ensures var r := SubFrom(a, abbr, rep, i); r != [] && r[|r| - 1] == a[|a| - 1]
    decreases |a| - i
  {
    PrefixMatch(a, [], abbr, i);
    if IsMatchAt(a, abbr, i) {
      SubFromKeepsLast(a, abbr, rep, i + |abbr| + 1);
    } else if i + 1 < |a| {
      SubFromKeepsLast(a, abbr, rep, i + 1);
    }
  }

  /** The whole expansion treats the text on either side of a separator
      independently: abbreviations are expanded word by word. */
  lemma {:induction false} ExpandWithAppend(table: seq<(string, string)>, a: string, b: string)
    requires WellFormedTable(table)
    requires a != [] && Separator(a[|a| - 1])
    ensures ExpandWith(table, a + b) == ExpandWith(table, a) + ExpandWith(table, b)
    decreases |table|
  {
    if table != [] {
      WellFormedTail(table);
      var abbr, rep := table[0].0, table[0].1;
      SubAppend(a, b, abbr, rep);
      SubFromKeepsLast(a, abbr, rep, 0);
      ExpandWithAppend(table[1..], Sub(a, abbr, rep), Sub(b, abbr, rep));
    }
  }

  // ---------------------------------------------------------------------------
  // Worked examples

  /** Text that no single pass changes is left alone by the whole table. */
  lemma {:induction false} ExpandWithFixed(table: seq<(string, string)>, s: string)
    requires forall k | 0 <= k < |table| :: Sub(s, table[k].0, table[k].1) == s
    ensures ExpandWith(table, s) == s
    decreases |table|
  {
    if table != [] {
      assert Sub(s, table[0].0, table[0].1) == s;
      assert forall k | 0 <= k < |table[1..]| :: table[1..][k] == table[k + 1];
      ExpandWithFixed(table[1..], s);
    }
  }

  /** Running the table is running its first `k` entries, then the rest. */
  lemma {:induction false} ExpandWithSplit(table: seq<(string, string)>, k: nat, s: string)
    requires k <= |table|
    ensures ExpandWith(table, s) == ExpandWith(table[k..], ExpandWith(table[..k], s))
    decreases k
  {
    if k == 0 {
      assert table[..0] == [] && table[0..] == table;
    } else {
      var s1 := Sub(s, table[0].0, table[0].1);
      ExpandWithSplit(table[1..], k - 1, s1);
      assert table[1..][k - 1..] == table[k..];
      assert table[..k][1..] == table[1..][..k - 1];
      assert table[..k][0] == table[0];
    }
  }

  /** One pass of the loop, when its result is known. */
  lemma ExpandWithStep(table: seq<(string, string)>, s: string, s': string)
    requires table != [] && Sub(s, table[0].0, table[0].1) == s'
    ensures ExpandWith(table, s) == ExpandWith(table[1..], s')
  {
  }

  /** The passes up to "dr" on "Dr. ": only the third one matches. */
  lemma DoctorPasses()
    ensures Sub("Dr. ", "mrs", "misess") == "Dr. "
    ensures Sub("Dr. ", "mr", "mister") == "Dr. "
    ensures Sub("Dr. ", "dr", "doctor") == "doctor "
  {
  }

  /** "Dr. " is rewritten by the third pass, and nothing else touches it. The
      lemma needs only the first three entries of the table. */
  lemma ExpandDoctor(t: seq<(string, string)>)
    requires |t| >= 3 && t[0] == ("mrs", "misess") && t[1] == ("mr", "mister") && t[2] == ("dr", "doctor")
    ensures ExpandWith(t, "Dr. ") == "doctor "
  {
    DoctorPasses();
    ExpandWithStep(t, "Dr. ", "Dr. ");
    ExpandWithStep(t[1..], "Dr. ", "Dr. ");
    ExpandWithStep(t[2..], "Dr. ", "doctor ");
    assert t[2..][1..] == t[3..];
    ExpandWithNoDot(t[3..], "doctor ");
  }

  /** The passes up to "st" on "St. ": only the fourth one matches. */
  lemma SaintPasses()
    ensures Sub("St. ", "mrs", "misess") == "St. "
    ensures Sub("St. ", "mr", "mister") == "St. "
    ensures Sub("St. ", "dr", "doctor") == "St. "
    ensures Sub("St. ", "st", "saint") == "saint "
  {
  }

  /** "St. " is rewritten by the fourth pass, and nothing else touches it. The
      lemma needs only the first four entries of the table. */
  lemma ExpandSaint(t: seq<(string, string)>)
    requires |t| >= 4 && t[0] == ("mrs", "misess") && t[1] == ("mr", "mister") && t[2] == ("dr", "doctor")
    requires t[3] == ("st", "saint")
    ensures ExpandWith(t, "St. ") == "saint "
  {
    SaintPasses();
    ExpandWithStep(t, "St. ", "St. ");
    ExpandWithStep(t[1..], "St. ", "St. ");
    ExpandWithStep(t[2..], "St. ", "St. ");
    ExpandWithStep(t[3..], "St. ", "saint ");
    assert t[3..][1..] == t[4..];
    ExpandWithNoDot(t[4..], "saint ");
  }

  /** Three separator-ended pieces and a tail are expanded piece by piece. */
  lemma ExpandWithPieces(table: seq<(string, string)>, a: string, b: string, c: string, d: string)
    requires WellFormedTable(table)
    requires a != [] && Separator(a[|a| - 1])
    requires b != [] && Separator(b[|b| - 1])
    requires c != [] && Separator(c[|c| - 1])
    ensures ExpandWith(table, a + b + c + d)
         == ExpandWith(table, a) + ExpandWith(table, b) + ExpandWith(table, c) + ExpandWith(table, d)
  {
    assert a + b + c + d == a + (b + (c + d));
    ExpandWithAppend(table, a, b + (c + d));
    ExpandWithAppend(table, b, c + d);
    ExpandWithAppend(table, c, d);
  }

  /** "Dr. Smith visited St. Louis" becomes "doctor Smith visited saint Louis"
      under any well-formed table that starts like `_abbreviations`:
      abbreviations are expanded whatever their case, and words without a
      following `.` are left alone. The sentence is written as the
      concatenation of its pieces. */
  lemma ExpandWithExample(t: seq<(string, string)>)
    requires WellFormedTable(t)
    requires |t| >= 4 && t[0] == ("mrs", "misess") && t[1] == ("mr", "mister") && t[2] == ("dr", "doctor")
    requires t[3] == ("st", "saint")
    ensures ExpandWith(t, "Dr. " + "Smith visited " + "St. " + "Louis")
         == "doctor " + "Smith visited " + "saint " + "Louis"
  {
    ExpandWithPieces(t, "Dr. ", "Smith visited ", "St. ", "Louis");
    ExpandDoctor(t);
    ExpandSaint(t);
    ExpandPlainWords(t);
  }

  /** The words of the example that carry no `.` are left alone by any table. */
  lemma ExpandPlainWords(t: seq<(string, string)>)
    ensures ExpandWith(t, "Smith visited ") == "Smith visited "
    ensures ExpandWith(t, "Louis") == "Louis"
  {
    ExpandWithNoDot(t, "Smith visited ");
    ExpandWithNoDot(t, "Louis");
  }

  /** The same sentence under `_abbreviations` itself. */
  lemma ExpandExample()
    ensures ExpandAbbreviations("Dr. " + "Smith visited " + "St. " + "Louis")
         == "doctor " + "Smith visited " + "saint " + "Louis"
  {
    AbbreviationsWellFormed();
    ExpandWithExample(ABBREVIATIONS);
  }

  /** In a word followed by `.`, the pattern can only match the whole word,
      and only when the word, lowercased, is the abbreviation. */
  lemma WordDotMatch(w: string, abbr: string, j: nat)
    requires forall k | 0 <= k < |w| :: IsWord(w[k])
    requires abbr != [] && LowerLetters(abbr)
    ensures IsMatchAt(w + ".", abbr, j) ==> j == 0 && Lower(w) == abbr
  {
    if IsMatchAt(w + ".", abbr, j) {
      WordDotMatchStart(w, abbr, j);
      WordDotCaseless(w, abbr);
    }
  }

  /** Only `.` can end a match, and `\b` cannot fall inside the word. */
  lemma WordDotMatchStart(w: string, abbr: string, j: nat)
    requires forall k | 0 <= k < |w| :: IsWord(w[k])
    requires abbr != [] && IsMatchAt(w + ".", abbr, j)
    ensures j == 0 && |abbr| == |w|
  {
    var s := w + ".";
    assert forall p | 0 <= p < |w| :: s[p] == w[p];
  }

  lemma WordDotCaseless(w: string, abbr: string)
    requires |abbr| == |w| && LowerLetters(abbr) && CaselessAt(w + ".", abbr, 0)
    ensures Lower(w) == abbr
  {
    var s := w + ".";
    CaselessAtIff(s, abbr, 0);
    assert forall k | 0 <= k < |w| :: s[k] == w[k];
    LowerMatches(w, abbr);
  }

  /** A word equal to a lower-case abbreviation up to case lowercases to it. */
  lemma LowerMatches(w: string, abbr: string)
    requires |abbr| == |w| && LowerLetters(abbr)
    requires forall k | 0 <= k < |w| :: LowerChar(w[k]) == LowerChar(abbr[k])
    ensures Lower(w) == abbr
  {
    forall k | 0 <= k < |w| ensures Lower(w)[k] == abbr[k] {
      LowerAt(w, k);
    }
  }

  /** A word followed by `.` that is not, lowercased, an abbreviation of the
      table comes back unchanged: abbreviations are only expanded as whole words. */
  lemma ExpandWithWordDot(table: seq<(string, string)>, w: string)
    requires WellFormedTable(table)
    requires forall k | 0 <= k < |w| :: IsWord(w[k])
    requires forall k | 0 <= k < |table| :: table[k].0 != Lower(w)
    ensures ExpandWith(table, w + ".") == w + "."
  {
    var s := w + ".";
    forall k | 0 <= k < |table| ensures Sub(s, table[k].0, table[k].1) == s {
      forall j | 0 <= j < |s| ensures !IsMatchAt(s, table[k].0, j) {
        WordDotMatch(w, table[k].0, j);
      }
      SubFromNoMatch(s, table[k].0, table[k].1, 0);
      assert s[0..] == s;
    }
    ExpandWithFixed(table, s);
  }

  /** `\b` blocks a match inside a longer word: "xdr." is not "dr.". */
  lemma ExpandBlockedExample()
    ensures ExpandAbbreviations("xdr" + ".") == "xdr" + "."
  {
    var t := ABBREVIATIONS;
    AbbreviationsWellFormed();
    assert Lower("xdr") == "xdr";
    assert forall k | 0 <= k < |t| :: t[k].0 != "xdr";
    ExpandWithWordDot(t, "xdr");
  }
}
